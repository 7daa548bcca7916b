/** The workflow health check: the diagnostic record it assembles and the
    overall verdict it reaches, and the exit code of the `health` command.
    Everything the check learns from the outside world (tool probes, the
    `.beads` directory, the trial list, the git calls) comes in as a value. */
module Health {
  import opened Wrappers
  import opened VersionProbe
  import opened GitStatus

  datatype Severity = Healthy | Degraded | Critical

  /** The name the report prints and the exit code compares against. */
  function SeverityName(s: Severity): (name: string)
    ensures name == "HEALTHY" <==> s == Healthy
  {
    match s
    case Healthy => "HEALTHY"
    case Degraded => "DEGRADED"
    case Critical => "CRITICAL"
  }

  /** One entry of the environment section: found, and the version shown. */
  datatype ToolCheck = ToolCheck(ok: bool, version: string)

  /** What the git calls produced: git could not be started, or it ran
      `rev-parse` with the given exit status, and these are the outputs of
      `git branch --show-current` and `git status --porcelain`. */
  datatype GitProbe = GitMissing | GitRan(revParseStatus: int, branchOutput: string, statusOutput: string)

  /** The facts the check gathers from outside. */
  datatype Probes = Probes(
    tools: map<string, ProbeOutput>,
    beadsDir: bool,
    trialListSucceeded: bool,
    git: GitProbe)

  datatype BeadsSection = BeadsSection(initialized: bool, commandsWorking: Option<bool>)

  datatype GitSection = GitSection(isRepo: bool, branch: Option<string>, uncommitted: Option<nat>)

  datatype HealthReport = HealthReport(
    environment: map<string, ToolCheck>,
    beads: BeadsSection,
    git: GitSection,
    overall: Severity)

  /** The tools probed, in order. */
  const Tools: seq<string> := ["bd", "git", "jq"]

  /** A tool whose absence makes the environment critical. */
  predicate IsRequired(tool: string) {
    tool == "bd" || tool == "git"
  }

  function ToolEntry(probe: ProbeOutput): ToolCheck {
    var (ok, version) := CheckCommand(probe);
    ToolCheck(ok, version)
  }

  /** The environment section after probing the tools of `tools`. */
  function EnvironmentAfter(probes: map<string, ProbeOutput>, tools: seq<string>): map<string, ToolCheck>
    requires forall k | 0 <= k < |tools| :: tools[k] in probes
  {
    if tools == [] then map[]
    else
      var last := tools[|tools| - 1];
      EnvironmentAfter(probes, tools[..|tools| - 1])[last := ToolEntry(probes[last])]
  }

  /** The verdict after probing the tools of `tools`, starting from
      healthy: critical once a required tool was missing. */
  function VerdictAfter(probes: map<string, ProbeOutput>, tools: seq<string>): Severity
    requires forall k | 0 <= k < |tools| :: tools[k] in probes
  {
    if tools == [] then Healthy
    else
      var last := tools[|tools| - 1];
      if !CheckCommand(probes[last]).0 && IsRequired(last) then Critical
      else VerdictAfter(probes, tools[..|tools| - 1])
  }

  /** The overall verdict as one decision: no `.beads` directory is
      critical; a failed trial list is degraded, whatever the tools said;
      otherwise a missing `bd` or `git` is critical; else healthy. */
  function Overall(bdFound: bool, gitFound: bool, beadsDir: bool, listSucceeded: bool): Severity {
    if !beadsDir then Critical
    else if !listSucceeded then Degraded
    else if !bdFound || !gitFound then Critical
    else Healthy
  }

  /** The git section: not a repository when git is missing or `rev-parse`
      fails; otherwise the trimmed branch name and the change count. */
  function GitSectionOf(g: GitProbe): (s: GitSection)
    ensures s.isRepo <==> g.GitRan? && g.revParseStatus == 0
    ensures s.isRepo ==>
      s.branch == Some(BranchName(g.branchOutput)) && s.uncommitted == Some(Uncommitted(g.statusOutput))
    ensures !s.isRepo ==> s.branch.None? && s.uncommitted.None?
  {
    match g
    case GitMissing => GitSection(false, None, None)
    case GitRan(status, branch, porcelain) =>
      if status == 0 then GitSection(true, Some(BranchName(branch)), Some(Uncommitted(porcelain)))
      else GitSection(false, None, None)
  }

  lemma EnvironmentOfTools(probes: map<string, ProbeOutput>)
    requires "bd" in probes && "git" in probes && "jq" in probes
    ensures EnvironmentAfter(probes, Tools)
      == map["bd" := ToolEntry(probes["bd"]), "git" := ToolEntry(probes["git"]), "jq" := ToolEntry(probes["jq"])]
    ensures VerdictAfter(probes, Tools)
      == if !CheckCommand(probes["bd"]).0 || !CheckCommand(probes["git"]).0 then Critical else Healthy
  {
    EnvironmentOfToolsMap(probes);
    VerdictOfTools(probes);
  }

  lemma EnvironmentOfToolsMap(probes: map<string, ProbeOutput>)
    requires "bd" in probes && "git" in probes && "jq" in probes
    ensures EnvironmentAfter(probes, Tools)
      == map["bd" := ToolEntry(probes["bd"]), "git" := ToolEntry(probes["git"]), "jq" := ToolEntry(probes["jq"])]
  {
    var t1, t2: seq<string> := ["bd"], ["bd", "git"];
    assert t1[..0] == [] && t2[..1] == t1 && Tools[..2] == t2;
    var e1 := map[]["bd" := ToolEntry(probes["bd"])];
    var e2 := e1["git" := ToolEntry(probes["git"])];
    var e3 := e2["jq" := ToolEntry(probes["jq"])];
    assert EnvironmentAfter(probes, t1) == e1;
    assert EnvironmentAfter(probes, t2) == e2;
    assert EnvironmentAfter(probes, Tools) == e3;
  }

  lemma VerdictOfTools(probes: map<string, ProbeOutput>)
    requires "bd" in probes && "git" in probes && "jq" in probes
    ensures VerdictAfter(probes, Tools)
      == if !CheckCommand(probes["bd"]).0 || !CheckCommand(probes["git"]).0 then Critical else Healthy
  {
    var t1, t2: seq<string> := ["bd"], ["bd", "git"];
    assert t1[..0] == [] && t2[..1] == t1 && Tools[..2] == t2;
    assert VerdictAfter(probes, t1) == if !CheckCommand(probes["bd"]).0 then Critical else Healthy;
  }

  /** The health check. It probes `bd`, `git` and `jq` in turn, filling the
      environment section and setting the verdict to critical when `bd` or
      `git` is missing; then a missing `.beads` directory sets it to
      critical and a failed trial list to degraded, each replacing what
      came before; then it reads the git state. */
  method RunHealthCheck(p: Probes) returns (report: HealthReport)
    requires "bd" in p.tools && "git" in p.tools && "jq" in p.tools
    ensures report.environment
      == map["bd" := ToolEntry(p.tools["bd"]), "git" := ToolEntry(p.tools["git"]), "jq" := ToolEntry(p.tools["jq"])]
    ensures report.beads.initialized == p.beadsDir
    ensures report.beads.commandsWorking == if p.beadsDir then Some(p.trialListSucceeded) else None
    ensures report.git == GitSectionOf(p.git)
    ensures report.overall
      == Overall(p.tools["bd"].Ran?, p.tools["git"].Ran?, p.beadsDir, p.trialListSucceeded)
  {
    var environment: map<string, ToolCheck> := map[];
    var overall := Healthy;
    for i := 0 to |Tools|
      invariant environment == EnvironmentAfter(p.tools, Tools[..i])
      invariant overall == VerdictAfter(p.tools, Tools[..i])
    {
      var cmd := Tools[i];
      assert Tools[..i + 1][..i] == Tools[..i];
      var (ok, version) := CheckCommand(p.tools[cmd]);
      environment := environment[cmd := ToolCheck(ok, version)];
      if !ok && IsRequired(cmd) {
        overall := Critical;
      }
    }
    assert Tools[..|Tools|] == Tools;
    EnvironmentOfTools(p.tools);

    var commandsWorking: Option<bool> := None;
    if p.beadsDir {
      if p.trialListSucceeded {
        commandsWorking := Some(true);
      } else {
        commandsWorking := Some(false);
        overall := Degraded;
      }
    } else {
      overall := Critical;
    }

    var git := GitSectionOf(p.git);
    report := HealthReport(environment, BeadsSection(p.beadsDir, commandsWorking), git, overall);
  }

  /** The `health` command's exit code: 0 for a healthy verdict, 1 otherwise. */
  function ExitCode(overall: Severity): (code: int)
    ensures code == 0 || code == 1
    ensures code == 0 <==> SeverityName(overall) == "HEALTHY"
  {
    if SeverityName(overall) == "HEALTHY" then 0 else 1
  }

  // ---------------------------------------------------------------- lemmas

  /** Healthy exactly when `bd` and `git` were found, `.beads` exists and
      the trial list succeeded; so the command exits 0 exactly then. */
  lemma HealthyIff(bdFound: bool, gitFound: bool, beadsDir: bool, listSucceeded: bool)
    ensures Overall(bdFound, gitFound, beadsDir, listSucceeded) == Healthy
      <==> bdFound && gitFound && beadsDir && listSucceeded
    ensures ExitCode(Overall(bdFound, gitFound, beadsDir, listSucceeded)) == 0
      <==> bdFound && gitFound && beadsDir && listSucceeded
  {
  }

  /** Degraded exactly when `.beads` exists and the trial list failed. */
  lemma DegradedIff(bdFound: bool, gitFound: bool, beadsDir: bool, listSucceeded: bool)
    ensures Overall(bdFound, gitFound, beadsDir, listSucceeded) == Degraded
      <==> beadsDir && !listSucceeded
  {
  }

  /** The verdict is replaced, not raised: a failed trial list turns the
      critical verdict of a missing `git` into degraded. The function also
      covers a missing `bd`, where the real trial call raises instead of
      failing, because the trial outcome is an input of its own. */
  lemma ListFailureReplacesCritical(bdFound: bool, gitFound: bool)
    requires !bdFound || !gitFound
    ensures Overall(bdFound, gitFound, true, true) == Critical
    ensures Overall(bdFound, gitFound, true, false) == Degraded
  {
  }
}
