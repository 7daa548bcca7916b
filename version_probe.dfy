/** The command probe of the environment checks: a tool either cannot be
    started, or it ran and its `--version` output yields a version string
    for display, the leftmost match of the pattern `v?[\d.]+`. */
module VersionProbe {
  import opened Wrappers

  /** What starting `<tool> --version` produced. */
  datatype ProbeOutput = NotFound | Ran(stdout: string, stderr: string)

  /** A character of the class `[\d.]`, with ASCII digits. */
  predicate IsVersionChar(c: char) {
    '0' <= c <= '9' || c == '.'
  }

  /** The length of the run of version characters that starts at `i`. */
  function RunLength(s: string, i: nat): (n: nat)
    requires i <= |s|
    ensures i + n <= |s|
    ensures forall k | i <= k < i + n :: IsVersionChar(s[k])
    ensures i + n == |s| || !IsVersionChar(s[i + n])
    decreases |s| - i
  {
    if i < |s| && IsVersionChar(s[i]) then 1 + RunLength(s, i + 1) else 0
  }

  /** The length of the match of `v?[\d.]+` that starts at `i`, if one does:
      the optional `v` is taken when a version character follows it, and the
      class then repeats as far as it can. */
  function MatchAt(s: string, i: nat): (m: Option<nat>)
    requires i <= |s|
    ensures m.Some? ==> 1 <= m.value && i + m.value <= |s|
  {
    if i + 1 < |s| && s[i] == 'v' && IsVersionChar(s[i + 1]) then Some(1 + RunLength(s, i + 1))
    else if i < |s| && IsVersionChar(s[i]) then Some(RunLength(s, i))
    else None
  }

  /** The leftmost match at or after `i`, as a start and a length. */
  function Search(s: string, i: nat): (r: Option<(nat, nat)>)
    requires i <= |s|
    ensures r.Some? ==> i <= r.value.0 <= |s| && MatchAt(s, r.value.0) == Some(r.value.1)
    ensures forall p | i <= p < (if r.Some? then r.value.0 else |s|) :: MatchAt(s, p).None?
    decreases |s| - i
  {
    if i == |s| then None
    else if MatchAt(s, i).Some? then Some((i, MatchAt(s, i).value))
    else Search(s, i + 1)
  }

  /** The version shown for a tool: the leftmost match in its standard
      output, or in its error output when the standard output is empty, and
      `unknown` when there is none. */
  function ExtractVersion(stdout: string, stderr: string): string {
    var text := if stdout != "" then stdout else stderr;
    match Search(text, 0)
    case Some((start, len)) => text[start..start + len]
    case None => "unknown"
  }

  /** `(found, version)` for a tool. */
  function CheckCommand(probe: ProbeOutput): (r: (bool, string))
    ensures r.0 <==> probe.Ran?
    ensures !r.0 ==> r.1 == "not found"
  {
    match probe
    case NotFound => (false, "not found")
    case Ran(out, err) => (true, ExtractVersion(out, err))
  }

  /** The text the pattern is searched in. */
  function ProbedText(stdout: string, stderr: string): string {
    if stdout != "" then stdout else stderr
  }

  /** A match exists exactly when some version character occurs. */
  lemma {:induction false} SearchFindsVersionChar(s: string, i: nat)
    requires i <= |s|
    ensures Search(s, i).None? <==> forall k | i <= k < |s| :: !IsVersionChar(s[k])
    decreases |s| - i
  {
    if i < |s| {
      SearchFindsVersionChar(s, i + 1);
    }
  }

  /** The version is `unknown` exactly when the searched text holds no digit
      and no dot; otherwise it is a piece of that text which is a version
      string (an optional `v`, then digits and dots), which no earlier
      position could start, and which cannot be extended. */
  lemma ExtractVersionSpec(stdout: string, stderr: string)
    ensures var text := ProbedText(stdout, stderr);
      var r := ExtractVersion(stdout, stderr);
      (r == "unknown" <==> forall k | 0 <= k < |text| :: !IsVersionChar(text[k]))
      && (r != "unknown" ==>
            exists start: nat :: LeftmostLongestAt(text, start, r))
  {
    var text := ProbedText(stdout, stderr);
    var r := ExtractVersion(stdout, stderr);
    SearchFindsVersionChar(text, 0);
    match Search(text, 0)
    case None =>
    case Some((start, len)) =>
      assert r == text[start..start + len];
      MatchedVersion(text, start, len);
      NoEarlierMatch(text, start);
      assert r[0] != 'u' && "unknown"[0] == 'u';
      assert LeftmostLongestAt(text, start, r);
  }

  /** A match is a version string that the next character does not extend. */
  lemma MatchedVersion(text: string, start: nat, len: nat)
    requires start <= |text| && MatchAt(text, start) == Some(len)
    ensures IsVersionString(text[start..start + len])
    ensures start + len == |text| || !IsVersionChar(text[start + len])
  {
    var r := text[start..start + len];
    assert forall k | 0 <= k < |r| :: r[k] == text[start + k];
  }

  /** No match before `start`: no version character there, and no `v`
      followed by one. */
  lemma NoEarlierMatch(text: string, start: nat)
    requires start < |text|
    requires forall p | 0 <= p < start :: MatchAt(text, p).None?
    ensures forall p | 0 <= p < start :: !IsVersionChar(text[p])
    ensures forall p | 0 <= p < start :: !(text[p] == 'v' && IsVersionChar(text[p + 1]))
  {
    forall p | 0 <= p < start
      ensures !IsVersionChar(text[p]) && !(text[p] == 'v' && IsVersionChar(text[p + 1]))
    {
      assert MatchAt(text, p).None?;
    }
  }

  /** `r` is the piece of `text` at `start`, it is a version string, no
      earlier position starts one, and the next character does not extend
      it. */
  predicate LeftmostLongestAt(text: string, start: nat, r: string) {
    start + |r| <= |text|
    && text[start..start + |r|] == r
    && IsVersionString(r)
    && (forall p | 0 <= p < start :: !IsVersionChar(text[p]))
    && (forall p | 0 <= p < start :: !(text[p] == 'v' && IsVersionChar(text[p + 1])))
    && (start + |r| == |text| || !IsVersionChar(text[start + |r|]))
  }

  /** An optional `v`, then at least one digit or dot, and nothing else. */
  predicate IsVersionString(r: string) {
    |r| >= 1
    && (r[0] == 'v' || IsVersionChar(r[0]))
    && (r[0] == 'v' ==> |r| >= 2)
    && forall k | 1 <= k < |r| :: IsVersionChar(r[k])
  }

  /** A run of version characters followed by anything else has exactly
      its length as `RunLength`. */
  lemma {:induction false} RunLengthExact(s: string, i: nat, n: nat)
    requires i + n <= |s|
    requires forall k | i <= k < i + n :: IsVersionChar(s[k])
    requires i + n == |s| || !IsVersionChar(s[i + n])
    ensures RunLength(s, i) == n
    decreases n
  {
    if n > 0 {
      RunLengthExact(s, i + 1, n - 1);
    }
  }

  /** The description pins the result down: two pieces that both satisfy it
      are the same piece. */
  lemma LeftmostLongestUnique(text: string, s1: nat, r1: string, s2: nat, r2: string)
    requires LeftmostLongestAt(text, s1, r1) && LeftmostLongestAt(text, s2, r2)
    ensures s1 == s2 && r1 == r2
  {
    SameStart(text, s1, r1, s2, r2);
    VersionRun(text, s1, r1);
    VersionRun(text, s1, r2);
    assert r1[0] == text[s1] == r2[0];
  }

  /** Two such pieces start at the same place. */
  lemma SameStart(text: string, s1: nat, r1: string, s2: nat, r2: string)
    requires LeftmostLongestAt(text, s1, r1) && LeftmostLongestAt(text, s2, r2)
    ensures s1 == s2
  {
    assert text[s1] == r1[0] && text[s2] == r2[0];
    assert r1[0] == 'v' ==> text[s1 + 1] == r1[1];
    assert r2[0] == 'v' ==> text[s2 + 1] == r2[1];
  }

  /** After its optional `v`, such a piece is the whole run of version
      characters there. */
  lemma VersionRun(text: string, s: nat, r: string)
    requires LeftmostLongestAt(text, s, r)
    ensures var off := if r[0] == 'v' then 1 else 0;
      s + off <= |text| && |r| == off + RunLength(text, s + off)
  {
    var off := if r[0] == 'v' then 1 else 0;
    assert forall k | s + off <= k < s + |r| :: text[k] == r[k - s];
    RunLengthExact(text, s + off, |r| - off);
  }
}
