# Workflow library core, modelled in Dafny

This project is a model of the core of the workflow library `_claude/lib/workflow.py`. That library is a Python command-line helper that drives the `bd` ("Beads") issue tracker. The model covers these pieces:

- **JSON repair of tracker output** (`json_escape.dfy`, `json_repair.dfy`):
  - `bd` can print JSON whose string values hold raw control characters. The library rescans the text and re-escapes the content of every string with Python's `json.dumps`.
  - The escaper is modelled character by character. Its inverse is a strict JSON string decoder. It reads the escapes of section 7 of RFC 8259, and it also rejects unpaired surrogate escapes, which that grammar admits.
  - The character-by-character scanner (`in_string` / `escaped` / `current_string`) is modelled as a method with a loop. It is proved equal to a reference definition: split the text into string tokens and other characters, then re-escape the string bodies.
- **Prefix derivation and the initialisation check** (`prefix.dfy`):
  - The tracker prefix is derived from the project directory name.
  - `init` checks a given or derived prefix.
- **The health check** (`health.dfy`):
  - It probes the tools, the `.beads` directory, a trial list and the git state.
  - It computes the overall verdict and the exit code of `health`.
- **The version probe** (`version_probe.dfy`): `check_command`, and the leftmost match of `v?[\d.]+`.
- **The git state** (`git_status.dfy`): the stripped branch name and the uncommitted-change count, which is the number of lines of `git status --porcelain`.
- **The steering queries** (`steering.dfy`): the blocked issues that wait on a given issue.
- **The `bd` command lines** (`bd_args.dfy`):
  - Every wrapper that reads JSON back (through `bd_json`) runs `bd --sandbox <args> --json`.
  - The list, create and update wrappers turn their options into flags.
  - Each builder is paired with a parser that reads the options back.

Effects become values:
- The outcomes of subprocesses are parameters: a tool that cannot be started, or the output of one that ran.
- Filesystem tests are parameters too.
- The parsed outcome of the trial list is a parameter.

Three behaviours of the code are easy to get wrong, and the model follows the code in each:
- The health verdict is not the worst of the individual findings. Each later finding overwrites the earlier ones. A failed trial list therefore turns a "critical" verdict caused by a missing `git` into "degraded" (`Health.ListFailureReplacesCritical`). With `bd` missing, the trial call itself raises `FileNotFoundError` in the code. The lemma's missing-`bd` case exists only in the model, which takes the trial outcome as an input of its own.
- The repair re-escapes what was already escaped. An escaped quote `\"` inside a string becomes `\\\"`. The repair is the identity only on strings with no backslash and nothing outside printable ASCII.
- The repair is not idempotent (`JsonRepair.RepairNotIdempotent`, `JsonRepair.RepairTwiceIff`).

## Model

| member | source | states |
|---|---|---|
| JsonEscape.EscapeChar | _claude/lib/workflow.py:26-35 | each character's `json.dumps` escape: a printable ASCII character other than quote and backslash stays itself, everything else starts with a backslash; the escape is printable ASCII |
| JsonEscape.Escape | _claude/lib/workflow.py:26-35 | the escaped content is printable ASCII and at least as long as the original |
| JsonEscape.SanitizeJsonString | _claude/lib/workflow.py:26-35 | dropping the surrounding quotes of `json.dumps(s)` leaves exactly the escaped content of `s` |
| JsonEscape.Dumps | _claude/lib/workflow.py:26-35 | `json.dumps` of a string starts and ends with a quote |
| JsonEscape.EscapeAppend | _claude/lib/workflow.py:26-35 | escaping works piecewise: escaping `s + t` is escaping `s`, then `t` |
| JsonEscape.Unescape | _claude/lib/workflow.py:26-35 | the inverse of the escaper, defined independently of it: a strict decoder of JSON string contents; `JsonEscape.UnescapeEscape` proves it reads every escape back |
| JsonEscape.UnescapeEscape | _claude/lib/workflow.py:26-35 | a strict JSON string decoder (the escapes of RFC 8259 section 7, refusing unpaired surrogate escapes) reads every escaped string back to the original, surrogate pairs included |
| JsonEscape.EscapeIdentityIff | _claude/lib/workflow.py:26-35 | escaping leaves a string unchanged exactly when every character is printable ASCII other than quote and backslash |
| JsonEscape.EscapeLengthGrows | _claude/lib/workflow.py:26-35 | a string with any other character grows strictly when escaped |
| JsonEscape.EscapeIdempotentIff | _claude/lib/workflow.py:26-35 | escaping twice equals escaping once exactly when escaping changes nothing |
| JsonEscape.EscapePreEscapedQuote | _claude/lib/workflow.py:26-35 | content that already holds an escaped quote `\"` is escaped again, to `\\\"` |
| JsonRepair.Step | _claude/lib/workflow.py:55-71 | one pass of the loop body over the `in_string` / `escaped` / `current_string` state, for any encoder; `JsonRepair.EscapedIffOddBackslashes` and `JsonRepair.RunClosedString` state what its iteration does to the flags and to a string |
| JsonRepair.Run | _claude/lib/workflow.py:55-73 | the loop as a fold of `Step`; `JsonRepair.SanitizeJson` is proved to compute it after every prefix, and `JsonRepair.ScanIsRepaired` proves its output equals `JsonRepair.Repaired` |
| JsonRepair.Lex | _claude/lib/workflow.py:38-73 | the reference lexer of the repair: strings up to the closing quote, an unterminated tail, other characters; `JsonRepair.LexSource` proves it loses and invents nothing |
| JsonRepair.Repaired | _claude/lib/workflow.py:38-73 | the reference repair, the tokens of `Lex` written back with every string body escaped; the lemmas below state what it keeps, changes and drops |
| JsonRepair.SanitizeJson | _claude/lib/workflow.py:38-73 | the scanner loop returns the reference repair: lex the text into strings, unterminated tails and other characters, then write the strings back with re-escaped bodies |
| JsonRepair.CloseQuote | _claude/lib/workflow.py:38-73 | the lexer's closing quote is a quote character inside the text; `JsonRepair.RunClosedString` shows that the scanner, fed the same text inside a string, closes the string at exactly that quote |
| JsonRepair.LexFront | _claude/lib/workflow.py:38-73 | one lexing step consumes input and loses none of it; a string token holds no earlier closing quote; an unterminated string ends the text |
| JsonRepair.EscapedIffOddBackslashes | _claude/lib/workflow.py:55-71 | after any prefix, the scanner's `escaped` flag is set exactly when that prefix ends in an odd number of backslashes, whatever encoder re-escapes the strings |
| JsonRepair.LexSource | _claude/lib/workflow.py:38-73 | the tokens concatenate back to the text: lexing loses and invents nothing |
| JsonRepair.UnterminatedOnlyLast | _claude/lib/workflow.py:55-73 | an unterminated string can only be the last token; its content is dropped from the output |
| JsonRepair.RepairedPlain | _claude/lib/workflow.py:68-69 | a character outside a string is copied unchanged |
| JsonRepair.RepairedString | _claude/lib/workflow.py:56-63 | a closed string is written back as a quote, its escaped body and a quote, and scanning goes on after it |
| JsonRepair.RepairedUnterminated | _claude/lib/workflow.py:55-73 | text that opens a string and never closes it repairs to nothing from the opening quote on |
| JsonRepair.LexRepaired | _claude/lib/workflow.py:38-73 | the repaired text lexes into the same tokens with every string body escaped, so the string boundaries are kept |
| JsonRepair.OutsideCharactersKept | _claude/lib/workflow.py:38-73 | every character outside the strings is kept, in order |
| JsonRepair.StringsDecodeToRawContent | _claude/lib/workflow.py:38-73 | the repaired text has as many strings as the original; each repaired body is printable ASCII and JSON-decodes to the raw content between the original quotes |
| JsonRepair.RepairIdentity | _claude/lib/workflow.py:38-73 | text whose string bodies are all printable ASCII without backslashes, and with no unterminated string, is left unchanged |
| JsonRepair.RepairQuoted | _claude/lib/workflow.py:38-73 | a single quoted string repairs to the quoted escape of its body |
| JsonRepair.RepairTwiceIff | _claude/lib/workflow.py:38-73 | repairing twice escapes a string body twice, and equals repairing once exactly when the body needs no escaping |
| JsonRepair.RepairNotIdempotent | _claude/lib/workflow.py:38-73 | a string holding a raw newline repairs differently the second time, so the repair is not idempotent |
| BdArgs.WrapperArgsRoundTrip | _claude/lib/workflow.py:98-117 | the command line `bd --sandbox <args> --json` gives back exactly the wrapper's arguments |
| BdArgs.BdArgv | _claude/lib/workflow.py:98-117 | the command line of a JSON-reading wrapper is three words longer than its arguments; `BdArgs.WrapperArgsRoundTrip` reads the arguments back |
| BdArgs.IntToDecimal | _claude/lib/workflow.py:159 | `str` of an integer is non-empty and starts with a minus sign exactly when the integer is negative; `BdArgs.DecimalRoundTrip` reads it back |
| BdArgs.DecimalRoundTrip | _claude/lib/workflow.py:158-159 | the `str` of an integer reads back as that integer |
| BdArgs.BdListArgs | _claude/lib/workflow.py:155-159 | the list wrapper's arguments; `BdArgs.ListArgsRoundTrip` proves they carry exactly the non-empty status and the non-zero limit |
| BdArgs.ListArgsRoundTrip | _claude/lib/workflow.py:145-160 | the list command line records a status exactly when it is non-empty and a limit exactly when it is non-zero, each with its value |
| BdArgs.BdCreateArgs | _claude/lib/workflow.py:200-208 | the create wrapper's arguments; `BdArgs.CreateArgsRoundTrip` proves they carry every field of the request |
| BdArgs.CreateArgsRoundTrip | _claude/lib/workflow.py:181-209 | the create command line gives back the title, the type, the priority, the parent (with `--force`) and the description |
| BdArgs.BdUpdateArgs | _claude/lib/workflow.py:225-231 | the update wrapper's arguments; `BdArgs.UpdateArgsRoundTrip` proves they carry every field of the request |
| BdArgs.UpdateArgsRoundTrip | _claude/lib/workflow.py:212-232 | the update command line gives back the id, status, notes and description |
| VersionProbe.RunLength | _claude/lib/workflow.py:295 | the repetition `[\d.]+` runs as far as version characters go |
| VersionProbe.Search | _claude/lib/workflow.py:295 | the search returns the leftmost position where the pattern matches |
| VersionProbe.CheckCommand | _claude/lib/workflow.py:284-298 | a tool counts as found exactly when it could be started; one that could not shows `not found` |
| VersionProbe.SearchFindsVersionChar | _claude/lib/workflow.py:295 | there is a match exactly when a digit or a dot occurs |
| VersionProbe.ExtractVersion | _claude/lib/workflow.py:295-296 | the version shown for a tool that ran; `VersionProbe.ExtractVersionSpec` and `VersionProbe.LeftmostLongestUnique` characterise it completely |
| VersionProbe.ExtractVersionSpec | _claude/lib/workflow.py:295-296 | standard output is searched, or error output when standard output is empty; the result is `unknown` exactly when that text has no digit and no dot; otherwise it is a version string at the leftmost place one can start, and it cannot be extended |
| VersionProbe.LeftmostLongestUnique | _claude/lib/workflow.py:295 | that description fixes the version string: two pieces meeting it are the same |
| Prefix.Lower | _claude/lib/workflow.py:651 | lower-casing keeps the length and works character by character |
| Prefix.KeepPrefixChars | _claude/lib/workflow.py:651 | removing the characters outside `[a-z0-9]` leaves only lower-case letters and digits, and never lengthens the text |
| Prefix.KeepPrefixCharsIdentityIff | _claude/lib/workflow.py:651 | the removal changes nothing exactly when only letters and digits are present |
| Prefix.KeepPrefixCharsCounts | _claude/lib/workflow.py:651 | each letter or digit keeps its number of occurrences; every other character disappears |
| Prefix.DerivePrefix | _claude/lib/workflow.py:642-652 | the prefix derived from a directory name; `Prefix.DerivePrefixEmptyIff`, `Prefix.DerivePrefixShape` and `Prefix.DerivePrefixIdempotent` characterise it |
| Prefix.DerivePrefixEmptyIff | _claude/lib/workflow.py:652 | the derived prefix is empty exactly when fewer than two letters or digits survive |
| Prefix.DerivePrefixShape | _claude/lib/workflow.py:652 | otherwise it has 3 to 7 characters: the first `min(6, n)` surviving characters and one trailing hyphen |
| Prefix.DerivePrefixIdempotent | _claude/lib/workflow.py:642-652 | deriving a prefix from a derived prefix gives it back |
| Prefix.InitPrefixAsWritten | _claude/lib/workflow.py:709-716 | an accepted prefix is non-empty and ends in a hyphen |
| Prefix.InitPrefixAsWrittenSpec | _claude/lib/workflow.py:709-716 | for every input, the check as written refuses exactly an empty prefix or one longer than 8 characters, naming it; it keeps a prefix ending in a hyphen and appends one to any other; an accepted prefix has 1 to 9 characters |
| Prefix.InitPrefixAsWrittenAcceptsOutOfRange | _claude/lib/workflow.py:711-716 | the check as written accepts `a`, `abcdefgh` (9 characters once a hyphen is added) and `-` |
| Prefix.PrefixBody | _claude/lib/workflow.py:715-716 | removing the trailing hyphen gives the prefix, or the prefix is the body plus one hyphen |
| Prefix.InitPrefix | _claude/lib/workflow.py:709-716 | the check as its refusal message states it; `Prefix.InitPrefixSpec` characterises what it accepts and refuses |
| Prefix.InitPrefixSpec | _claude/lib/workflow.py:709-716 | the corrected check accepts exactly a body of 2 to 7 characters, returns it with one trailing hyphen (3 to 8 characters), and otherwise refuses with the offending prefix |
| Prefix.InitPrefixKeepsDerived | _claude/lib/workflow.py:709-716 | every non-empty derived prefix passes both checks unchanged |
| Steering.IssuesBlockedBy | _claude/lib/workflow.py:404-407 | every issue returned waits on the given id, and the result is no longer than the list |
| Steering.IssuesBlockedByOrdered | _claude/lib/workflow.py:404-407 | the answer keeps the tracker's order: it is a subsequence of the blocked list |
| Steering.IssuesBlockedByCounts | _claude/lib/workflow.py:469-472 | an issue that waits on the id occurs as often as in the list, and any other issue does not occur |
| Steering.IssuesBlockedByMembership | _claude/lib/workflow.py:469-472 | an issue is in the answer exactly when it is in the list and its `blocked_by` names the id |
| Steering.IssuesBlockedByAppend | _claude/lib/workflow.py:404-407 | the query distributes over concatenated lists |
| Steering.IssuesWithoutFieldExcluded | _claude/lib/workflow.py:406 | an issue without a `blocked_by` field is never in the answer |
| GitStatus.Strip | _claude/lib/workflow.py:563-565 | `str.strip()`: empty exactly when the text is all whitespace; otherwise it starts and ends with non-whitespace |
| GitStatus.StripSlice | _claude/lib/workflow.py:563-565 | the stripped text is the piece of the text after its leading whitespace, and only whitespace follows it |
| GitStatus.SplitLines | _claude/lib/workflow.py:565 | `split('\n')` gives at least one piece, and no piece holds a newline |
| GitStatus.JoinSplitLines | _claude/lib/workflow.py:565 | joining the pieces with newlines gives the text back |
| GitStatus.SplitLinesCount | _claude/lib/workflow.py:565 | there is one piece more than there are newlines |
| GitStatus.SplitJoinLines | _claude/lib/workflow.py:565 | splitting newline-joined lines without newlines gives them back |
| GitStatus.BranchName | _claude/lib/workflow.py:563 | the current branch is the stripped output of `git branch --show-current`; `GitStatus.Strip` and `GitStatus.StripSlice` state what stripping keeps |
| GitStatus.Uncommitted | _claude/lib/workflow.py:565 | the number of lines of the stripped porcelain output, or zero when it is blank; the lemmas below count it |
| GitStatus.UncommittedZeroIff | _claude/lib/workflow.py:565 | the count is zero exactly when the porcelain output is blank |
| GitStatus.UncommittedNewlines | _claude/lib/workflow.py:565 | otherwise it is one more than the newlines in the stripped output |
| GitStatus.UncommittedCountsLines | _claude/lib/workflow.py:565 | porcelain output of n non-blank lines, each ended by a newline, counts n changes |
| Health.SeverityName | _claude/lib/workflow.py:513 | the verdict prints as `HEALTHY` exactly when it is healthy |
| Health.GitSectionOf | _claude/lib/workflow.py:558-567 | a repository exactly when git ran and `rev-parse` succeeded; then the stripped branch name and the change count are reported, and otherwise neither |
| Health.EnvironmentOfTools | _claude/lib/workflow.py:517-521 | probing `bd`, `git` and `jq` records an entry for each, and sets the verdict to critical exactly when `bd` or `git` is missing |
| Health.RunHealthCheck | _claude/lib/workflow.py:499-569 | the report's environment has each tool's probe; `.beads` is reported with whether the trial list worked; the git section is as probed; the overall verdict is critical without `.beads`, otherwise degraded after a failed trial list, otherwise critical when `bd` or `git` is missing, and otherwise healthy |
| Health.ExitCode | _claude/lib/workflow.py:673-684 | `health` exits 0 exactly when the verdict is `HEALTHY`, and 1 otherwise |
| Health.Overall | _claude/lib/workflow.py:513-543 | the overall verdict as one decision; `Health.RunHealthCheck` proves the step-by-step check reaches it, and the lemmas below say when each verdict occurs |
| Health.HealthyIff | _claude/lib/workflow.py:508-543 | healthy, and exit code 0, exactly when `bd` and `git` are found, `.beads` exists and the trial list succeeds |
| Health.DegradedIff | _claude/lib/workflow.py:517-543 | degraded exactly when `.beads` exists and the trial list failed |
| Health.ListFailureReplacesCritical | _claude/lib/workflow.py:517-543 | with `git` missing the verdict is critical, but a failed trial list replaces it with degraded; the model also states this for a missing `bd`, whose trial call raises in the code |

## Left out

- Running `bd`, `git` and the probed tools (`subprocess.run`) is not modelled. Their outcomes are parameters: a tool that cannot be started, or its exit status and text output.
- `bd_json`: parsing the repaired text with `json.loads` and raising `BeadsError` on invalid JSON or a failed command are not modelled. The model stops at the repaired text (`JsonRepair.SanitizeJson`) and at the command line (`BdArgs.BdArgv`).
- The other tracker wrappers are left out. They build their command lines from fixed words and their arguments, as the modelled builders do:
  - `bd_ready`, `bd_blocked`, `bd_close` and `bd_stale` go through `bd_json`;
  - `bd_show` also raises `BeadsError` on an empty result, and otherwise returns the first element;
  - `bd_dep_add` and `bd_dep_remove` call `run_bd` without `--json`, and `bd_dep_remove` does not check the exit status.
- `cmd_init` runs `bd init -p <prefix> --quiet` without `--sandbox`. That call is not modelled; only the prefix check before it is (`Prefix.InitPrefixAsWritten`).
- Health.RunHealthCheck: the outcome of the trial `bd list --limit 1` is an input. Two things of the real call are not modelled:
  - with a `.beads` directory but no `bd` executable, the trial call raises `FileNotFoundError`, which the health check does not catch;
  - the model does not tie the trial outcome to the `bd` probe.
- Health.RunHealthCheck: these parts of the health check are not modelled:
  - the `database_exists` and `jsonl_entries` fields, which need the filesystem and a line count of `issues.jsonl`;
  - the issue-count section, which only stores list lengths and does not affect the verdict;
  - the git probe raising `FileNotFoundError` part-way, which is modelled as git being missing from the start.
- Printing the health report, the interactive prompts, argument parsing and the other command handlers are left out. They are I/O around the modelled core.
- JsonEscape.Escape: a Dafny `char` is a Unicode scalar value, so lone surrogates in a Python `str` cannot be represented and are not modelled. Every other character is escaped as `json.dumps` escapes it.
- Prefix.LowerChar: lower-cases ASCII letters only. Python's `str.lower()` also maps a few non-ASCII characters to ASCII letters, such as the Kelvin sign to `k` and `İ` to `i` plus a combining dot. The model drops those characters instead of keeping the letter.
- VersionProbe.ExtractVersion: `\d` is read as the ASCII digits. Python's `re` also matches other Unicode decimal digits.
- Steering.IssuesBlockedBy: an issue whose `blocked_by` field is present but `null` makes the source raise `TypeError`. Only a missing field, read as no blockers, is modelled.
- BdArgs.CreateRequest: the `priority` option is modelled as an integer. The source accepts any value that `str` can print.

## Findings

| source | as written | input that shows it | evidently intended | confidence | as-written member | corrected member |
|---|---|---|---|---|---|---|
| _claude/lib/workflow.py:711-716 | `init` refuses a prefix only when it is empty or longer than 8 characters, then appends a hyphen when none ends it | `--prefix a` gives `a-`; `--prefix abcdefgh` gives the 9-character `abcdefgh-`; `--prefix -` gives `-` | the refusal message asks for 2 to 7 characters and a hyphen, so the body before the hyphen should have 2 to 7 characters | medium, not executed | Prefix.InitPrefixAsWrittenAcceptsOutOfRange | Prefix.InitPrefixSpec |
