/** The command lines the tracker wrappers hand to the `bd` tool: every
    wrapper that reads JSON back runs `bd --sandbox <args> --json`, and the
    list, create and update wrappers turn their options into flags in a
    fixed order. Each builder is paired with a parser that reads the options
    back. */
module BdArgs {
  import opened Wrappers
  import Seqs

  // ------------------------------------------------------------ decimals

  predicate IsDigit(c: char) {
    '0' <= c <= '9'
  }

  predicate AllDigits(s: string) {
    forall k | 0 <= k < |s| :: IsDigit(s[k])
  }

  function DigitChar(d: nat): (c: char)
    requires d < 10
    ensures IsDigit(c) && c as int - '0' as int == d
  {
    ('0' as int + d) as char
  }

  /** The decimal digits of `n`, without leading zeros. */
  function NatToDecimal(n: nat): (s: string)
    ensures |s| >= 1 && AllDigits(s)
    ensures |s| > 1 ==> s[0] != '0'
    decreases n
  {
    if n < 10 then [DigitChar(n)] else NatToDecimal(n / 10) + [DigitChar(n % 10)]
  }

  /** `str(n)` of an integer: its digits, after a minus sign when negative. */
  function IntToDecimal(n: int): (s: string)
    ensures |s| >= 1
    ensures s[0] == '-' <==> n < 0
  {
    if n < 0 then "-" + NatToDecimal(-n) else NatToDecimal(n)
  }

  /** The value of a string of digits. */
  function DigitsValue(s: string): nat
    requires AllDigits(s)
  {
    if s == [] then 0 else DigitsValue(s[..|s| - 1]) * 10 + (s[|s| - 1] as int - '0' as int)
  }

  /** Reads an integer written as `str` writes one. */
  function ParseInt(s: string): Option<int> {
    if |s| >= 2 && s[0] == '-' && AllDigits(s[1..]) then Some(-(DigitsValue(s[1..]) as int))
    else if |s| >= 1 && AllDigits(s) then Some(DigitsValue(s))
    else None
  }

  lemma {:induction false} NatToDecimalValue(n: nat)
    ensures DigitsValue(NatToDecimal(n)) == n
    decreases n
  {
    if n >= 10 {
      NatToDecimalValue(n / 10);
      var s := NatToDecimal(n);
      assert s[..|s| - 1] == NatToDecimal(n / 10);
    }
  }

  /** Reading back what `str` wrote gives the number. */
  lemma DecimalRoundTrip(n: int)
    ensures ParseInt(IntToDecimal(n)) == Some(n)
  {
    if n < 0 {
      var d := NatToDecimal(-n);
      NatToDecimalValue(-n);
      ParseNegative(d);
      assert IntToDecimal(n) == "-" + d;
      assert -(DigitsValue(d) as int) == n;
    } else {
      var d := NatToDecimal(n);
      NatToDecimalValue(n);
      ParseDigits(d);
      assert IntToDecimal(n) == d;
    }
  }

  lemma ParseNegative(d: string)
    requires |d| >= 1 && AllDigits(d)
    ensures ParseInt("-" + d) == Some(-(DigitsValue(d) as int))
  {
    assert ("-" + d)[1..] == d;
  }

  lemma ParseDigits(d: string)
    requires |d| >= 1 && AllDigits(d)
    ensures ParseInt(d) == Some(DigitsValue(d))
  {
    assert IsDigit(d[0]);
  }

  // ------------------------------------------------------- command lines

  /** The full command line for wrapper arguments `args`. */
  function BdArgv(args: seq<string>): (argv: seq<string>)
    ensures |argv| == |args| + 3
  {
    ["bd", "--sandbox"] + args + ["--json"]
  }

  /** The wrapper arguments of a command line, when it is one. */
  function WrapperArgs(argv: seq<string>): Option<seq<string>> {
    if |argv| >= 3 && argv[0] == "bd" && argv[1] == "--sandbox" && argv[|argv| - 1] == "--json"
    then Some(argv[2..|argv| - 1])
    else None
  }

  lemma WrapperArgsRoundTrip(args: seq<string>)
    ensures WrapperArgs(BdArgv(args)) == Some(args)
  {
    var argv := BdArgv(args);
    assert argv[2..|argv| - 1] == args;
  }

  /** A flag and its value, or nothing when the option is absent. */
  function Flag(flag: string, value: Option<string>): seq<string> {
    if value.Some? then [flag, value.value] else []
  }

  /** Reads an optional flag and its value off the front. */
  function TakeFlag(args: seq<string>, flag: string): (Option<string>, seq<string>) {
    if |args| >= 2 && args[0] == flag then (Some(args[1]), args[2..]) else (None, args)
  }

  lemma TakeFlagOf(flag: string, value: Option<string>, rest: seq<string>)
    requires value.None? ==> rest == [] || rest[0] != flag
    ensures TakeFlag(Flag(flag, value) + rest, flag) == (value, rest)
  {
    if value.Some? {
      assert (Flag(flag, value) + rest)[2..] == rest;
    } else {
      assert Flag(flag, value) + rest == rest;
    }
  }

  function DecimalOption(n: Option<int>): Option<string> {
    if n.Some? then Some(IntToDecimal(n.value)) else None
  }

  function ParseIntOption(t: Option<string>): Option<Option<int>> {
    if t.None? then Some(None)
    else if ParseInt(t.value).Some? then Some(Some(ParseInt(t.value).value))
    else None
  }

  lemma ParseDecimalOption(n: Option<int>)
    ensures ParseIntOption(DecimalOption(n)) == Some(n)
  {
    if n.Some? {
      DecimalRoundTrip(n.value);
    }
  }

  // ---------------------------------------------------------------- list

  datatype ListQuery = ListQuery(status: Option<string>, limit: Option<int>)

  /** The options the list wrapper passes on: only a non-empty status and a
      non-zero limit count. */
  function Forwarded(q: ListQuery): ListQuery {
    ListQuery(
      if q.status.Some? && q.status.value != "" then q.status else None,
      if q.limit.Some? && q.limit.value != 0 then q.limit else None)
  }

  function BdListArgs(q: ListQuery): seq<string> {
    var f := Forwarded(q);
    ["list"] + (Flag("--status", f.status) + Flag("--limit", DecimalOption(f.limit)))
  }

  function ParseListArgs(args: seq<string>): Option<ListQuery> {
    if args == [] || args[0] != "list" then None
    else
      var (status, r1) := TakeFlag(args[1..], "--status");
      var (limit, r2) := TakeFlag(r1, "--limit");
      var n := ParseIntOption(limit);
      if r2 != [] || n.None? then None else Some(ListQuery(status, n.value))
  }

  /** The list command line says exactly which options were forwarded. */
  lemma ListArgsRoundTrip(q: ListQuery)
    ensures ParseListArgs(BdListArgs(q)) == Some(Forwarded(q))
  {
    var f := Forwarded(q);
    var tail := Flag("--limit", DecimalOption(f.limit));
    var args := BdListArgs(q);
    assert args[1..] == Flag("--status", f.status) + tail;
    TakeFlagOf("--status", f.status, tail);
    TakeFlagOf("--limit", DecimalOption(f.limit), []);
    Seqs.AppendEmpty(tail);
    ParseDecimalOption(f.limit);
  }

  // -------------------------------------------------------------- create

  datatype CreateRequest = CreateRequest(
    title: string,
    issueType: Option<string>,
    priority: Option<int>,
    parent: Option<string>,
    description: Option<string>)

  /** `--parent <id> --force`, or nothing. */
  function ParentFlags(parent: Option<string>): seq<string> {
    if parent.Some? then ["--parent", parent.value, "--force"] else []
  }

  function TakeParent(args: seq<string>): (Option<string>, seq<string>) {
    if |args| >= 3 && args[0] == "--parent" && args[2] == "--force" then (Some(args[1]), args[3..])
    else (None, args)
  }

  function BdCreateArgs(c: CreateRequest): seq<string> {
    ["create", c.title]
    + (Flag("-t", c.issueType)
    + (Flag("-p", DecimalOption(c.priority))
    + (ParentFlags(c.parent)
    + Flag("--description", c.description))))
  }

  function ParseCreateArgs(args: seq<string>): Option<CreateRequest> {
    if |args| < 2 || args[0] != "create" then None
    else
      var (issueType, r1) := TakeFlag(args[2..], "-t");
      var (priority, r2) := TakeFlag(r1, "-p");
      var (parent, r3) := TakeParent(r2);
      var (description, r4) := TakeFlag(r3, "--description");
      var n := ParseIntOption(priority);
      if r4 != [] || n.None? then None
      else Some(CreateRequest(args[1], issueType, n.value, parent, description))
  }

  /** The create command line carries the title and every given option. */
  lemma CreateArgsRoundTrip(c: CreateRequest)
    ensures ParseCreateArgs(BdCreateArgs(c)) == Some(c)
  {
    var d := Flag("--description", c.description);
    var r3 := ParentFlags(c.parent) + d;
    var r2 := Flag("-p", DecimalOption(c.priority)) + r3;
    var r1 := Flag("-t", c.issueType) + r2;
    var args := BdCreateArgs(c);
    assert args[2..] == r1;
    TakeFlagOf("-t", c.issueType, r2);
    TakeFlagOf("-p", DecimalOption(c.priority), r3);
    TakeParentOf(c.parent, d);
    TakeFlagOf("--description", c.description, []);
    Seqs.AppendEmpty(d);
    ParseDecimalOption(c.priority);
  }

  lemma TakeParentOf(parent: Option<string>, rest: seq<string>)
    requires parent.None? ==> rest == [] || rest[0] != "--parent"
    ensures TakeParent(ParentFlags(parent) + rest) == (parent, rest)
  {
    if parent.Some? {
      assert (ParentFlags(parent) + rest)[3..] == rest;
    } else {
      assert ParentFlags(parent) + rest == rest;
    }
  }

  // -------------------------------------------------------------- update

  datatype UpdateRequest = UpdateRequest(
    id: string,
    status: Option<string>,
    notes: Option<string>,
    description: Option<string>)

  function BdUpdateArgs(u: UpdateRequest): seq<string> {
    ["update", u.id]
    + (Flag("--status", u.status)
    + (Flag("--notes", u.notes)
    + Flag("--description", u.description)))
  }

  function ParseUpdateArgs(args: seq<string>): Option<UpdateRequest> {
    if |args| < 2 || args[0] != "update" then None
    else
      var (status, r1) := TakeFlag(args[2..], "--status");
      var (notes, r2) := TakeFlag(r1, "--notes");
      var (description, r3) := TakeFlag(r2, "--description");
      if r3 != [] then None else Some(UpdateRequest(args[1], status, notes, description))
  }

  /** The update command line carries the id and every given field. */
  lemma UpdateArgsRoundTrip(u: UpdateRequest)
    ensures ParseUpdateArgs(BdUpdateArgs(u)) == Some(u)
  {
    var d := Flag("--description", u.description);
    var r2 := Flag("--notes", u.notes) + d;
    var r1 := Flag("--status", u.status) + r2;
    var args := BdUpdateArgs(u);
    assert args[2..] == r1;
    TakeFlagOf("--status", u.status, r2);
    TakeFlagOf("--notes", u.notes, d);
    TakeFlagOf("--description", u.description, []);
    Seqs.AppendEmpty(d);
  }
}
