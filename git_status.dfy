/** The text handling of the git part of the health check: the branch name is
    the trimmed output of `git branch --show-current`, and the number of
    uncommitted changes is the number of lines of the trimmed output of
    `git status --porcelain`. */
module GitStatus {
  import Seqs

  /** The characters Python's `str.strip()` removes: the ASCII controls
      U+0009..U+000D and U+001C..U+001F, the space, and the Unicode
      separators U+0085, U+00A0, U+1680, U+2000..U+200A, U+2028, U+2029,
      U+202F, U+205F and U+3000. */
  predicate IsSpace(c: char) {
    ('\U{0009}' <= c <= '\U{000D}') || ('\U{001C}' <= c <= '\U{0020}')
    || c == '\U{0085}' || c == '\U{00A0}' || c == '\U{1680}'
    || ('\U{2000}' <= c <= '\U{200A}') || c == '\U{2028}' || c == '\U{2029}'
    || c == '\U{202F}' || c == '\U{205F}' || c == '\U{3000}'
  }

  predicate HasNonSpace(s: string) {
    exists k | 0 <= k < |s| :: !IsSpace(s[k])
  }

  /** The number of leading whitespace characters. */
  function Lead(s: string): (n: nat)
    ensures n <= |s|
    ensures forall k | 0 <= k < n :: IsSpace(s[k])
    ensures n < |s| ==> !IsSpace(s[n])
  {
    if s != [] && IsSpace(s[0]) then 1 + Lead(s[1..]) else 0
  }

  /** The number of trailing whitespace characters. */
  function Trail(s: string): (n: nat)
    ensures n <= |s|
    ensures forall k | |s| - n <= k < |s| :: IsSpace(s[k])
    ensures n < |s| ==> !IsSpace(s[|s| - n - 1])
  {
    if s != [] && IsSpace(s[|s| - 1]) then 1 + Trail(s[..|s| - 1]) else 0
  }

  /** `str.strip()`: the text without its leading and trailing whitespace. */
  function Strip(s: string): (r: string)
    ensures r == [] <==> !HasNonSpace(s)
    ensures r != [] ==> !IsSpace(r[0]) && !IsSpace(r[|r| - 1])
  {
    var i := Lead(s);
    if i == |s| then [] else s[i..|s| - Trail(s)]
  }

  /** What `Strip` keeps: the piece after the leading whitespace, followed
      only by whitespace. */
  lemma StripSlice(s: string)
    ensures Lead(s) + |Strip(s)| <= |s| && Strip(s) == s[Lead(s)..Lead(s) + |Strip(s)|]
    ensures forall k | Lead(s) + |Strip(s)| <= k < |s| :: IsSpace(s[k])
  {
  }

  function CountNewlines(s: string): nat {
    if s == [] then 0 else (if s[0] == '\n' then 1 else 0) + CountNewlines(s[1..])
  }

  /** `str.split('\n')`: the pieces between newlines; the empty text is one
      empty piece. */
  function SplitLines(s: string): (r: seq<string>)
    ensures |r| >= 1
    ensures forall k | 0 <= k < |r| :: '\n' !in r[k]
  {
    if s == [] then [[]]
    else if s[0] == '\n' then [[]] + SplitLines(s[1..])
    else
      var rest := SplitLines(s[1..]);
      [[s[0]] + rest[0]] + rest[1..]
  }

  /** `'\n'.join(pieces)`. */
  function JoinLines(ls: seq<string>): string
    requires |ls| >= 1
  {
    if |ls| == 1 then ls[0] else ls[0] + "\n" + JoinLines(ls[1..])
  }

  /** The branch name reported by the health check. */
  function BranchName(branchOutput: string): string {
    Strip(branchOutput)
  }

  /** The uncommitted-change count: no lines when the trimmed output is empty,
      else the number of pieces the trimmed output splits into. */
  function Uncommitted(statusOutput: string): nat {
    var t := Strip(statusOutput);
    if t == [] then 0 else |SplitLines(t)|
  }

  // ---------------------------------------------------------------- lemmas

  lemma {:induction false} CountNewlinesAppend(a: string, b: string)
    ensures CountNewlines(a + b) == CountNewlines(a) + CountNewlines(b)
    decreases |a|
  {
    if a == [] {
      assert a + b == b;
    } else {
      assert (a + b)[0] == a[0] && (a + b)[1..] == a[1..] + b;
      CountNewlinesAppend(a[1..], b);
    }
  }

  lemma {:induction false} CountNewlinesNone(s: string)
    requires '\n' !in s
    ensures CountNewlines(s) == 0
    decreases |s|
  {
    if s != [] {
      assert s[0] != '\n' && '\n' !in s[1..];
      CountNewlinesNone(s[1..]);
    }
  }

  /** Joining the pieces gives the text back. */
  lemma {:induction false} JoinSplitLines(s: string)
    ensures JoinLines(SplitLines(s)) == s
    decreases |s|
  {
    if s != [] {
      JoinSplitLines(s[1..]);
      var rest := SplitLines(s[1..]);
      if s[0] == '\n' {
        assert ([[]] + rest)[1..] == rest;
        assert s == [] + "\n" + s[1..];
      } else {
        var r := [[s[0]] + rest[0]] + rest[1..];
        assert r[1..] == rest[1..];
        if |rest| == 1 {
          assert s == [s[0]] + rest[0];
        } else {
          assert rest == [rest[0]] + rest[1..];
          assert JoinLines(rest) == rest[0] + "\n" + JoinLines(rest[1..]);
          assert s == ([s[0]] + rest[0]) + "\n" + JoinLines(rest[1..]);
        }
      }
    }
  }

  /** There is one piece more than there are newlines. */
  lemma {:induction false} SplitLinesCount(s: string)
    ensures |SplitLines(s)| == CountNewlines(s) + 1
    decreases |s|
  {
    if s != [] {
      SplitLinesCount(s[1..]);
    }
  }

  /** Splitting a join of newline-free pieces gives the pieces back. */
  lemma {:induction false} SplitJoinLines(ls: seq<string>)
    requires |ls| >= 1
    requires forall k | 0 <= k < |ls| :: '\n' !in ls[k]
    ensures SplitLines(JoinLines(ls)) == ls
    decreases |ls|
  {
    if |ls| == 1 {
      SplitPlain(ls[0], []);
      Seqs.AppendEmpty(ls[0]);
      assert SplitLines([]) == [[]];
      assert [ls[0]] == ls;
    } else {
      var t := JoinLines(ls[1..]);
      SplitJoinLines(ls[1..]);
      assert ("\n" + t)[1..] == t;
      assert SplitLines("\n" + t) == [[]] + ls[1..];
      SplitPlain(ls[0], "\n" + t);
      assert ls[0] + "\n" + t == ls[0] + ("\n" + t);
      Seqs.AppendEmpty(ls[0]);
      assert [ls[0]] + ls[1..] == ls;
    }
  }

  /** A newline-free head joins the first piece. */
  lemma {:induction false} SplitPlain(p: string, t: string)
    requires '\n' !in p
    ensures SplitLines(p + t) == [p + SplitLines(t)[0]] + SplitLines(t)[1..]
    decreases |p|
  {
    if p == [] {
      assert p + t == t;
      assert p + SplitLines(t)[0] == SplitLines(t)[0];
      assert SplitLines(t) == [SplitLines(t)[0]] + SplitLines(t)[1..];
    } else {
      assert (p + t)[0] == p[0] && (p + t)[1..] == p[1..] + t;
      assert '\n' !in p[1..];
      SplitPlain(p[1..], t);
      var rest := SplitLines(p[1..] + t);
      assert rest[0] == p[1..] + SplitLines(t)[0];
      assert [p[0]] + (p[1..] + SplitLines(t)[0]) == p + SplitLines(t)[0];
    }
  }

  /** No change is counted exactly when the output is blank. */
  lemma UncommittedZeroIff(statusOutput: string)
    ensures Uncommitted(statusOutput) == 0 <==> !HasNonSpace(statusOutput)
  {
  }

  /** Otherwise the count is one more than the newlines between the first and
      the last non-blank character. */
  lemma UncommittedNewlines(statusOutput: string)
    requires HasNonSpace(statusOutput)
    ensures Uncommitted(statusOutput) == CountNewlines(Strip(statusOutput)) + 1
  {
    SplitLinesCount(Strip(statusOutput));
  }

  /** The porcelain listing: one line per changed path, each ended by a
      newline. */
  function Terminated(ls: seq<string>): string {
    if ls == [] then [] else ls[0] + "\n" + Terminated(ls[1..])
  }

  lemma {:induction false} TerminatedNewlines(ls: seq<string>)
    requires forall k | 0 <= k < |ls| :: '\n' !in ls[k]
    ensures CountNewlines(Terminated(ls)) == |ls|
    decreases |ls|
  {
    if ls != [] {
      TerminatedNewlines(ls[1..]);
      CountNewlinesNone(ls[0]);
      CountNewlinesAppend(ls[0], "\n");
      CountNewlinesAppend(ls[0] + "\n", Terminated(ls[1..]));
    }
  }

  lemma {:induction false} TerminatedSnoc(ls: seq<string>)
    requires ls != []
    ensures Terminated(ls) == Terminated(ls[..|ls| - 1]) + (ls[|ls| - 1] + "\n")
    decreases |ls|
  {
    if |ls| == 1 {
      assert Terminated(ls[1..]) == [];
      assert Terminated(ls[..0]) == [];
    } else {
      var tl := ls[1..];
      TerminatedSnoc(tl);
      var init := ls[..|ls| - 1];
      assert init[0] == ls[0] && init[1..] == tl[..|tl| - 1];
      assert tl[|tl| - 1] == ls[|ls| - 1];
      var a, b, c := ls[0] + "\n", Terminated(tl[..|tl| - 1]), ls[|ls| - 1] + "\n";
      assert Terminated(ls) == a + (b + c);
      assert Terminated(init) == a + b;
      Seqs.Assoc(a, b, c);
    }
  }

  /** Leading whitespace stops inside a first line that holds a non-blank
      character, so it holds no newline. */
  lemma StripHead(t: string, first: string, rest: string)
    requires t == first + rest
    requires '\n' !in first && HasNonSpace(first)
    ensures Lead(t) < |first|
    ensures CountNewlines(t[..Lead(t)]) == 0
  {
    var p :| 0 <= p < |first| && !IsSpace(first[p]);
    assert t[p] == first[p];
    var i := Lead(t);
    assert t[..i] == first[..i];
    assert '\n' !in first[..i];
    CountNewlinesNone(first[..i]);
  }

  /** Trailing whitespace stops inside a last line that holds a non-blank
      character. */
  lemma StripTailBounds(t: string, init: string, last: string)
    requires t == init + (last + "\n")
    requires '\n' !in last && HasNonSpace(last)
    ensures |init| < Lead(t) + |Strip(t)| < |t|
  {
    var q :| 0 <= q < |last| && !IsSpace(last[q]);
    assert t[|init| + q] == last[q];
    assert HasNonSpace(t);
    StripSlice(t);
    var r := Strip(t);
    var j := Lead(t) + |r|;
    assert t[j - 1] == r[|r| - 1];
    assert !IsSpace(t[|init| + q]) && !IsSpace(t[j - 1]);
    assert IsSpace(t[|t| - 1]);
  }

  /** A suffix that starts inside the last line holds only its newline. */
  lemma LastLineNewlines(t: string, init: string, last: string, j: nat)
    requires t == init + (last + "\n")
    requires '\n' !in last && |init| < j < |t|
    ensures CountNewlines(t[j..]) == 1
  {
    var l := last + "\n";
    var tail := last[j - |init|..];
    assert t[j..] == l[j - |init|..];
    assert l[j - |init|..] == tail + "\n";
    assert '\n' !in tail;
    CountNewlinesNone(tail);
    CountNewlinesAppend(tail, "\n");
    assert CountNewlines("\n") == 1 by {
      assert "\n"[1..] == [];
    }
  }

  /** The newlines of a text are those stripped from its front, those kept
      and those stripped from its back. */
  lemma StripNewlines(t: string, j: nat)
    requires j == Lead(t) + |Strip(t)| <= |t|
    ensures CountNewlines(t) == CountNewlines(t[..Lead(t)]) + CountNewlines(Strip(t)) + CountNewlines(t[j..])
  {
    StripSlice(t);
    var r := Strip(t);
    var i := Lead(t);
    Seqs.Split3(t, i, j);
    CountNewlinesAppend(t[..i], r);
    CountNewlinesAppend(t[..i] + r, t[j..]);
  }

  /** The count is the number of listed paths: for a listing of lines that
      each hold a non-blank character and no newline, it is the number of
      lines. */
  lemma UncommittedCountsLines(ls: seq<string>)
    requires |ls| >= 1
    requires forall k | 0 <= k < |ls| :: '\n' !in ls[k] && HasNonSpace(ls[k])
    ensures Uncommitted(Terminated(ls)) == |ls|
  {
    ListingStripped(ls);
    UncommittedNewlines(Terminated(ls));
  }

  /** Stripping the listing keeps the newlines between its lines and drops
      just the last one. */
  lemma ListingStripped(ls: seq<string>)
    requires |ls| >= 1
    requires forall k | 0 <= k < |ls| :: '\n' !in ls[k] && HasNonSpace(ls[k])
    ensures HasNonSpace(Terminated(ls))
    ensures CountNewlines(Strip(Terminated(ls))) == |ls| - 1
  {
    var t := Terminated(ls);
    var first, last := ls[0], ls[|ls| - 1];
    assert '\n' !in first && HasNonSpace(first);
    assert '\n' !in last && HasNonSpace(last);
    Seqs.Assoc(first, "\n", Terminated(ls[1..]));
    StripHead(t, first, "\n" + Terminated(ls[1..]));
    TerminatedSnoc(ls);
    var init := Terminated(ls[..|ls| - 1]);
    StripTailBounds(t, init, last);
    var j := Lead(t) + |Strip(t)|;
    LastLineNewlines(t, init, last, j);
    TerminatedNewlines(ls);
    StrippedCount(t, |ls| - 1, j);
    assert !IsSpace(t[Lead(t)]);
  }

  /** A text with one newline more than it has in its stripped front and
      back keeps the rest. */
  lemma StrippedCount(t: string, n: nat, j: nat)
    requires CountNewlines(t) == n + 1
    requires CountNewlines(t[..Lead(t)]) == 0
    requires j == Lead(t) + |Strip(t)| <= |t| && CountNewlines(t[j..]) == 1
    ensures CountNewlines(Strip(t)) == n
  {
    StripNewlines(t, j);
  }
}
