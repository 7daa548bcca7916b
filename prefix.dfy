/** The tracker's issue-id prefix: the one derived from the project directory's
    name, and the check the initialisation command applies to a prefix given
    on its command line. */
module Prefix {
  import opened Wrappers
  import Seqs

  /** A character the prefix keeps: `[a-z0-9]`. */
  predicate IsPrefixChar(c: char) {
    'a' <= c <= 'z' || '0' <= c <= '9'
  }

  predicate AllPrefixChars(s: string) {
    forall k | 0 <= k < |s| :: IsPrefixChar(s[k])
  }

  /** Lower-casing on ASCII letters; every other character is left alone. */
  function LowerChar(c: char): (r: char)
    ensures 'A' <= c <= 'Z' ==> 'a' <= r <= 'z' && r as int == c as int + 32
    ensures !('A' <= c <= 'Z') ==> r == c
  {
    if 'A' <= c <= 'Z' then (c as int + 32) as char else c
  }

  function Lower(s: string): (r: string)
    ensures |r| == |s|
    ensures forall k | 0 <= k < |s| :: r[k] == LowerChar(s[k])
  {
    if s == [] then [] else [LowerChar(s[0])] + Lower(s[1..])
  }

  /** Removes every character outside `[a-z0-9]`, keeping the rest in order. */
  function KeepPrefixChars(s: string): (r: string)
    ensures AllPrefixChars(r)
    ensures |r| <= |s|
  {
    if s == [] then []
    else (if IsPrefixChar(s[0]) then [s[0]] else []) + KeepPrefixChars(s[1..])
  }

  /** The letters and digits that survive lower-casing and filtering. */
  function Cleaned(name: string): (r: string)
    ensures AllPrefixChars(r)
  {
    KeepPrefixChars(Lower(name))
  }

  /** At most six surviving characters and a hyphen, or nothing when fewer than
      two survive. */
  function DerivePrefix(name: string): string {
    var clean := Cleaned(name);
    if |clean| >= 2 then clean[..if |clean| < 6 then |clean| else 6] + "-" else ""
  }

  lemma {:induction false} KeepPrefixCharsAppend(a: string, b: string)
    ensures KeepPrefixChars(a + b) == KeepPrefixChars(a) + KeepPrefixChars(b)
    decreases |a|
  {
    if a == [] {
      assert a + b == b;
    } else {
      assert (a + b)[0] == a[0] && (a + b)[1..] == a[1..] + b;
      KeepPrefixCharsAppend(a[1..], b);
      var h := if IsPrefixChar(a[0]) then [a[0]] else [];
      assert h + (KeepPrefixChars(a[1..]) + KeepPrefixChars(b))
          == h + KeepPrefixChars(a[1..]) + KeepPrefixChars(b);
    }
  }

  /** The filter changes nothing exactly when every character is kept. */
  lemma {:induction false} KeepPrefixCharsIdentityIff(s: string)
    ensures KeepPrefixChars(s) == s <==> AllPrefixChars(s)
    decreases |s|
  {
    if s != [] {
      KeepPrefixCharsIdentityIff(s[1..]);
      if AllPrefixChars(s) {
        assert AllPrefixChars(s[1..]) by {
          forall k | 0 <= k < |s| - 1 ensures IsPrefixChar(s[1..][k]) {
            assert s[1..][k] == s[k + 1];
          }
        }
        assert [s[0]] + s[1..] == s;
      }
    }
  }

  /** A character outside `[a-z0-9]` never reaches the output, and every one
      inside does, with its multiplicity. */
  lemma {:induction false} KeepPrefixCharsCounts(s: string, c: char)
    ensures multiset(KeepPrefixChars(s))[c] == if IsPrefixChar(c) then multiset(s)[c] else 0
    decreases |s|
  {
    if s != [] {
      KeepPrefixCharsCounts(s[1..], c);
      assert s == [s[0]] + s[1..];
    }
  }

  /** A name that is already a bare prefix is its own cleaned form. */
  lemma CleanedOfPrefixChars(s: string)
    requires AllPrefixChars(s)
    ensures Cleaned(s) == s
  {
    assert Lower(s) == s;
    KeepPrefixCharsIdentityIff(s);
  }

  /** The `""` case: fewer than two letters or digits survive. */
  lemma DerivePrefixEmptyIff(name: string)
    ensures DerivePrefix(name) == "" <==> |Cleaned(name)| < 2
  {
  }

  /** Otherwise the prefix is the first `min(6, n)` surviving characters and a
      single trailing hyphen: between three and seven characters in all. */
  lemma DerivePrefixShape(name: string)
    requires DerivePrefix(name) != ""
    ensures var r := DerivePrefix(name);
      var n := if |Cleaned(name)| < 6 then |Cleaned(name)| else 6;
      3 <= |r| <= 7 && |r| == n + 1 && r[|r| - 1] == '-'
      && r[..|r| - 1] == Cleaned(name)[..n]
      && AllPrefixChars(r[..|r| - 1])
      && forall k | 0 <= k < |r| - 1 :: r[k] != '-'
  {
    var clean := Cleaned(name);
    var n := if |clean| < 6 then |clean| else 6;
    var r := DerivePrefix(name);
    assert r[..|r| - 1] == clean[..n];
    assert forall k | 0 <= k < n :: r[k] == clean[k];
  }

  /** Deriving a prefix from a derived prefix gives it back. */
  lemma DerivePrefixIdempotent(name: string)
    ensures DerivePrefix(DerivePrefix(name)) == DerivePrefix(name)
  {
    var r := DerivePrefix(name);
    if r != "" {
      DerivePrefixShape(name);
      var body := r[..|r| - 1];
      assert r == body + "-";
      DerivePrefixOfHyphenated(body);
    } else {
      assert Cleaned("") == "";
    }
  }

  /** A bare prefix of two to six characters and its hyphen derive to
      themselves. */
  lemma DerivePrefixOfHyphenated(body: string)
    requires AllPrefixChars(body) && 2 <= |body| <= 6
    ensures DerivePrefix(body + "-") == body + "-"
  {
    CleanedHyphenated(body);
    assert body[..|body|] == body;
  }

  /** A bare prefix followed by its hyphen cleans to the bare prefix. */
  lemma CleanedHyphenated(body: string)
    requires AllPrefixChars(body)
    ensures Cleaned(body + "-") == body
  {
    var r := body + "-";
    assert Lower(r) == r by {
      forall k | 0 <= k < |r| ensures Lower(r)[k] == r[k] {
        if k < |body| {
          assert r[k] == body[k];
        }
      }
    }
    KeepPrefixCharsAppend(body, "-");
    KeepPrefixCharsIdentityIff(body);
    assert KeepPrefixChars("-") == [] by {
      assert "-"[1..] == [];
    }
    Seqs.AppendEmpty(body);
  }

  // ------------------------------------------------ the initialisation check

  /** The initialisation command's prefix, as written: the prefix given on the
      command line, or the derived one when none (or an empty one) is given;
      refused when empty or longer than eight characters; a hyphen appended
      when it does not end in one. */
  function InitPrefixAsWritten(given: Option<string>, projectName: string): (r: Result<string, string>)
    ensures r.Ok? ==> |r.value| > 0 && r.value[|r.value| - 1] == '-'
  {
    var prefix := if given.Some? && given.value != "" then given.value else DerivePrefix(projectName);
    if prefix == "" || |prefix| > 8 then Err(prefix)
    else if prefix[|prefix| - 1] == '-' then Ok(prefix)
    else Ok(prefix + "-")
  }

  /** The check as written, for every input: it refuses exactly an empty
      prefix or one longer than eight characters, reporting that prefix; it
      returns a prefix that ends in a hyphen unchanged and any other with a
      hyphen appended, so an accepted prefix has one to nine characters. */
  lemma InitPrefixAsWrittenSpec(given: Option<string>, projectName: string)
    ensures var prefix := if given.Some? && given.value != "" then given.value else DerivePrefix(projectName);
      var r := InitPrefixAsWritten(given, projectName);
      (r.Err? <==> prefix == "" || |prefix| > 8)
      && (r.Err? ==> r.error == prefix)
      && (r.Ok? && prefix[|prefix| - 1] == '-' ==> r.value == prefix)
      && (r.Ok? && prefix[|prefix| - 1] != '-' ==> r.value == prefix + "-")
      && (r.Ok? ==> 1 <= |r.value| <= 9)
  {
  }

  /** The check as written lets through a one-character prefix, an
      eight-character prefix without hyphen (nine characters once the hyphen
      is appended) and a bare hyphen, though its message asks for two to
      seven characters and a hyphen. */
  lemma InitPrefixAsWrittenAcceptsOutOfRange(projectName: string)
    ensures InitPrefixAsWritten(Some("a"), projectName) == Ok("a-")
    ensures InitPrefixAsWritten(Some("abcdefgh"), projectName) == Ok("abcdefgh-")
    ensures InitPrefixAsWritten(Some("-"), projectName) == Ok("-")
  {
    assert "a" + "-" == "a-";
    assert "abcdefgh" + "-" == "abcdefgh-";
  }

  /** The prefix without one trailing hyphen. */
  function PrefixBody(prefix: string): (b: string)
    ensures b == prefix || b + "-" == prefix
  {
    if prefix != "" && prefix[|prefix| - 1] == '-' then prefix[..|prefix| - 1] else prefix
  }

  /** The check as its message states it: two to seven characters before the
      one trailing hyphen, which is appended when missing. */
  function InitPrefix(given: Option<string>, projectName: string): (r: Result<string, string>)
  {
    var prefix := if given.Some? && given.value != "" then given.value else DerivePrefix(projectName);
    var body := PrefixBody(prefix);
    if |body| < 2 || |body| > 7 then Err(prefix) else Ok(body + "-")
  }

  /** The corrected check accepts exactly a body of two to seven characters
      and returns that body with a single trailing hyphen. */
  lemma InitPrefixSpec(given: Option<string>, projectName: string)
    ensures var prefix := if given.Some? && given.value != "" then given.value else DerivePrefix(projectName);
      match InitPrefix(given, projectName)
      case Ok(p) =>
        3 <= |p| <= 8 && p[|p| - 1] == '-' && (p == prefix || p == prefix + "-")
      case Err(e) =>
        e == prefix && (|PrefixBody(prefix)| < 2 || |PrefixBody(prefix)| > 7)
  {
  }

  /** Every derived prefix passes both checks unchanged, so the correction
      only changes what is refused on the command line. */
  lemma InitPrefixKeepsDerived(projectName: string)
    requires DerivePrefix(projectName) != ""
    ensures InitPrefix(None, projectName) == Ok(DerivePrefix(projectName))
    ensures InitPrefixAsWritten(None, projectName) == Ok(DerivePrefix(projectName))
  {
    DerivePrefixShape(projectName);
  }
}
