/** The repair pass `sanitize_json` applies to the tracker's JSON output before
    decoding it: one left-to-right scan that re-encodes the content of every
    string literal and copies everything else.

    Three layers, each proved against the next:
    - `SanitizeJson`, the scan with its two flags and pending buffer, as a loop;
    - `Step`/`Run`, the same scan as a fold over the text, which the loop follows;
    - `Lex`/`Render`, an independent reading of the text as a sequence of
      tokens (characters outside strings, closed strings, an unterminated tail),
      which states what the scan achieves. */
module JsonRepair {
  import opened Wrappers
  import opened JsonEscape
  import Seqs

  // ------------------------------------------------------------- token reading

  /** Where the string whose body starts at `s[0]` closes: the first `"` not
      taken by a backslash escape; a backslash takes the character after it,
      whatever it is. `None` when the text ends first. */
  function CloseQuote(s: string): (r: Option<nat>)
    ensures r.Some? ==> r.value < |s| && s[r.value] == '"'
    decreases |s|
  {
    if s == [] then None
    else if s[0] == '"' then Some(0)
    else if s[0] == '\\' then
      if |s| == 1 then None else Shift(CloseQuote(s[2..]), 2)
    else Shift(CloseQuote(s[1..]), 1)
  }

  function Shift(r: Option<nat>, k: nat): Option<nat> {
    match r
    case None => None
    case Some(j) => Some(j + k)
  }

  /** A character other than `"` and `\` never ends a string body. */
  lemma CloseQuotePlain(c: char, t: string)
    requires c != '"' && c != '\\'
    ensures CloseQuote([c] + t) == Shift(CloseQuote(t), 1)
  {
    assert ([c] + t)[1..] == t;
  }

  /** A backslash and the character it takes never end a string body. */
  lemma CloseQuotePair(x: char, t: string)
    ensures CloseQuote(['\\', x] + t) == Shift(CloseQuote(t), 2)
  {
    assert (['\\', x] + t)[2..] == t;
  }

  /** The body before the closing quote has no closing quote of its own. */
  lemma {:induction false} CloseQuotePrefix(s: string, j: nat)
    requires CloseQuote(s) == Some(j)
    ensures CloseQuote(s[..j]) == None
    decreases |s|
  {
    if s[0] != '"' {
      var k := if s[0] == '\\' then 2 else 1;
      CloseQuotePrefix(s[k..], j - k);
      assert s[..j][k..] == s[k..][..j - k];
    }
  }

  /** A body without backslashes whose end is not found contains no quote. */
  lemma {:induction false} NoCloseNoQuote(b: string)
    requires CloseQuote(b) == None
    requires forall k | 0 <= k < |b| :: b[k] != '\\'
    ensures forall k | 0 <= k < |b| :: b[k] != '"'
    decreases |b|
  {
    if b != [] {
      NoCloseNoQuote(b[1..]);
      assert forall k | 1 <= k < |b| :: b[k] == b[1..][k - 1];
    }
  }

  /** A lexical piece of the scanned text. */
  datatype Token =
    | Other(c: char)               // a character outside any string literal
    | Str(body: string)            // a closed string literal, quotes excluded
    | Unterminated(body: string)   // a string literal the text ends inside

  /** The text a token was read from. */
  function TokenSource(t: Token): string {
    match t
    case Other(c) => [c]
    case Str(b) => "\"" + b + "\""
    case Unterminated(b) => "\"" + b
  }

  function Source(ts: seq<Token>): string {
    if ts == [] then [] else TokenSource(ts[0]) + Source(ts[1..])
  }

  /** The tokens read off the front of the text, and what is left. */
  datatype Front = Front(tokens: seq<Token>, rest: string)

  /** One reading step. Outside strings a backslash takes the character after
      it, so `\"` there is two `Other` characters and opens no string; a `"`
      opens a string that runs to `CloseQuote`, or to the end of the text. */
  function LexFront(text: string): (f: Front)
    requires text != []
    ensures |f.rest| < |text|
    ensures Source(f.tokens) + f.rest == text
    ensures |f.tokens| == 1 || (|f.tokens| == 2 && f.tokens[0] == Other('\\') && f.tokens[1].Other?)
    ensures forall k | 0 <= k < |f.tokens| :: f.tokens[k].Unterminated? ==> f.rest == []
    ensures forall k | 0 <= k < |f.tokens| :: f.tokens[k].Str? ==> CloseQuote(f.tokens[k].body) == None
  {
    if text[0] == '\\' then
      if |text| == 1 then Front([Other('\\')], [])
      else
        SourcePair(text);
        Front([Other('\\'), Other(text[1])], text[2..])
    else if text[0] == '"' then
      match CloseQuote(text[1..])
      case None => Front([Unterminated(text[1..])], [])
      case Some(j) =>
        SourceString(text, j);
        Front([Str(text[1..j + 1])], text[j + 2..])
    else
      Front([Other(text[0])], text[1..])
  }

  lemma SourcePair(text: string)
    requires |text| >= 2
    ensures Source([Other(text[0]), Other(text[1])]) + text[2..] == text
  {
    assert [Other(text[0]), Other(text[1])][1..] == [Other(text[1])];
    assert Source([Other(text[1])]) == [text[1]];
    assert Source([Other(text[0]), Other(text[1])]) == text[..2];
  }

  lemma SourceString(text: string, j: nat)
    requires text != [] && text[0] == '"' && CloseQuote(text[1..]) == Some(j)
    ensures j + 2 <= |text|
    ensures Source([Str(text[1..j + 1])]) + text[j + 2..] == text
    ensures CloseQuote(text[1..j + 1]) == None
  {
    assert text == "\"" + text[1..j + 1] + "\"" + text[j + 2..];
    CloseQuotePrefix(text[1..], j);
    assert text[1..][..j] == text[1..j + 1];
    assert [Str(text[1..j + 1])][1..] == [];
  }

  /** Reads the whole text as tokens. */
  function Lex(text: string): seq<Token>
    decreases |text|
  {
    if text == [] then [] else LexFront(text).tokens + Lex(LexFront(text).rest)
  }

  /** A string body between double quotes. */
  function Quoted(body: string): (r: string)
    ensures |r| == |body| + 2 && r[0] == '"' && r[|r| - 1] == '"' && r[1..|r| - 1] == body
  {
    ['"'] + body + ['"']
  }

  /** Appending a quote, a body and a quote appends the quoted body. */
  lemma AppendQuoted(a: string, body: string)
    ensures a + ['"'] + body + ['"'] == a + Quoted(body)
  {
  }

  /** What a scan writing string bodies through `enc` emits for a token:
      outside characters unchanged, a closed string's encoded body between
      quotes, and nothing for an unterminated one. */
  function Emit(enc: string -> string, t: Token): string {
    match t
    case Other(c) => [c]
    case Str(b) => Quoted(enc(b))
    case Unterminated(_) => []
  }

  function EmitAll(enc: string -> string, ts: seq<Token>): string {
    if ts == [] then [] else Emit(enc, ts[0]) + EmitAll(enc, ts[1..])
  }

  /** What the repair emits: string bodies re-encoded by `sanitize_json_string`. */
  function RenderToken(t: Token): string {
    Emit(SanitizeJsonString, t)
  }

  function Render(ts: seq<Token>): string {
    EmitAll(SanitizeJsonString, ts)
  }

  /** The repaired text, as a function of the input. */
  function Repaired(text: string): string {
    Render(Lex(text))
  }

  lemma {:induction false} SourceAppend(a: seq<Token>, b: seq<Token>)
    ensures Source(a + b) == Source(a) + Source(b)
    decreases |a|
  {
    if a == [] {
      assert a + b == b;
    } else {
      assert (a + b)[1..] == a[1..] + b;
      SourceAppend(a[1..], b);
    }
  }

  lemma {:induction false} EmitAllAppend(enc: string -> string, a: seq<Token>, b: seq<Token>)
    ensures EmitAll(enc, a + b) == EmitAll(enc, a) + EmitAll(enc, b)
    decreases |a|
  {
    if a == [] {
      assert a + b == b;
    } else {
      assert (a + b)[0] == a[0] && (a + b)[1..] == a[1..] + b;
      EmitAllAppend(enc, a[1..], b);
      Seqs.Assoc(Emit(enc, a[0]), EmitAll(enc, a[1..]), EmitAll(enc, b));
    }
  }

  lemma RenderAppend(a: seq<Token>, b: seq<Token>)
    ensures Render(a + b) == Render(a) + Render(b)
  {
    EmitAllAppend(SanitizeJsonString, a, b);
  }

  /** The three ways `Lex` reads a token off the front of the text. */
  lemma LexPlain(c: char, t: string)
    requires c != '"' && c != '\\'
    ensures Lex([c] + t) == [Other(c)] + Lex(t)
  {
    assert ([c] + t)[1..] == t;
  }

  lemma LexPair(x: char, t: string)
    ensures Lex(['\\', x] + t) == [Other('\\'), Other(x)] + Lex(t)
  {
    var s := ['\\', x] + t;
    assert s[1] == x && s[2..] == t;
  }

  lemma LexString(s: string, j: nat)
    requires CloseQuote(s) == Some(j)
    ensures Lex(['"'] + s) == [Str(s[..j])] + Lex(s[j + 1..])
  {
    var text := ['"'] + s;
    assert text[1..] == s;
    var f := LexFront(text);
    assert f.tokens == [Str(s[..j])] && f.rest == s[j + 1..] by {
      assert text[1..j + 1] == s[..j] && text[j + 2..] == s[j + 1..];
    }
    assert Lex(text) == f.tokens + Lex(f.rest);
  }

  lemma LexUnterminated(s: string)
    requires CloseQuote(s) == None
    ensures Lex(['"'] + s) == [Unterminated(s)]
  {
    assert (['"'] + s)[1..] == s;
  }

  /** The repair of a text, read off its front: a plain character, a closed
      string and an unterminated string. */
  lemma RepairedPlain(c: char, t: string)
    requires c != '"' && c != '\\'
    ensures Repaired([c] + t) == [c] + Repaired(t)
  {
    LexPlain(c, t);
    RenderAppend([Other(c)], Lex(t));
  }

  lemma RepairedString(s: string, j: nat)
    requires CloseQuote(s) == Some(j)
    ensures Repaired(['"'] + s) == Quoted(Escape(s[..j])) + Repaired(s[j + 1..])
  {
    LexString(s, j);
    RenderAppend([Str(s[..j])], Lex(s[j + 1..]));
    RenderStr(s[..j]);
  }

  /** A closed string renders as its escaped body between quotes. */
  lemma RenderStr(b: string)
    ensures Render([Str(b)]) == Quoted(Escape(b))
  {
    var q := Quoted(Escape(b));
    assert [Str(b)][1..] == [];
    assert Emit(SanitizeJsonString, Str(b)) == q;
    assert EmitAll(SanitizeJsonString, [Str(b)]) == q + EmitAll(SanitizeJsonString, []);
    Seqs.AppendEmpty(q);
  }

  lemma RepairedUnterminated(s: string)
    requires CloseQuote(s) == None
    ensures Repaired(['"'] + s) == []
  {
    LexUnterminated(s);
    assert Render([Unterminated(s)]) == RenderToken(Unterminated(s)) + Render([]);
  }

  /** Reading loses nothing: the tokens spell out the input exactly. */
  lemma {:induction false} LexSource(text: string)
    ensures Source(Lex(text)) == text
    decreases |text|
  {
    if text != [] {
      var f := LexFront(text);
      LexSource(f.rest);
      SourceAppend(f.tokens, Lex(f.rest));
    }
  }

  /** Only the last token can be an unterminated string. */
  lemma {:induction false} UnterminatedOnlyLast(text: string, k: nat)
    requires k < |Lex(text)| && Lex(text)[k].Unterminated?
    ensures k == |Lex(text)| - 1
    decreases |text|
  {
    var f := LexFront(text);
    var rest := Lex(f.rest);
    assert Lex(text) == f.tokens + rest;
    if k >= |f.tokens| {
      assert Lex(text)[k] == rest[k - |f.tokens|];
      UnterminatedOnlyLast(f.rest, k - |f.tokens|);
    } else {
      assert f.tokens[k].Unterminated?;
      assert f.rest == [] && |f.tokens| == 1;
    }
  }

  // ------------------------------------------------------------ the flag scan

  /** The scanner's state after some prefix: the emitted text (the joined
      `result` list), the `in_string` and `escaped` flags, and the pending
      `current_string` content. */
  datatype Scanner = Scanner(output: string, inString: bool, escaped: bool, pending: string)

  const Start := Scanner([], false, false, [])

  /** One iteration of the scan loop on character `c`, writing the body of a
      closed string through `enc`; the loop itself uses `sanitize_json_string`.
      The scan's structure does not depend on the encoder, so the lemmas of
      this section hold for every `enc`. */
  function Step(enc: string -> string, st: Scanner, c: char): Scanner {
    var next :=
      if c == '"' && !st.escaped then
        if st.inString then
          Scanner(st.output + Quoted(enc(st.pending)), false, st.escaped, [])
        else st.(inString := true)
      else if st.inString then st.(pending := st.pending + [c])
      else st.(output := st.output + [c]);
    next.(escaped := c == '\\' && !st.escaped)
  }

  /** `Step` case by case, as the loop body takes the cases. */
  lemma StepCases(enc: string -> string, st: Scanner, c: char)
    ensures c == '"' && !st.escaped && st.inString ==>
      Step(enc, st, c) == Scanner(st.output + Quoted(enc(st.pending)), false, false, [])
    ensures c == '"' && !st.escaped && !st.inString ==>
      Step(enc, st, c) == Scanner(st.output, true, false, st.pending)
    ensures !(c == '"' && !st.escaped) && st.inString ==>
      Step(enc, st, c) == Scanner(st.output, true, c == '\\' && !st.escaped, st.pending + [c])
    ensures !(c == '"' && !st.escaped) && !st.inString ==>
      Step(enc, st, c) == Scanner(st.output + [c], false, c == '\\' && !st.escaped, st.pending)
  {
  }

  /** The scan of `s` from state `st`. */
  function Run(enc: string -> string, st: Scanner, s: string): Scanner
    decreases |s|
  {
    if s == [] then st else Run(enc, Step(enc, st, s[0]), s[1..])
  }

  lemma {:induction false} RunSnoc(enc: string -> string, st: Scanner, s: string, c: char)
    ensures Run(enc, st, s + [c]) == Step(enc, Run(enc, st, s), c)
    decreases |s|
  {
    if s == [] {
      assert s + [c] == [c];
    } else {
      assert (s + [c])[1..] == s[1..] + [c];
      RunSnoc(enc, Step(enc, st, s[0]), s[1..], c);
    }
  }

  /** Scanning from outside any string, with no escape pending. */
  function Outside(o: string): Scanner {
    Scanner(o, false, false, [])
  }

  /** Scanning inside a string, with no escape pending. */
  function Inside(o: string, cur: string): Scanner {
    Scanner(o, true, false, cur)
  }

  /** A backslash and the character after it go to the same place as the
      backslash: into the pending content or into the output, and leave no
      escape pending. */
  lemma RunPair(enc: string -> string, st: Scanner, s: string)
    requires |s| >= 2 && s[0] == '\\' && !st.escaped
    ensures Run(enc, st, s) == Run(enc,
      if st.inString then st.(pending := st.pending + s[..2]) else st.(output := st.output + s[..2]),
      s[2..])
  {
    assert s[1..][0] == s[1] && s[1..][1..] == s[2..];
    assert st.pending + [s[0]] + [s[1]] == st.pending + s[..2];
    assert st.output + [s[0]] + [s[1]] == st.output + s[..2];
  }

  /** How much of a string body one reading step takes: a backslash with the
      character after it, or one character. */
  function ChunkLength(s: string): (k: nat)
    requires s != []
    ensures 1 <= k <= |s|
  {
    if s[0] == '\\' && |s| >= 2 then 2 else 1
  }

  /** Inside a string, a chunk that is not the closing quote goes to the
      pending content, and the closing position moves by its length. */
  lemma RunInsideChunk(enc: string -> string, o: string, cur: string, s: string)
    requires s != [] && s[0] != '"'
    ensures s[0] != '\\' || |s| >= 2 ==>
      Run(enc, Inside(o, cur), s) == Run(enc, Inside(o, cur + s[..ChunkLength(s)]), s[ChunkLength(s)..])
    ensures s[0] == '\\' && |s| == 1 ==> Run(enc, Inside(o, cur), s).output == o
    ensures CloseQuote(s) == Shift(CloseQuote(s[ChunkLength(s)..]), ChunkLength(s))
  {
    CloseQuoteChunk(s);
    if s[0] == '\\' && |s| >= 2 {
      RunPair(enc, Inside(o, cur), s);
    } else if s[0] == '\\' {
      RunInsideLoneBackslash(enc, o, cur, s);
    } else {
      RunInsidePlain(enc, o, cur, s);
    }
  }

  lemma RunInsideLoneBackslash(enc: string -> string, o: string, cur: string, s: string)
    requires s == ['\\']
    ensures Run(enc, Inside(o, cur), s).output == o
  {
    assert s[1..] == [];
    assert Run(enc, Inside(o, cur), s) == Run(enc, Step(enc, Inside(o, cur), '\\'), []);
  }

  lemma RunInsidePlain(enc: string -> string, o: string, cur: string, s: string)
    requires s != [] && s[0] != '"' && s[0] != '\\'
    ensures Run(enc, Inside(o, cur), s) == Run(enc, Inside(o, cur + s[..1]), s[1..])
  {
    assert [s[0]] == s[..1];
    assert Step(enc, Inside(o, cur), s[0]) == Inside(o, cur + s[..1]);
  }

  /** A chunk that is not the closing quote moves the closing position by its
      length. */
  lemma CloseQuoteChunk(s: string)
    requires s != [] && s[0] != '"'
    ensures CloseQuote(s) == Shift(CloseQuote(s[ChunkLength(s)..]), ChunkLength(s))
  {
    if s[0] == '\\' && |s| == 1 {
      assert s[1..] == [];
    }
  }

  /** Inside a string with no escape pending, the scan buffers everything up to
      the closing quote found by `CloseQuote` and then emits the encoded
      string and returns to the outside. */
  lemma {:induction false} RunClosedString(enc: string -> string, o: string, cur: string, s: string, j: nat)
    requires CloseQuote(s) == Some(j)
    ensures Run(enc, Inside(o, cur), s)
         == Run(enc, Outside(o + Quoted(enc(cur + s[..j]))), s[j + 1..])
    decreases |s|
  {
    if s[0] == '"' {
      assert j == 0 && cur + s[..0] == cur;
      RunCloseAtQuote(enc, o, cur, s);
    } else {
      var k := ChunkLength(s);
      CloseQuoteNotLoneBackslash(s, j);
      RunInsideChunk(enc, o, cur, s);
      var cur', t := cur + s[..k], s[k..];
      assert CloseQuote(t) == Some(j - k);
      RunClosedString(enc, o, cur', t, j - k);
      Seqs.TakeMore(cur, s, k, j + 1);
      Seqs.TakeMore(cur, s, k, j);
    }
  }

  /** A body that closes does not end in a lone backslash. */
  lemma CloseQuoteNotLoneBackslash(s: string, j: nat)
    requires CloseQuote(s) == Some(j)
    ensures s[0] != '\\' || |s| >= 2
  {
  }

  /** The closing quote emits the encoded pending content. */
  lemma RunCloseAtQuote(enc: string -> string, o: string, cur: string, s: string)
    requires s != [] && s[0] == '"'
    ensures Run(enc, Inside(o, cur), s) == Run(enc, Outside(o + Quoted(enc(cur))), s[1..])
  {
    assert Step(enc, Inside(o, cur), '"') == Outside(o + Quoted(enc(cur)));
  }

  /** Inside a string that never closes, the scan emits nothing more. */
  lemma {:induction false} RunUnterminated(enc: string -> string, o: string, cur: string, s: string)
    requires CloseQuote(s) == None
    ensures Run(enc, Inside(o, cur), s).output == o
    decreases |s|
  {
    if s != [] {
      var k := ChunkLength(s);
      RunInsideChunk(enc, o, cur, s);
      RunUnterminated(enc, o, cur + s[..k], s[k..]);
    }
  }

  /** From the outside, the scan over the first token(s) emits them. */
  lemma RunFront(enc: string -> string, o: string, text: string)
    requires text != []
    ensures Run(enc, Outside(o), text).output
         == Run(enc, Outside(o + EmitAll(enc, LexFront(text).tokens)), LexFront(text).rest).output
  {
    var f := LexFront(text);
    if text[0] == '\\' && |text| == 1 {
      assert EmitAll(enc, [Other('\\')]) == ['\\'];
    } else if text[0] == '\\' {
      RunPair(enc, Outside(o), text);
      assert [Other('\\'), Other(text[1])][1..] == [Other(text[1])];
      assert EmitAll(enc, [Other(text[1])]) == [text[1]];
      assert EmitAll(enc, f.tokens) == text[..2];
    } else if text[0] == '"' {
      RunFrontString(enc, o, text);
    } else {
      assert EmitAll(enc, f.tokens) == [text[0]];
    }
  }

  /** The case of `RunFront` where the text opens a string. */
  lemma RunFrontString(enc: string -> string, o: string, text: string)
    requires text != [] && text[0] == '"'
    ensures Run(enc, Outside(o), text).output
         == Run(enc, Outside(o + EmitAll(enc, LexFront(text).tokens)), LexFront(text).rest).output
  {
    var s := text[1..];
    assert Run(enc, Outside(o), text) == Run(enc, Inside(o, []), s) by {
      assert Step(enc, Outside(o), text[0]) == Inside(o, []);
    }
    if CloseQuote(s).None? {
      RunUnterminated(enc, o, [], s);
      assert EmitAll(enc, LexFront(text).tokens) == [];
    } else {
      RunFrontClosed(enc, o, text, CloseQuote(s).value);
    }
  }

  lemma RunFrontClosed(enc: string -> string, o: string, text: string, j: nat)
    requires text != [] && text[0] == '"' && CloseQuote(text[1..]) == Some(j)
    ensures Run(enc, Inside(o, []), text[1..]).output
         == Run(enc, Outside(o + EmitAll(enc, LexFront(text).tokens)), LexFront(text).rest).output
  {
    var f := LexFront(text);
    var s := text[1..];
    var b := text[1..j + 1];
    assert f.tokens == [Str(b)] && f.rest == text[j + 2..];
    RunClosedString(enc, o, [], s, j);
    assert [] + s[..j] == b;
    assert s[j + 1..] == f.rest;
    assert f.tokens[1..] == [];
    var q := Quoted(enc(b));
    assert EmitAll(enc, f.tokens) == q + [];
    Seqs.AppendEmpty(q);
  }

  /** From the outside with no escape pending, the scan appends exactly the
      emitted tokens of the rest of the text. */
  lemma {:induction false} RunOutside(enc: string -> string, o: string, text: string)
    ensures Run(enc, Outside(o), text).output == o + EmitAll(enc, Lex(text))
    decreases |text|
  {
    if text != [] {
      var f := LexFront(text);
      RunFront(enc, o, text);
      RunOutside(enc, o + EmitAll(enc, f.tokens), f.rest);
      assert Lex(text) == f.tokens + Lex(f.rest);
      EmitAllAppend(enc, f.tokens, Lex(f.rest));
      Seqs.Assoc(o, EmitAll(enc, f.tokens), EmitAll(enc, Lex(f.rest)));
    }
  }

  /** The scan with `sanitize_json_string` and the token reading agree on
      every input. */
  lemma ScanIsRepaired(text: string)
    ensures Run(SanitizeJsonString, Start, text).output == Repaired(text)
  {
    assert Start == Outside([]);
    RunOutside(SanitizeJsonString, [], text);
  }

  /** `sanitize_json`: the imperative scan. Its result is the token rendering
      of the input. */
  method SanitizeJson(text: string) returns (r: string)
    ensures r == Repaired(text)
  {
    var result: string := [];
    var inString := false;
    var escaped := false;
    var current: string := [];
    for i := 0 to |text|
      invariant Scanner(result, inString, escaped, current) == Run(SanitizeJsonString, Start, text[..i])
    {
      var c := text[i];
      StepCases(SanitizeJsonString, Scanner(result, inString, escaped, current), c);
      RunSnoc(SanitizeJsonString, Start, text[..i], c);
      assert text[..i + 1] == text[..i] + [c];
      if c == '"' && !escaped {
        if inString {
          var sanitized := SanitizeJsonString(current);
          ghost var before := result;
          result := result + ['"'];
          result := result + sanitized;
          result := result + ['"'];
          AppendQuoted(before, sanitized);
          current := [];
          inString := false;
        } else {
          inString := true;
        }
      } else if inString {
        current := current + [c];
      } else {
        result := result + [c];
      }
      escaped := c == '\\' && !escaped;
    }
    assert text[..|text|] == text;
    ScanIsRepaired(text);
    r := result;
  }

  // ------------------------------------------------------ the escaped flag

  /** The number of backslashes that end `s`. */
  function TrailingBackslashes(s: string): nat
    decreases |s|
  {
    if s == [] || s[|s| - 1] != '\\' then 0 else 1 + TrailingBackslashes(s[..|s| - 1])
  }

  /** The `escaped` flag after a prefix is set exactly when that prefix ends in
      an odd run of backslashes, inside strings and outside alike; so `\\"`
      closes a string and `\"` does not. */
  lemma {:induction false} EscapedIffOddBackslashes(enc: string -> string, s: string)
    ensures Run(enc, Start, s).escaped <==> TrailingBackslashes(s) % 2 == 1
    decreases |s|
  {
    if s != [] {
      var init := s[..|s| - 1];
      assert init + [s[|s| - 1]] == s;
      RunSnoc(enc, Start, init, s[|s| - 1]);
      EscapedIffOddBackslashes(enc, init);
    }
  }

  // ------------------------------------------- what the repaired text contains

  /** The tokens the repaired text reads as: strings re-encoded, the
      unterminated tail gone, outside characters unchanged. */
  function Reencoded(ts: seq<Token>): seq<Token> {
    if ts == [] then []
    else
      var rest := Reencoded(ts[1..]);
      match ts[0]
      case Other(c) => [Other(c)] + rest
      case Str(b) => [Str(Escape(b))] + rest
      case Unterminated(_) => rest
  }

  lemma {:induction false} ReencodedAppend(a: seq<Token>, b: seq<Token>)
    ensures Reencoded(a + b) == Reencoded(a) + Reencoded(b)
    decreases |a|
  {
    if a == [] {
      assert a + b == b;
    } else {
      assert (a + b)[1..] == a[1..] + b;
      ReencodedAppend(a[1..], b);
    }
  }

  /** Plain characters never end a string body. */
  lemma {:induction false} CloseQuoteOverPlain(h: string, t: string)
    requires AllPlain(h)
    ensures CloseQuote(h + t) == Shift(CloseQuote(t), |h|)
    decreases |h|
  {
    if h == [] {
      assert h + t == t;
    } else {
      var t1 := h[1..] + t;
      assert h + t == [h[0]] + t1;
      assert IsPlainChar(h[0]);
      CloseQuotePlain(h[0], t1);
      assert AllPlain(h[1..]) by {
        assert forall k | 0 <= k < |h[1..]| :: h[1..][k] == h[k + 1];
      }
      CloseQuoteOverPlain(h[1..], t);
      var r := CloseQuote(t);
      assert Shift(Shift(r, |h| - 1), 1) == Shift(r, |h|);
    }
  }

  /** The four hex digits of a `\u` escape never end a string. */
  lemma CloseQuoteOverHex(h: string, t: string)
    requires |h| == 4 && AllPlain(h)
    ensures CloseQuote(['\\', 'u'] + h + t) == Shift(CloseQuote(t), 6)
  {
    CloseQuoteOverPlain(h, t);
    CloseQuotePair('u', h + t);
    Seqs.Assoc(['\\', 'u'], h, t);
  }

  /** Reading past one escaped character moves the closing position by its length. */
  lemma CloseQuoteAfterChunk(c: char, t: string)
    ensures CloseQuote(EscapeChar(c) + t) == Shift(CloseQuote(t), |EscapeChar(c)|)
  {
    if IsPlainChar(c) {
      CloseQuotePlain(c, t);
    } else if IsPrintableAscii(c) || c == '\U{0008}' || c == '\U{000C}' || c == '\n' || c == '\r' || c == '\t' {
      CloseQuoteAfterShort(c, t);
    } else if c as int < 0x1_0000 {
      assert EscapeChar(c) == UnicodeEscape(c as int);
      CloseQuoteAfterUnicode(c as int, t);
    } else {
      CloseQuoteAfterSurrogates(c, t);
    }
  }

  lemma CloseQuoteAfterShort(c: char, t: string)
    requires c == '"' || c == '\\' || c == '\U{0008}' || c == '\U{000C}' || c == '\n' || c == '\r' || c == '\t'
    ensures CloseQuote(EscapeChar(c) + t) == Shift(CloseQuote(t), |EscapeChar(c)|)
  {
    var e := EscapeChar(c);
    assert |e| == 2 && e == ['\\', e[1]];
    CloseQuotePair(e[1], t);
  }

  lemma CloseQuoteAfterUnicode(n: int, t: string)
    requires 0 <= n < 0x1_0000
    ensures CloseQuote(UnicodeEscape(n) + t) == Shift(CloseQuote(t), 6)
  {
    var u := UnicodeEscape(n);
    assert u == ['\\', 'u'] + u[2..];
    CloseQuoteOverHex(u[2..], t);
  }

  lemma CloseQuoteAfterSurrogates(c: char, t: string)
    requires c as int >= 0x1_0000
    ensures CloseQuote(EscapeChar(c) + t) == Shift(CloseQuote(t), |EscapeChar(c)|)
  {
    var hi, lo := HighSurrogate(c), LowSurrogate(c);
    assert EscapeChar(c) == UnicodeEscape(hi) + UnicodeEscape(lo);
    CloseQuoteAfterUnits(hi, lo, t);
  }

  lemma CloseQuoteAfterUnits(hi: int, lo: int, t: string)
    requires 0 <= hi < 0x1_0000 && 0 <= lo < 0x1_0000
    ensures CloseQuote(UnicodeEscape(hi) + UnicodeEscape(lo) + t) == Shift(CloseQuote(t), 12)
  {
    var uh, ul := UnicodeEscape(hi), UnicodeEscape(lo);
    CloseQuoteAfterUnicode(lo, t);
    CloseQuoteAfterUnicode(hi, ul + t);
    Seqs.Assoc(uh, ul, t);
  }

  /** An escaped body is followed by the quote that closes it: it contains no
      `"` that a reader would take as the end of the string. */
  lemma {:induction false} EscapedBodyCloses(b: string, rest: string)
    ensures CloseQuote(Escape(b) + ['"'] + rest) == Some(|Escape(b)|)
    decreases |b|
  {
    if b == [] {
      assert Escape(b) + ['"'] + rest == ['"'] + rest;
    } else {
      var e, e1 := EscapeChar(b[0]), Escape(b[1..]);
      assert Escape(b) == e + e1;
      EscapedBodyCloses(b[1..], rest);
      CloseQuoteAfterChunk(b[0], e1 + ['"'] + rest);
      CloseQuoteStep(e, e1, rest);
    }
  }

  /** A chunk that moves the closing position by its length, in front of a
      body that closes at its end. */
  lemma CloseQuoteStep(e: string, e1: string, rest: string)
    requires CloseQuote(e + (e1 + ['"'] + rest)) == Shift(CloseQuote(e1 + ['"'] + rest), |e|)
    requires CloseQuote(e1 + ['"'] + rest) == Some(|e1|)
    ensures CloseQuote(e + e1 + ['"'] + rest) == Some(|e + e1|)
  {
    Seqs.Assoc(e, e1, ['"']);
    Seqs.Assoc(e, e1 + ['"'], rest);
  }

  /** Reading the rendering of the first token(s) of a text, followed by the
      repaired rest, gives their re-encoding followed by the reading of that rest. */
  lemma RelexFront(text: string, x: string)
    requires text != [] && x == Repaired(LexFront(text).rest)
    ensures Lex(Render(LexFront(text).tokens) + x) == Reencoded(LexFront(text).tokens) + Lex(x)
  {
    var f := LexFront(text);
    if text[0] == '\\' && |text| == 1 {
      assert f.tokens == [Other('\\')] && f.rest == [];
      assert x == [];
      RelexLoneBackslash();
    } else if text[0] == '\\' {
      assert f.tokens == [Other('\\'), Other(text[1])];
      RelexPair(text[1], x);
    } else if text[0] == '"' {
      if CloseQuote(text[1..]).Some? {
        var j := CloseQuote(text[1..]).value;
        assert f.tokens == [Str(text[1..j + 1])];
        RelexStr(text[1..j + 1], x);
      } else {
        assert f.tokens == [Unterminated(text[1..])] && f.rest == [];
        assert x == [];
        RelexUnterminated(text[1..]);
      }
    } else {
      assert f.tokens == [Other(text[0])];
      RelexPlain(text[0], x);
    }
  }

  /** The cases of `RelexFront`, one per kind of front token. */
  lemma RelexLoneBackslash()
    ensures Lex(Render([Other('\\')]) + []) == Reencoded([Other('\\')]) + Lex([])
  {
    assert Render([Other('\\')]) == ['\\'] + Render([]);
    assert Reencoded([Other('\\')]) == [Other('\\')] + Reencoded([]);
    assert Lex(['\\']) == [Other('\\')];
  }

  lemma RelexPair(c: char, x: string)
    ensures Lex(Render([Other('\\'), Other(c)]) + x) == Reencoded([Other('\\'), Other(c)]) + Lex(x)
  {
    var ts := [Other('\\'), Other(c)];
    assert ts[1..] == [Other(c)] && ts[1..][1..] == [];
    assert Render(ts[1..]) == [c] + Render([]);
    assert Render(ts) == ['\\', c];
    assert Reencoded([Other(c)]) == [Other(c)] + Reencoded([]);
    assert Reencoded(ts) == ts;
    LexPair(c, x);
  }

  lemma RelexPlain(c: char, x: string)
    requires c != '"' && c != '\\'
    ensures Lex(Render([Other(c)]) + x) == Reencoded([Other(c)]) + Lex(x)
  {
    assert Render([Other(c)]) == [c] + Render([]);
    Seqs.AppendEmpty([c]);
    var ts := [Other(c)];
    assert Reencoded(ts) == ts + Reencoded([]);
    Seqs.AppendEmpty(ts);
    LexPlain(c, x);
  }

  lemma RelexStr(b: string, x: string)
    ensures Lex(Render([Str(b)]) + x) == Reencoded([Str(b)]) + Lex(x)
  {
    var q := Quoted(Escape(b));
    assert Render([Str(b)]) == q + Render([]);
    Seqs.AppendEmpty(q);
    var ts := [Str(Escape(b))];
    assert Reencoded([Str(b)]) == ts + Reencoded([]);
    Seqs.AppendEmpty(ts);
    RelexString(b, x);
  }

  lemma RelexUnterminated(b: string)
    ensures Lex(Render([Unterminated(b)]) + []) == Reencoded([Unterminated(b)]) + Lex([])
  {
    assert Render([Unterminated(b)]) == [] + Render([]);
    assert Reencoded([Unterminated(b)]) == Reencoded([]);
  }

  /** A re-encoded string followed by anything reads as that one string first. */
  lemma RelexString(b: string, x: string)
    ensures Lex(Quoted(Escape(b)) + x) == [Str(Escape(b))] + Lex(x)
  {
    EscapedBodyCloses(b, x);
    LexQuotedBody(Escape(b), x);
  }

  /** A quoted body that the reader closes at its own closing quote. */
  lemma LexQuotedBody(e: string, x: string)
    requires CloseQuote(e + ['"'] + x) == Some(|e|)
    ensures Lex(Quoted(e) + x) == [Str(e)] + Lex(x)
  {
    QuotedSplit(e, x);
    LexString(e + ['"'] + x, |e|);
  }

  lemma QuotedSplit(e: string, x: string)
    ensures Quoted(e) + x == ['"'] + (e + ['"'] + x)
    ensures (e + ['"'] + x)[..|e|] == e && (e + ['"'] + x)[|e| + 1..] == x
  {
  }

  /** Structure is preserved: reading the repaired text gives the input's
      tokens, each string re-encoded and an unterminated string dropped. */
  lemma {:induction false} LexRepaired(text: string)
    ensures Lex(Repaired(text)) == Reencoded(Lex(text))
    decreases |text|
  {
    if text != [] {
      var f := LexFront(text);
      var x := Repaired(f.rest);
      RenderAppend(f.tokens, Lex(f.rest));
      RelexFront(text, x);
      LexRepaired(f.rest);
      ReencodedAppend(f.tokens, Lex(f.rest));
    }
  }

  // ------------------------------------------------------- consequences

  /** The characters that stand outside every string literal, in order. */
  function OutsideText(ts: seq<Token>): string {
    if ts == [] then []
    else (if ts[0].Other? then [ts[0].c] else []) + OutsideText(ts[1..])
  }

  lemma {:induction false} OutsideTextReencoded(ts: seq<Token>)
    ensures OutsideText(Reencoded(ts)) == OutsideText(ts)
    decreases |ts|
  {
    if ts != [] {
      OutsideTextReencoded(ts[1..]);
      var rest := Reencoded(ts[1..]);
      match ts[0]
      case Other(c) =>
        assert ([Other(c)] + rest)[1..] == rest;
      case Str(b) =>
        assert ([Str(Escape(b))] + rest)[1..] == rest;
      case Unterminated(_) =>
    }
  }

  /** Outside string literals every character is copied unchanged and in
      order: braces, brackets, colons, commas, numbers, literals, whitespace. */
  lemma OutsideCharactersKept(text: string)
    ensures OutsideText(Lex(Repaired(text))) == OutsideText(Lex(text))
  {
    LexRepaired(text);
    OutsideTextReencoded(Lex(text));
  }

  /** The bodies of the closed strings, in order. */
  function StringBodies(ts: seq<Token>): seq<string> {
    if ts == [] then []
    else (if ts[0].Str? then [ts[0].body] else []) + StringBodies(ts[1..])
  }

  /** Each body escaped, in order. */
  function EscapeAll(bs: seq<string>): (r: seq<string>)
    ensures |r| == |bs|
    ensures forall k | 0 <= k < |bs| :: r[k] == Escape(bs[k])
  {
    if bs == [] then [] else [Escape(bs[0])] + EscapeAll(bs[1..])
  }

  lemma {:induction false} StringBodiesReencoded(ts: seq<Token>)
    ensures StringBodies(Reencoded(ts)) == EscapeAll(StringBodies(ts))
    decreases |ts|
  {
    if ts != [] {
      StringBodiesReencoded(ts[1..]);
      var rest := Reencoded(ts[1..]);
      var bodies := StringBodies(ts[1..]);
      match ts[0]
      case Other(c) =>
        var r := [Other(c)] + rest;
        assert r[0] == Other(c) && r[1..] == rest;
        assert StringBodies(r) == [] + StringBodies(rest) == StringBodies(rest);
        assert StringBodies(ts) == [] + bodies == bodies;
      case Str(b) =>
        var r := [Str(Escape(b))] + rest;
        assert r[0] == Str(Escape(b)) && r[1..] == rest;
        assert StringBodies(r) == [Escape(b)] + StringBodies(rest);
        assert StringBodies(ts) == [b] + bodies;
        assert ([b] + bodies)[1..] == bodies;
      case Unterminated(_) =>
        assert StringBodies(ts) == [] + bodies == bodies;
    }
  }

  /** Every closed string of the input is still a string of the repaired text,
      in the same place among the strings, and its repaired body is printable
      ASCII that a strict decoder turns back into exactly the input's raw
      content. */
  lemma StringsDecodeToRawContent(text: string)
    ensures |StringBodies(Lex(Repaired(text)))| == |StringBodies(Lex(text))|
    ensures forall k | 0 <= k < |StringBodies(Lex(text))| ::
      AllPrintableAscii(StringBodies(Lex(Repaired(text)))[k])
      && Unescape(StringBodies(Lex(Repaired(text)))[k]) == Some(StringBodies(Lex(text))[k])
  {
    LexRepaired(text);
    StringBodiesReencoded(Lex(text));
    forall k | 0 <= k < |StringBodies(Lex(text))|
      ensures Unescape(Escape(StringBodies(Lex(text))[k])) == Some(StringBodies(Lex(text))[k])
    {
      UnescapeEscape(StringBodies(Lex(text))[k]);
    }
  }

  /** A token the repair leaves as it is: a character outside strings, or a
      closed string whose content is printable ASCII without backslashes. */
  predicate Untouched(t: Token) {
    match t
    case Other(_) => true
    case Str(b) => forall k | 0 <= k < |b| :: IsPrintableAscii(b[k]) && b[k] != '\\'
    case Unterminated(_) => false
  }

  lemma {:induction false} RenderUntouched(ts: seq<Token>)
    requires forall k | 0 <= k < |ts| :: Untouched(ts[k])
    requires forall k | 0 <= k < |ts| :: ts[k].Str? ==> CloseQuote(ts[k].body) == None
    ensures Render(ts) == Source(ts)
    decreases |ts|
  {
    if ts != [] {
      RenderUntouched(ts[1..]);
      if ts[0].Str? {
        var b := ts[0].body;
        NoCloseNoQuote(b);
        EscapePlainIsIdentity(b);
      }
    }
  }

  /** Identity: when the text does not end inside a string and every string's
      content is printable ASCII without backslashes, the repair returns the
      text unchanged. */
  lemma {:induction false} RepairIdentity(text: string)
    requires forall k | 0 <= k < |Lex(text)| :: Untouched(Lex(text)[k])
    ensures Repaired(text) == text
    decreases |text|
  {
    if text != [] {
      var f := LexFront(text);
      var rest := Lex(f.rest);
      assert Lex(text) == f.tokens + rest;
      assert forall k | 0 <= k < |f.tokens| :: Lex(text)[k] == f.tokens[k];
      assert forall k | 0 <= k < |rest| :: Lex(text)[|f.tokens| + k] == rest[k];
      RepairIdentity(f.rest);
      RenderUntouched(f.tokens);
      RenderAppend(f.tokens, rest);
    }
  }

  /** A text that is one closed string is repaired to its escaped body. */
  lemma RepairQuoted(b: string)
    requires CloseQuote(b + ['"']) == Some(|b|)
    ensures Repaired(Quoted(b)) == Quoted(Escape(b))
  {
    var s := b + ['"'];
    assert Quoted(b) == ['"'] + s by {
      Seqs.Assoc(['"'], b, ['"']);
    }
    RepairedWholeString(s, |b|);
  }

  /** A text that is one string closing at its last character. */
  lemma RepairedWholeString(s: string, j: nat)
    requires CloseQuote(s) == Some(j) && j + 1 == |s|
    ensures Repaired(['"'] + s) == Quoted(Escape(s[..j]))
  {
    RepairedString(s, j);
    assert s[j + 1..] == [];
    assert Repaired([]) == [];
    Seqs.AppendEmpty(Quoted(Escape(s[..j])));
  }

  /** Repairing twice escapes the body twice, so the repair is idempotent on
      such a text exactly when its body needed no escaping. */
  lemma RepairTwiceIff(b: string)
    requires CloseQuote(b + ['"']) == Some(|b|)
    ensures Repaired(Repaired(Quoted(b))) == Quoted(Escape(Escape(b)))
    ensures Repaired(Repaired(Quoted(b))) == Repaired(Quoted(b)) <==> AllPlain(b)
  {
    RepairQuoted(b);
    RepairEscapedQuoted(b);
    EscapeIdempotentIff(b);
    QuotedInjective(Escape(Escape(b)), Escape(b));
  }

  /** Repairing an escaped quoted body escapes it once more. */
  lemma RepairEscapedQuoted(b: string)
    ensures Repaired(Quoted(Escape(b))) == Quoted(Escape(Escape(b)))
  {
    var e := Escape(b);
    EscapedBodyCloses(b, []);
    Seqs.AppendEmpty(e + ['"']);
    RepairQuoted(e);
  }

  lemma QuotedInjective(a: string, b: string)
    ensures Quoted(a) == Quoted(b) <==> a == b
  {
    var qa, qb := Quoted(a), Quoted(b);
    assert qa == qb ==> qa[1..|qa| - 1] == qb[1..|qb| - 1];
  }

  /** A concrete text on which the repair is not idempotent: a string holding
      a raw newline. */
  lemma RepairNotIdempotent()
    ensures Repaired(Repaired(Quoted(['\n']))) != Repaired(Quoted(['\n']))
  {
    assert CloseQuote(['\n'] + ['"']) == Some(1) by {
      CloseQuotePlain('\n', ['"']);
    }
    RepairTwiceIff(['\n']);
    assert !IsPlainChar(['\n'][0]);
  }
}
