/**
  What the scanner can produce, and the proof that printing a token list and
  scanning the print gives the list back.
 */
module LexerRoundTrip {
  import opened ScanLoop
  import opened Lexer

  /** Every byte that is a quote is written twice. */
  function Doubled(q: char, t: string): string {
    if t == "" then ""
    else (if t[0] == q then [q, q] else [t[0]]) + Doubled(q, t[1..])
  }

  function PrintToken(t: Token): string {
    match t.kind
    case Ident => "\"" + Doubled('"', t.text) + "\""
    case Str => "'" + Doubled('\'', t.text) + "'"
    case Symbol => t.text
    case Other => if t.text == "number" then "0" else "$"
  }

  function Print(ts: seq<Token>): string {
    if ts == [] then "" else PrintToken(ts[0]) + " " + Print(ts[1..])
  }

  /** Punctuation the scanner emits one byte at a time. */
  predicate IsPunctuation(c: char) {
    && !IsSpace(c) && !IsOperatorChar(c) && !IsIdentPart(c)
    && c != '\'' && c != '"' && c != '$'
  }

  predicate OpensComment(s: string) {
    |s| >= 2 && ((s[0] == '-' && s[1] == '-') || (s[0] == '/' && s[1] == '*'))
  }

  /** The tokens the scanner can emit. */
  ghost predicate Scannable(t: Token) {
    match t.kind
    case Ident => true
    case Str => true
    case Other => t.text == "number" || t.text == "$"
    case Symbol =>
      || (|t.text| == 1 && IsPunctuation(t.text[0]))
      || (t.text != "" && (forall c | c in t.text :: IsOperatorChar(c)) && !OpensComment(t.text))
  }

  // --- runs -----------------------------------------------------------------

  lemma {:induction false} RunIsPrefix(s: string, p: char -> bool)
    ensures forall c | c in s[..RunLen(s, p)] :: p(c)
    ensures RunLen(s, p) < |s| ==> !p(s[RunLen(s, p)])
  {
    if s == "" || !p(s[0]) {
    } else {
      RunIsPrefix(s[1..], p);
      var n := RunLen(s[1..], p);
      assert s[..n + 1] == [s[0]] + s[1..][..n];
    }
  }

  /** A run ends where a byte stops it. */
  lemma {:induction false} RunStops(x: string, rest: string, p: char -> bool)
    requires forall c | c in x :: p(c)
    requires rest == "" || !p(rest[0])
    ensures RunLen(x + rest, p) == |x|
  {
    if x == "" {
      assert x + rest == rest;
    } else {
      assert (x + rest)[1..] == x[1..] + rest;
      RunStops(x[1..], rest, p);
    }
  }

  // --- quoted text ----------------------------------------------------------

  /** How a byte is written between quotes. */
  function Escaped(q: char, c: char): string { if c == q then [q, q] else [c] }

  lemma DoubledCons(q: char, t: string, rest: string)
    requires t != ""
    ensures Doubled(q, t) + [q] + rest == Escaped(q, t[0]) + (Doubled(q, t[1..]) + [q] + rest)
    ensures |Doubled(q, t)| == |Escaped(q, t[0])| + |Doubled(q, t[1..])|
  {
  }

  lemma StringTakes(c: char, d: string)
    ensures ReadString(Escaped('\'', c) + d, false) == Consume([c], |Escaped('\'', c)|, ReadString(d, false))
  {
    if c == '\'' {
      assert (['\'', '\''] + d)[2..] == d;
    } else {
      assert ([c] + d)[1..] == d;
    }
  }

  lemma IdentTakes(c: char, d: string)
    ensures ReadQuotedIdent(Escaped('"', c) + d) == Consume([c], |Escaped('"', c)|, ReadQuotedIdent(d))
  {
    if c == '"' {
      assert (['"', '"'] + d)[2..] == d;
    } else {
      assert ([c] + d)[1..] == d;
    }
  }

  lemma {:induction false} ReadsDoubledString(t: string, rest: string)
    requires rest == "" || rest[0] != '\''
    ensures ReadString(Doubled('\'', t) + ['\''] + rest, false) == Read(t, |Doubled('\'', t)| + 1, Closed)
  {
    if t == "" {
      assert Doubled('\'', t) + ['\''] + rest == "'" + rest;
    } else {
      var d := Doubled('\'', t[1..]) + ['\''] + rest;
      ReadsDoubledString(t[1..], rest);
      DoubledCons('\'', t, rest);
      StringTakes(t[0], d);
      assert t == [t[0]] + t[1..];
    }
  }

  lemma {:induction false} ReadsDoubledIdent(t: string, rest: string)
    requires rest == "" || rest[0] != '"'
    ensures ReadQuotedIdent(Doubled('"', t) + ['"'] + rest) == Read(t, |Doubled('"', t)| + 1, Closed)
  {
    if t == "" {
      assert Doubled('"', t) + ['"'] + rest == "\"" + rest;
    } else {
      var d := Doubled('"', t[1..]) + ['"'] + rest;
      ReadsDoubledIdent(t[1..], rest);
      DoubledCons('"', t, rest);
      IdentTakes(t[0], d);
      assert t == [t[0]] + t[1..];
    }
  }

  // --- one token ------------------------------------------------------------

  lemma TurnOnString(t: string, rest: string, ctx: Context)
    requires rest != "" && rest[0] == ' ' && !ctx.escape
    ensures Turn("'" + Doubled('\'', t) + "'" + rest, ctx)
         == Step([Token(Str, t)], |Doubled('\'', t)| + 2, Closed)
  {
    var s := "'" + Doubled('\'', t) + "'" + rest;
    assert s[1..] == Doubled('\'', t) + ['\''] + rest;
    ReadsDoubledString(t, rest);
  }

  lemma TurnOnIdent(t: string, rest: string, ctx: Context)
    requires rest != "" && rest[0] == ' '
    ensures Turn("\"" + Doubled('"', t) + "\"" + rest, ctx)
         == Step([Token(Ident, t)], |Doubled('"', t)| + 2, Closed)
  {
    var s := "\"" + Doubled('"', t) + "\"" + rest;
    assert s[1..] == Doubled('"', t) + ['"'] + rest;
    ReadsDoubledIdent(t, rest);
  }

  lemma TurnOnSymbol(t: Token, rest: string, ctx: Context)
    requires t.kind == Symbol && Scannable(t)
    requires rest != "" && rest[0] == ' '
    ensures Turn(t.text + rest, ctx) == Step([t], |t.text|, Closed)
  {
    var s := t.text + rest;
    assert s[0] == t.text[0];
    if IsPunctuation(t.text[0]) && |t.text| == 1 {
      assert t.text == [s[0]];
    } else {
      assert IsOperatorChar(s[0]) by { assert s[0] in t.text; }
      RunStops(t.text, rest, IsOperatorChar);
      assert s[..|t.text|] == t.text;
      assert |t.text| == 1 ==> s[1] == ' ';
      assert |t.text| >= 2 ==> s[1] == t.text[1];
    }
  }

  lemma TurnOnPrinted(t: Token, rest: string, ctx: Context)
    requires Scannable(t)
    requires rest != "" && rest[0] == ' ' && !ctx.escape
    ensures Turn(PrintToken(t) + rest, ctx) == Step([t], |PrintToken(t)|, Closed)
    ensures PrintToken(t) != ""
  {
    match t.kind
    case Ident =>
      TurnOnIdent(t.text, rest, ctx);
      assert PrintToken(t) + rest == "\"" + Doubled('"', t.text) + "\"" + rest;
    case Str =>
      TurnOnString(t.text, rest, ctx);
      assert PrintToken(t) + rest == "'" + Doubled('\'', t.text) + "'" + rest;
    case Symbol => TurnOnSymbol(t, rest, ctx);
    case Other =>
      var s := PrintToken(t) + rest;
      if t.text == "number" {
        RunStops("0", rest, IsNumberPart);
      } else {
        assert s[1] == ' ';
        assert TagLen(s[1..]) == 0;
      }
  }

  // --- the round trip -------------------------------------------------------

  lemma TurnsSkipSpace()
    ensures SkipsSpace(Turn)
  {
  }

  lemma ScanSpace(rest: string, ctx: Context)
    ensures Scan(" " + rest, ctx) == Scan(rest, FRESH)
  {
    TurnsSkipSpace();
    RunSpace(Turn, rest, ctx);
  }

  lemma ScanTurn(s: string, ctx: Context, t: Step)
    requires s != "" && t == Turn(s, ctx)
    ensures Scan(s, ctx) == t.tokens + After(Turn, s, ctx, t.len)
  {
    RunTurn(Turn, s, ctx, t);
  }

  /** Scanning the print of any scannable list gives the list. */
  lemma {:induction false} ScanPrint(ts: seq<Token>)
    requires forall t | t in ts :: Scannable(t)
    ensures Tokens(Print(ts)) == ts
  {
    if ts != [] {
      var p := PrintToken(ts[0]);
      var rest := " " + Print(ts[1..]);
      assert Print(ts) == p + rest;
      TurnOnPrinted(ts[0], rest, FRESH);
      ScanTurn(p + rest, FRESH, Step([ts[0]], |p|, Closed));
      assert (p + rest)[|p|..] == rest;
      ScanSpace(Print(ts[1..]), Advance(FRESH, (p + rest)[..|p|]));
      ScanPrint(ts[1..]);
      assert [ts[0]] + ts[1..] == ts;
    }
  }

  lemma TurnScannable(s: string, ctx: Context)
    requires s != ""
    ensures forall t | t in Turn(s, ctx).tokens :: Scannable(t)
  {
    var r := Turn(s, ctx);
    if r.tokens != [] && r.tokens[0].kind == Symbol && IsOperatorChar(s[0]) {
      RunIsPrefix(s, IsOperatorChar);
      var text := s[..RunLen(s, IsOperatorChar)];
      assert |text| >= 2 ==> text[0] == s[0] && text[1] == s[1];
    }
  }

  /** Everything the scanner emits is scannable. */
  lemma {:induction false} ScanScannable(s: string, ctx: Context)
    ensures forall t | t in Scan(s, ctx) :: Scannable(t)
    decreases |s|
  {
    if s != "" {
      TurnScannable(s, ctx);
      var t := Turn(s, ctx);
      ScanTurn(s, ctx, t);
      if t.len <= |s| {
        ScanScannable(s[t.len..], Advance(ctx, s[..t.len]));
      }
    }
  }

  /** The round trip, for every text: unterminated literals and E strings included. */
  lemma RoundTrip(sql: string)
    ensures Tokens(Print(Tokens(sql))) == Tokens(sql)
  {
    ScanScannable(sql, FRESH);
    ScanPrint(Tokens(sql));
  }

  /** The image of the scanner: exactly the lists of scannable tokens. */
  lemma Image(ts: seq<Token>)
    ensures (exists sql :: Tokens(sql) == ts) <==> (forall t | t in ts :: Scannable(t))
  {
    if forall t | t in ts :: Scannable(t) {
      ScanPrint(ts);
      assert Tokens(Print(ts)) == ts;
    } else if exists sql :: Tokens(sql) == ts {
      var sql :| Tokens(sql) == ts;
      ScanScannable(sql, FRESH);
    }
  }
}
