/**
  Comments and dollar-quoted blocks are invisible, and a string literal is
  exactly one token: the inserting theorems.

  The one exception is the place between an E prefix and its literal when that
  literal holds a backslash: `SplitsEscape` says exactly when.
 */
module LexerInvisible {
  import opened Text
  import opened ScanLoop
  import opened Lexer
  import opened LexerRoundTrip
  import opened LexerBoundary

  /** What the scanner consumes without emitting anything. */
  datatype Filler =
    | Block(body: string)
    | Line(text: string)
    | Dollar(tag: string, body: string)

  function Delimiter(tag: string): string { "$" + tag + "$" }

  function Render(f: Filler): string {
    match f
    case Block(body) => "/*" + body + "*/"
    case Line(text) => "--" + text + "\n"
    case Dollar(tag, body) => Delimiter(tag) + body + Delimiter(tag)
  }

  /**
    Block: the comments opened in the body are closed in it. Line: one line.
    Dollar: a tag, and a body the closing delimiter does not occur in.
   */
  predicate WellFormed(f: Filler) {
    match f
    case Block(body) => BlockComment(body + "*/", 1) == Skip(|body| + 2, Closed)
    case Line(text) => '\n' !in text
    case Dollar(tag, body) =>
      && (tag == "" || !IsDigit(tag[0])) && (forall c | c in tag :: IsIdentPart(c))
      && Index(body + Delimiter(tag), Delimiter(tag)) == Some(|body|)
  }

  /** Byte k is the quote of a literal with an E prefix, and the prefix changes what the literal says. */
  predicate SplitsEscape(s: string, k: nat)
    requires k <= |s|
  {
    && k < |s| && s[k] == '\''
    && Advance(FRESH, s[..k]).escape
    && '\\' in ReadString(s[k + 1..], false).text
  }

  // --- nesting --------------------------------------------------------------

  lemma FurtherTwice(n: nat, m: nat, r: Skip)
    ensures Further(n, Further(m, r)) == Further(n + m, r)
  {
  }

  lemma OneDeeper(x: string, depth: nat)
    requires depth > 0
    ensures BlockComment("/*" + x, depth) == Further(2, BlockComment(x, depth + 1))
  {
    assert ("/*" + x)[2..] == x;
  }

  lemma DropFront(a: string, b: string, n: nat)
    requires n <= |a|
    ensures (a + b)[n..] == a[n..] + b
  {
  }

  /** A comment that closes is skipped as a whole, however deep it is nested. */
  lemma {:induction false} CommentNests(closed: string, inner: nat, rest: string, depth: nat)
    requires inner > 0 && BlockComment(closed, inner) == Skip(|closed|, Closed)
    ensures BlockComment(closed + rest, inner + depth) == Further(|closed|, BlockComment(rest, depth))
    decreases |closed|
  {
    BlockNeedsTwo(closed, inner);
    var s := closed + rest;
    assert s[0] == closed[0] && s[1] == closed[1];
    if closed[0] == '/' && closed[1] == '*' {
      DropFront(closed, rest, 2);
      CommentNests(closed[2..], inner + 1, rest, depth);
    } else if closed[0] == '*' && closed[1] == '/' {
      DropFront(closed, rest, 2);
      if inner > 1 {
        CommentNests(closed[2..], inner - 1, rest, depth);
      } else {
        assert closed[2..] + rest == rest;
      }
    } else {
      DropFront(closed, rest, 1);
      CommentNests(closed[1..], inner, rest, depth);
    }
  }

  /** A well-formed comment, put in front of a body inside a comment, changes nothing either. */
  lemma NestedComment(inner: string, rest: string, depth: nat)
    requires WellFormed(Block(inner)) && depth > 0
    ensures BlockComment(Render(Block(inner)) + rest, depth) == Further(|inner| + 4, BlockComment(rest, depth))
  {
    var closed := inner + "*/";
    CommentNests(closed, 1, rest, depth);
    assert Render(Block(inner)) + rest == "/*" + (closed + rest);
    OneDeeper(closed + rest, depth);
    FurtherTwice(2, |closed|, BlockComment(rest, depth));
  }

  // --- a filler emits nothing ------------------------------------------------

  lemma BlockTurn(body: string, u: string, ctx: Context)
    requires WellFormed(Block(body))
    ensures Turn(Render(Block(body)) + u, ctx) == Step([], |body| + 4, Closed)
  {
    var s := Render(Block(body)) + u;
    var closed := body + "*/";
    assert s[2..] == closed[..|closed|] + u;
    BlockLocal(closed, u, |closed|, 1);
  }

  lemma LineTurn(text: string, u: string, ctx: Context)
    requires WellFormed(Line(text))
    ensures Turn("--" + text + "\n" + u, ctx) == Step([], |text| + 2, AtNewline)
  {
    var s := "--" + text + "\n" + u;
    assert s[2..] == text + ("\n" + u);
    RunStops(text, "\n" + u, NotNewline);
  }

  lemma FoundBefore(body: string, d: string, u: string)
    requires Index(body + d, d) == Some(|body|)
    ensures Index(body + (d + u), d) == Some(|body|)
  {
    IndexLocal(body + d, u, |body + d|, d);
    assert (body + d)[..|body + d|] + u == body + (d + u);
  }

  lemma Enclose(d: string, body: string, u: string)
    ensures d + body + d + u == d + (body + (d + u))
  {
  }

  lemma RenderDollar(tag: string, body: string, u: string)
    ensures Render(Dollar(tag, body)) + u == Delimiter(tag) + (body + (Delimiter(tag) + u))
  {
    Enclose(Delimiter(tag), body, u);
  }

  lemma DollarTurn(tag: string, body: string, u: string)
    requires WellFormed(Dollar(tag, body))
    ensures Turn(Render(Dollar(tag, body)) + u, FRESH) == Step([], 2 * |tag| + 4 + |body|, Closed)
  {
    FoundBefore(body, Delimiter(tag), u);
    DollarOpens(tag, body + (Delimiter(tag) + u));
    RenderDollar(tag, body, u);
  }

  lemma DollarOpens(tag: string, after: string)
    requires (tag == "" || !IsDigit(tag[0])) && (forall c | c in tag :: IsIdentPart(c))
    requires Index(after, Delimiter(tag)).Some?
    ensures Turn(Delimiter(tag) + after, FRESH)
         == Step([], 2 * |tag| + 4 + Index(after, Delimiter(tag)).value, Closed)
  {
    var d := Delimiter(tag);
    var s := d + after;
    var end := 1 + |tag|;
    assert s[1..] == tag + ("$" + after);
    RunStops(tag, "$" + after, IsIdentPart);
    assert TagLen(s[1..]) == |tag|;
    assert s[end] == '$' && s[..end + 1] == d && s[end + 1..] == after;
  }

  /** A turn without tokens, then a space. */
  lemma SkipThenSpace(x: string, rest: string)
    requires x != "" && Turn(x + (" " + rest), FRESH) == Step([], |x|, Closed)
    ensures Scan(x + (" " + rest), FRESH) == Scan(rest, FRESH)
  {
    RunTakes(Turn, x, " " + rest, FRESH, Step([], |x|, Closed));
    ScanSpace(rest, Advance(FRESH, x));
  }

  lemma LineThenSpace(text: string, rest: string)
    requires WellFormed(Line(text))
    ensures Scan("--" + text + "\n" + (" " + rest), FRESH) == Scan(rest, FRESH)
  {
    var x, u := "--" + text, " " + rest;
    LineTurn(text, u, FRESH);
    assert "--" + text + "\n" + u == x + ("\n" + u);
    RunTakes(Turn, x, "\n" + u, FRESH, Step([], |x|, AtNewline));
    LineBreak(u, Advance(FRESH, x));
    ScanSpace(rest, FRESH);
  }

  /** A filler followed by a space is as good as nothing. */
  lemma FillerEmitsNothing(f: Filler, rest: string)
    requires WellFormed(f)
    ensures Scan(Render(f) + (" " + rest), FRESH) == Scan(rest, FRESH)
  {
    match f
    case Block(body) =>
      BlockTurn(body, " " + rest, FRESH);
      SkipThenSpace(Render(f), rest);
    case Line(text) => LineThenSpace(text, rest);
    case Dollar(tag, body) =>
      DollarTurn(tag, body, " " + rest);
      SkipThenSpace(Render(f), rest);
  }

  lemma LineBreak(u: string, ctx: Context)
    ensures Scan("\n" + u, ctx) == Scan(u, FRESH)
  {
    var s := "\n" + u;
    assert s[1..] == u;
    ScanTurn(s, ctx, Step([], 1, Closed));
    assert Advance(ctx, s[..1]) == FRESH;
  }

  // --- when the text behind matters -----------------------------------------

  lemma {:induction false} NoBackslash(s: string)
    requires '\\' !in ReadString(s, false).text
    ensures ReadString(s, true) == ReadString(s, false)
    decreases |s|
  {
    if s == "" {
    } else if s[0] == '\'' {
      if HasAt(s, 1, '\'') { NoBackslash(s[2..]); }
    } else {
      assert s[0] == ReadString(s, false).text[0];
      NoBackslash(s[1..]);
    }
  }

  lemma ConsDiffers(c: char, a: string, b: string)
    requires a != b
    ensures [c] + a != [c] + b
  {
    assert ([c] + a)[1..] == a && ([c] + b)[1..] == b;
  }

  /** m backslashes. */
  function Backslashes(m: nat): string { seq(m, _ => '\\') }

  /** Two backslashes: one with escapes, two without. */
  lemma PairOfBackslashes(s: string)
    requires |s| > 1 && s[0] == '\\' && s[1] == '\\'
    ensures ReadString(s, true).text == ['\\'] + ReadString(s[2..], true).text
    ensures ReadString(s, false).text == ['\\'] + (['\\'] + ReadString(s[2..], false).text)
  {
    assert s[1..][1..] == s[2..];
  }

  /** Read with escapes, a literal never catches up with the plain reading plus a run of backslashes. */
  lemma {:induction false} EscapesNeverCatchUp(s: string, m: nat)
    requires m > 0
    ensures ReadString(s, true).text != Backslashes(m) + ReadString(s, false).text
    decreases |s|
  {
    var plain := ReadString(s, false).text;
    if |s| > 1 && s[0] == '\\' && s[1] == '\\' {
      PairOfBackslashes(s);
      var plain' := ReadString(s[2..], false).text;
      EscapesNeverCatchUp(s[2..], m + 1);
      ConsDiffers('\\', ReadString(s[2..], true).text, Backslashes(m + 1) + plain');
      assert Backslashes(m) + plain == ['\\'] + (Backslashes(m + 1) + plain');
    } else {
      assert (Backslashes(m) + plain)[0] == '\\';
      var esc := ReadString(s, true).text;
      assert esc == "" || esc[0] != '\\';
    }
  }

  /** With a backslash in it, a literal says different things with and without escapes. */
  lemma {:induction false} BackslashTells(s: string)
    requires '\\' in ReadString(s, false).text
    ensures ReadString(s, true).text != ReadString(s, false).text
    decreases |s|
  {
    if s[0] == '\'' {
      BackslashTells(s[2..]);
      ConsDiffers('\'', ReadString(s[2..], true).text, ReadString(s[2..], false).text);
    } else if s[0] != '\\' {
      BackslashTells(s[1..]);
      ConsDiffers(s[0], ReadString(s[1..], true).text, ReadString(s[1..], false).text);
    } else if |s| > 1 && s[1] == '\\' {
      PairOfBackslashes(s);
      EscapesNeverCatchUp(s[2..], 1);
      assert Backslashes(1) == ['\\'];
      ConsDiffers('\\', ReadString(s[2..], true).text, ['\\'] + ReadString(s[2..], false).text);
    } else {
      assert ReadString(s, false).text[0] == '\\';
      assert ReadString(s, true).text == "" || ReadString(s, true).text[0] == s[1];
    }
  }

  /** The text behind changes the scan exactly when it turns on escapes that the literal uses. */
  lemma ContextMatters(r: string, ctx: Context)
    requires WordBreak(r, ctx)
    ensures Scan(r, ctx) == Scan(r, FRESH)
       <==> !(r != "" && r[0] == '\'' && ctx.escape && '\\' in ReadString(r[1..], false).text)
  {
    if r == "" {
    } else if r[0] == '\'' && ctx.escape {
      if '\\' in ReadString(r[1..], false).text {
        BackslashTells(r[1..]);
        ScanTurn(r, ctx, Turn(r, ctx));
        ScanTurn(r, FRESH, Turn(r, FRESH));
        assert Scan(r, ctx)[0] == Token(Str, ReadString(r[1..], true).text);
        assert Scan(r, FRESH)[0] == Token(Str, ReadString(r[1..], false).text);
      } else {
        NoBackslash(r[1..]);
        assert Turn(r, ctx) == Turn(r, FRESH);
        SameAfter(r, ctx);
      }
    } else {
      assert Turn(r, ctx) == Turn(r, FRESH);
      SameAfter(r, ctx);
    }
  }

  lemma SameAfter(r: string, ctx: Context)
    requires r != "" && WordBreak(r, ctx) && Turn(r, ctx) == Turn(r, FRESH)
    ensures Scan(r, ctx) == Scan(r, FRESH)
  {
    var t := Turn(r, ctx);
    ScanTurn(r, ctx, t);
    ScanTurn(r, FRESH, t);
    if t.len <= |r| {
      assert Advance(ctx, r[..t.len]) == Advance(FRESH, r[..t.len]);
    }
  }

  // --- the theorems ---------------------------------------------------------

  /** Text between two spaces, put at a boundary. */
  function Insert(s: string, k: nat, x: string): string
    requires k <= |s|
  {
    s[..k] + (" " + (x + (" " + s[k..])))
  }

  lemma ScanInserted(s: string, k: nat, x: string)
    requires k <= |s| && Boundary(Turn, s, FRESH, k)
    ensures Tokens(Insert(s, k, x)) == Before(Turn, s, FRESH, k) + Scan(x + (" " + s[k..]), FRESH)
  {
    TurnsSplit();
    RunToSpace(Turn, s, FRESH, k, x + (" " + s[k..]));
  }

  /**
    Scanning on from a boundary without what is behind it comes to the same, except between E
    and an escaped literal.
   */
  lemma ForgettingShows(s: string, k: nat)
    requires k <= |s| && Boundary(Turn, s, FRESH, k)
    ensures Before(Turn, s, FRESH, k) + Scan(s[k..], FRESH) == Tokens(s) <==> !SplitsEscape(s, k)
  {
    var ctx := Advance(FRESH, s[..k]);
    var before := Before(Turn, s, FRESH, k);
    var rest := s[k..];
    TurnsSplit();
    RunThroughBoundary(Turn, s, FRESH, k);
    assert Tokens(s) == before + Scan(rest, ctx);
    BoundaryBreaksWords(Turn, s, FRESH, k);
    ContextMatters(rest, ctx);
    assert rest != "" ==> rest[1..] == s[k + 1..];
    assert (before + Scan(rest, FRESH))[|before|..] == Scan(rest, FRESH);
    assert (before + Scan(rest, ctx))[|before|..] == Scan(rest, ctx);
  }

  /** A filler at a boundary leaves the token list as it was, except between E and an escaped literal. */
  lemma FillerInvisible(s: string, k: nat, f: Filler)
    requires k <= |s| && Boundary(Turn, s, FRESH, k) && WellFormed(f)
    ensures Tokens(Insert(s, k, Render(f))) == Tokens(s) <==> !SplitsEscape(s, k)
  {
    ScanInserted(s, k, Render(f));
    FillerEmitsNothing(f, s[k..]);
    ForgettingShows(s, k);
  }

  lemma LiteralThenSpace(t: string, rest: string)
    ensures Scan(PrintToken(Token(Str, t)) + (" " + rest), FRESH) == [Token(Str, t)] + Scan(rest, FRESH)
  {
    var p := PrintToken(Token(Str, t));
    TurnOnPrinted(Token(Str, t), " " + rest, FRESH);
    RunTakes(Turn, p, " " + rest, FRESH, Step([Token(Str, t)], |p|, Closed));
    ScanSpace(rest, Advance(FRESH, p));
  }

  /** A string literal adds exactly one token, whatever it contains. */
  lemma LiteralIsOneToken(s: string, k: nat, t: string)
    requires k <= |s| && Boundary(Turn, s, FRESH, k)
    ensures Tokens(Insert(s, k, PrintToken(Token(Str, t))))
         == Before(Turn, s, FRESH, k) + [Token(Str, t)] + Scan(s[k..], FRESH)
  {
    ScanInserted(s, k, PrintToken(Token(Str, t)));
    LiteralThenSpace(t, s[k..]);
    Regroup(Before(Turn, s, FRESH, k), [Token(Str, t)], Scan(s[k..], FRESH));
  }

  /** The exception is real: the comment takes the E away from its literal. */
  lemma EscapeSplit()
    ensures Boundary(Turn, "E'\\\\'", FRESH, 1) && SplitsEscape("E'\\\\'", 1)
    ensures Tokens(Insert("E'\\\\'", 1, Render(Block("")))) != Tokens("E'\\\\'")
  {
    var s := "E'\\\\'";
    RunStops("E", s[1..], IsIdentPart);
    assert "E" + s[1..] == s;
    assert Turn(s, FRESH).len == 1;
    assert s[2..] == "\\\\'";
    assert s[2..][1..] == "\\'";
    assert "\\'"[1..] == "'";
    assert ReadString("'", false) == Read("", 1, Closed);
    assert ReadString("\\'", false) == Read("\\", 2, Closed);
    assert '\\' in ReadString(s[2..], false).text;
    assert BlockComment("*/", 1) == Skip(2, Closed);
    assert "" + "*/" == "*/";
    FillerInvisible(s, 1, Block(""));
  }
}
