/**
  Extraction from a text: extract of internal/sqlprobe/extract.go from end to end,
  and what isolation and invisibility come to when scanner and extractor meet.
 */
module ExtractText {
  import opened Text
  import opened ScanLoop
  import opened Lexer
  import opened LexerRoundTrip
  import opened LexerBoundary
  import opened LexerInvisible
  import LexerLoops
  import E = Extract
  import ExtractLoops
  import opened ExtractIsolation

  // --- a body wrapped in one dollar quote ---------------------------------------------

  /** unwrapDollarBody: one dollar quote around the whole input is taken off. */
  function UnwrapDollarBody(sql: string): string { Unwrapped(sql, TrimSpace(sql)) }

  /** s is the input without the blanks around it. */
  function Unwrapped(sql: string, s: string): string {
    if !HasPrefix(s, "$") then sql
    else match Index(s[1..], "$")
      case None => sql
      case Some(end) =>
        var delim := s[..end + 2];
        if !HasSuffix(s, delim) || |s| < 2 * |delim| then sql else s[|delim|..|s| - |delim|]
  }

  function Extract(sql: string): E.Findings {
    E.ExtractTokens(E.SQL, Tokens(UnwrapDollarBody(sql)))
  }

  method ExtractSql(sql: string) returns (found: E.Findings)
    ensures found == Extract(sql)
  {
    var tokens := LexerLoops.Tokenize(UnwrapDollarBody(sql));
    found := ExtractLoops.ExtractAll(E.SQL, tokens);
  }

  lemma {:induction false} IndexOfDollar(tag: string, rest: string)
    requires '$' !in tag
    ensures Index(tag + "$" + rest, "$") == Some(|tag|)
  {
    var s := tag + "$" + rest;
    if tag == "" {
      assert s == "$" + rest;
      assert "$" <= s;
    } else {
      assert s[0] == tag[0];
      assert s[1..] == tag[1..] + "$" + rest;
      IndexOfDollar(tag[1..], rest);
      assert !("$" <= s) by { assert s[0] != '$'; }
    }
  }

  lemma NothingToTrim(s: string)
    requires s != "" && !IsBlank(s[0]) && !IsBlank(s[|s| - 1])
    ensures UnwrapDollarBody(s) == Unwrapped(s, s)
  {
    assert TrimLeft(s, IsBlank) == s;
    assert TrimRight(s, IsBlank) == s;
  }

  lemma WrappedParts(tag: string, body: string)
    ensures var d := Delimiter(tag); var s := d + body + d;
      && s[0] == '$' && s[|s| - 1] == '$'
      && s[1..] == tag + "$" + (body + d)
      && s[..|tag| + 2] == d && s[|s| - |d|..] == d && s[|d|..|s| - |d|] == body
  {
  }

  lemma UnwrapWrapped(s: string, n: nat)
    requires HasPrefix(s, "$") && Index(s[1..], "$") == Some(n)
    requires HasSuffix(s, s[..n + 2]) && |s| >= 2 * (n + 2)
    ensures Unwrapped(s, s) == s[n + 2..|s| - (n + 2)]
  {
  }

  /** The form CREATE FUNCTION stores: whatever the body is, it is what is scanned. */
  lemma WrappedBodyIsCode(tag: string, body: string)
    requires '$' !in tag
    ensures UnwrapDollarBody(Delimiter(tag) + body + Delimiter(tag)) == body
  {
    var d := Delimiter(tag);
    var s := d + body + d;
    WrappedParts(tag, body);
    NothingToTrim(s);
    IndexOfDollar(tag, body + d);
    UnwrapWrapped(s, |tag|);
  }

  // --- what may be taken off ------------------------------------------------------------

  /** There is nothing to take off. */
  predicate StaysWhole(sql: string) { UnwrapDollarBody(sql) == sql }

  /** The text is a body between two delimiters of one tag. */
  ghost predicate IsWrapped(s: string, tag: string, body: string) {
    '$' !in tag && s == Delimiter(tag) + body + Delimiter(tag)
  }

  lemma {:induction false} IndexIsFirst(s: string)
    ensures Index(s, "$").Some? ==> '$' !in s[..Index(s, "$").value] && s[Index(s, "$").value] == '$'
  {
    if "$" <= s {
    } else if s != "" {
      IndexIsFirst(s[1..]);
      assert s[..1] == [s[0]];
      if Index(s[1..], "$").Some? {
        var j := Index(s[1..], "$").value;
        assert s[..j + 1] == [s[0]] + s[1..][..j];
      }
    }
  }

  lemma WrappedFrom(s: string, n: nat)
    requires HasPrefix(s, "$") && Index(s[1..], "$") == Some(n)
    requires HasSuffix(s, s[..n + 2]) && |s| >= 2 * (n + 2)
    ensures IsWrapped(s, s[1..n + 1], s[n + 2..|s| - (n + 2)])
  {
    IndexIsFirst(s[1..]);
    var tag := s[1..n + 1];
    assert s[1..][..n] == tag && s[1..][n] == '$' && s[0] == '$';
    assert Delimiter(tag) == s[..n + 2];
    assert s == s[..n + 2] + s[n + 2..|s| - (n + 2)] + s[|s| - (n + 2)..];
  }

  lemma UnwrappedParts(sql: string, s: string)
    ensures Unwrapped(sql, s) == sql || exists tag, body :: IsWrapped(s, tag, body) && Unwrapped(sql, s) == body
  {
    if Unwrapped(sql, s) != sql {
      var n := Index(s[1..], "$").value;
      WrappedFrom(s, n);
      assert IsWrapped(s, s[1..n + 1], s[n + 2..|s| - (n + 2)]);
    }
  }

  /** What is taken off is always a delimiter in front and the same delimiter at the end. */
  lemma TakenOffIsWrapped(sql: string)
    ensures StaysWhole(sql) || exists tag, body :: IsWrapped(TrimSpace(sql), tag, body) && UnwrapDollarBody(sql) == body
  {
    UnwrappedParts(sql, TrimSpace(sql));
  }

  lemma QuoteTurn(s: string)
    requires s != "" && s[0] == '$'
    ensures Turn(s, FRESH) == Step([], |s|, Closed) <==> DollarQuoted(s) == Some(Skip(|s|, Closed))
  {
  }

  lemma QuoteOpens(s: string)
    requires s != "" && s[0] == '$' && DollarQuoted(s).Some?
    ensures var n := TagLen(s[1..]);
      && n < |s[1..]| && s[1..][n] == '$'
      && DollarQuoted(s).value == DollarBody(s[..n + 2], s[n + 2..])
  {
  }

  lemma BodyEnds(d: string, body: string)
    requires DollarBody(d, body + d) == Skip(|d| + |body| + |d|, Closed)
    ensures Index(body + d, d) == Some(|body|)
  {
  }

  lemma WrappedRest(tag: string, body: string)
    ensures var d := Delimiter(tag); var s := d + body + d;
      s[1..] == tag + ("$" + (body + d)) && s[|tag| + 2..] == body + d && s[..|tag| + 2] == d && s[0] == '$'
  {
  }

  lemma WrappedTurn(tag: string, body: string)
    requires '$' !in tag
    requires DollarQuoted(Delimiter(tag) + body + Delimiter(tag))
          == Some(Skip(|Delimiter(tag) + body + Delimiter(tag)|, Closed))
    ensures WellFormed(Dollar(tag, body))
  {
    var d := Delimiter(tag);
    WrappedRest(tag, body);
    QuoteOpens(d + body + d);
    TagIsWhole(tag, body + d);
    BodyEnds(d, body);
  }

  /** A tag read up to its dollar has been read whole, so it is one. */
  lemma TagIsWhole(tag: string, rest: string)
    requires '$' !in tag
    ensures var s := tag + ("$" + rest);
      TagLen(s) < |s| && s[TagLen(s)] == '$' ==>
        TagLen(s) == |tag| && (tag == "" || !IsDigit(tag[0])) && forall c | c in tag :: IsIdentPart(c)
  {
    var s := tag + ("$" + rest);
    var n := TagLen(s);
    assert forall i | 0 <= i < |tag| :: s[i] == tag[i] && tag[i] in tag;
    assert s[|tag|] == '$' && s[..|tag|] == tag;
    RunIsPrefix(s, IsIdentPart);
    assert forall i | 0 <= i < RunLen(s, IsIdentPart) :: s[i] in s[..RunLen(s, IsIdentPart)];
  }

  /** The scanner takes it for one dollar quote exactly if the tag is one and the body does not hold the delimiter. */
  lemma OneQuoteExactly(tag: string, body: string)
    requires '$' !in tag
    ensures var s := Delimiter(tag) + body + Delimiter(tag);
      Turn(s, FRESH) == Step([], |s|, Closed) <==> WellFormed(Dollar(tag, body))
  {
    var s := Delimiter(tag) + body + Delimiter(tag);
    if WellFormed(Dollar(tag, body)) {
      DollarTurn(tag, body, "");
      assert Render(Dollar(tag, body)) + "" == s;
    }
    WrappedParts(tag, body);
    QuoteTurn(s);
    if DollarQuoted(s) == Some(Skip(|s|, Closed)) {
      WrappedTurn(tag, body);
    }
  }

  /** Two quotes lose their outer halves: what was code between them becomes the string. */
  lemma TwoQuotesUnwrapped(a: string, code: string, b: string)
    ensures UnwrapDollarBody("$$" + (a + "$$" + code + "$$" + b) + "$$") == a + "$$" + code + "$$" + b
  {
    WrappedBodyIsCode("", a + "$$" + code + "$$" + b);
    assert Delimiter("") == "$$";
  }

  // --- texts ----------------------------------------------------------------------------

  /** The scanner, at the end of the text, is not inside a comment or a literal. */
  predicate Complete(sql: string) {
    Boundary(Turn, sql, FRESH, |sql|)
  }

  lemma SemicolonTurn(b: string)
    ensures Scan(";" + " " + b, FRESH) == [SEMICOLON] + Tokens(b)
  {
    var u := " " + b;
    assert ";" + " " + b == ";" + u;
    TurnOnSymbol(SEMICOLON, u, FRESH);
    ScanTurn(";" + u, FRESH, Step([SEMICOLON], 1, Closed));
    assert (";" + u)[1..] == u;
    ScanSpace(b, Advance(FRESH, (";" + u)[..1]));
  }

  /** Two statements in one text. */
  function Both(a: string, b: string): string { a + (" " + (";" + " " + b)) }

  lemma BothTokens(a: string, b: string)
    requires Complete(a)
    ensures Tokens(Both(a, b)) == Tokens(a) + [SEMICOLON] + Tokens(b)
  {
    TurnsSplit();
    RunConcat(Turn, a, ";" + " " + b);
    SemicolonTurn(b);
    assert Tokens(a) + ([SEMICOLON] + Tokens(b)) == Tokens(a) + [SEMICOLON] + Tokens(b);
  }

  /** The first character that is no blank. */
  function FirstMark(s: string): Option<char> {
    if s == "" then None else if IsBlank(s[0]) then FirstMark(s[1..]) else Some(s[0])
  }

  lemma {:induction false} FirstMarkIs(s: string)
    ensures FirstMark(s) == var t := TrimLeft(s, IsBlank); if t == "" then None else Some(t[0])
  {
    if s != "" && IsBlank(s[0]) { FirstMarkIs(s[1..]); }
  }

  lemma {:induction false} FirstMarkConcat(a: string, b: string)
    ensures FirstMark(a + b) == if FirstMark(a).Some? then FirstMark(a) else FirstMark(b)
  {
    if a == "" {
      assert a + b == b;
    } else {
      assert (a + b)[1..] == a[1..] + b;
      FirstMarkConcat(a[1..], b);
    }
  }

  /** Only then can there be a dollar quote around it all. */
  predicate OpensWithDollar(s: string) { FirstMark(s) == Some('$') }

  lemma TrimmedMark(s: string)
    requires TrimSpace(s) != ""
    ensures FirstMark(s) == Some(TrimSpace(s)[0])
  {
    FirstMarkIs(s);
    var t := TrimLeft(s, IsBlank);
    assert TrimSpace(s) == TrimRight(t, IsBlank);
  }

  lemma NothingToTakeOff(sql: string)
    requires !OpensWithDollar(sql)
    ensures UnwrapDollarBody(sql) == sql && Extract(sql) == E.ExtractTokens(E.SQL, Tokens(sql))
  {
    if TrimSpace(sql) != "" {
      TrimmedMark(sql);
      assert !HasPrefix(TrimSpace(sql), "$");
    }
  }

  lemma BothOpen(a: string, b: string)
    requires !OpensWithDollar(a)
    ensures !OpensWithDollar(Both(a, b))
  {
    var rest := ";" + " " + b;
    FirstMarkConcat(a, " " + rest);
    FirstMarkConcat(" ", rest);
    assert rest[0] == ';';
  }

  /** A text that does not open with a dollar stays whole, alone and in front of another. */
  lemma NoDollarStaysWhole(a: string, b: string)
    requires !OpensWithDollar(a)
    ensures StaysWhole(a) && StaysWhole(Both(a, b))
  {
    BothOpen(a, b);
    NothingToTakeOff(a);
    NothingToTakeOff(Both(a, b));
  }

  /**
    Statement isolation, on texts: what is extracted from two statements is what is
    extracted from each, if the first is finished and the scan of it meets no subquery it
    leaves open, and no dollar quote is taken off.
   */
  lemma TextsAreIsolated(a: string, b: string)
    requires Complete(a) && Contained(E.SQL, Tokens(a))
    requires StaysWhole(a) && StaysWhole(b) && StaysWhole(Both(a, b))
    ensures Extract(Both(a, b)) == Extract(a).Then(Extract(b))
  {
    BothTokens(a, b);
    StatementsAreIsolated(E.SQL, Tokens(a), Tokens(b));
  }

  lemma QuoteIsNothing(tag: string, body: string)
    requires WellFormed(Dollar(tag, body))
    ensures var a := Render(Dollar(tag, body)); Complete(a) && Tokens(a) == []
  {
    var a := Render(Dollar(tag, body));
    DollarTurn(tag, body, "");
    assert a + "" == a;
    var t := Step([], |a|, Closed);
    assert Turn(a, FRESH) == t;
    ScanTurn(a, FRESH, t);
    assert a[|a|..] == "";
  }

  /**
    Where a quote is taken off, they need not be: alone, a quoted body is code, and in front
    of another statement it is a string. So the two are isolated exactly if nothing is found
    in the body.
   */
  lemma QuotedIsIsolatedExactly(tag: string, body: string, b: string)
    requires WellFormed(Dollar(tag, body))
    requires StaysWhole(b) && StaysWhole(Both(Render(Dollar(tag, body)), b))
    ensures var a := Render(Dollar(tag, body));
      && Extract(Both(a, b)) == Extract(b)
      && (Extract(Both(a, b)) == Extract(a).Then(Extract(b)) <==> E.ExtractTokens(E.SQL, Tokens(body)) == E.NOTHING)
  {
    QuotedAlone(tag, body);
    QuotedInFront(tag, body, b);
    NothingBefore(E.ExtractTokens(E.SQL, Tokens(body)), Extract(b));
  }

  /** Behind another statement it is a string as well. */
  lemma QuotedBehindExactly(a: string, tag: string, body: string)
    requires WellFormed(Dollar(tag, body)) && Complete(a) && Contained(E.SQL, Tokens(a))
    requires StaysWhole(a) && StaysWhole(Both(a, Render(Dollar(tag, body))))
    ensures var b := Render(Dollar(tag, body));
      && Extract(Both(a, b)) == Extract(a)
      && (Extract(Both(a, b)) == Extract(a).Then(Extract(b)) <==> E.ExtractTokens(E.SQL, Tokens(body)) == E.NOTHING)
  {
    QuotedAlone(tag, body);
    QuoteIsNothing(tag, body);
    BothTokens(a, Render(Dollar(tag, body)));
    LastIsNothing(Tokens(a));
    NothingBehind(Extract(a), E.ExtractTokens(E.SQL, Tokens(body)));
  }

  lemma LastIsNothing(t1: seq<Token>)
    requires Contained(E.SQL, t1)
    ensures E.ExtractTokens(E.SQL, t1 + [SEMICOLON] + []) == E.ExtractTokens(E.SQL, t1)
  {
    StatementsAreIsolated(E.SQL, t1, []);
    NothingBehind(E.ExtractTokens(E.SQL, t1), E.NOTHING);
  }

  lemma NothingBehind(a: E.Findings, b: E.Findings)
    ensures a == a.Then(b) <==> b == E.NOTHING
  {
    assert |a.Then(b).joins| == |a.joins| + |b.joins| && |a.Then(b).preds| == |a.preds| + |b.preds|;
    if b == E.NOTHING {
      assert a.Then(b).joins == a.joins && a.Then(b).preds == a.preds;
    }
  }

  lemma QuotedAlone(tag: string, body: string)
    requires WellFormed(Dollar(tag, body))
    ensures Extract(Render(Dollar(tag, body))) == E.ExtractTokens(E.SQL, Tokens(body))
  {
    assert '$' !in tag;
    WrappedBodyIsCode(tag, body);
  }

  lemma QuotedInFront(tag: string, body: string, b: string)
    requires WellFormed(Dollar(tag, body))
    requires StaysWhole(b) && StaysWhole(Both(Render(Dollar(tag, body)), b))
    ensures Extract(Both(Render(Dollar(tag, body)), b)) == Extract(b)
  {
    QuoteIsNothing(tag, body);
    BothTokens(Render(Dollar(tag, body)), b);
    FirstIsNothing(Tokens(b));
  }

  lemma FirstIsNothing(t2: seq<Token>)
    ensures E.ExtractTokens(E.SQL, [] + [SEMICOLON] + t2) == E.ExtractTokens(E.SQL, t2)
  {
    StatementsAreIsolated(E.SQL, [], t2);
    ThenThen(E.ExtractTokens(E.SQL, t2), E.NOTHING, E.NOTHING);
  }

  lemma NothingBefore(a: E.Findings, b: E.Findings)
    ensures b == a.Then(b) <==> a == E.NOTHING
  {
    assert |a.Then(b).joins| == |a.joins| + |b.joins| && |a.Then(b).preds| == |a.preds| + |b.preds|;
    ThenThen(b, E.NOTHING, E.NOTHING);
  }

  lemma InsertOpens(s: string, k: nat, f: Filler)
    requires k <= |s| && !OpensWithDollar(s)
    requires f.Dollar? ==> FirstMark(s[..k]).Some?
    ensures !OpensWithDollar(Insert(s, k, Render(f)))
  {
    var rest := Render(f) + (" " + s[k..]);
    assert s == s[..k] + s[k..];
    FirstMarkConcat(s[..k], s[k..]);
    FirstMarkConcat(s[..k], " " + rest);
    FirstMarkConcat(" ", rest);
    assert rest[0] == if f.Block? then '/' else if f.Line? then '-' else '$';
  }

  /** A filler stays invisible in a text that does not open with a dollar, nor does by the filler. */
  lemma InsertStaysWhole(s: string, k: nat, f: Filler)
    requires k <= |s| && !OpensWithDollar(s)
    requires f.Dollar? ==> FirstMark(s[..k]).Some?
    ensures StaysWhole(s) && StaysWhole(Insert(s, k, Render(f)))
  {
    InsertOpens(s, k, f);
    NothingToTakeOff(s);
    NothingToTakeOff(Insert(s, k, Render(f)));
  }

  /**
    A filler between two statements or inside one changes nothing of what is extracted,
    unless it parts an escape, or a dollar quote is taken off.
   */
  lemma FillerIsNotEvidence(s: string, k: nat, f: Filler)
    requires k <= |s| && Boundary(Turn, s, FRESH, k) && WellFormed(f) && !SplitsEscape(s, k)
    requires StaysWhole(s) && StaysWhole(Insert(s, k, Render(f)))
    ensures Extract(Insert(s, k, Render(f))) == Extract(s)
  {
    FillerInvisible(s, k, f);
  }

  /** The same of a body in a dollar quote, whatever is in it. */
  lemma FillerInBody(tag: string, body: string, k: nat, f: Filler)
    requires '$' !in tag
    requires k <= |body| && Boundary(Turn, body, FRESH, k) && WellFormed(f) && !SplitsEscape(body, k)
    ensures Extract(Delimiter(tag) + Insert(body, k, Render(f)) + Delimiter(tag))
         == Extract(Delimiter(tag) + body + Delimiter(tag))
  {
    WrappedBodyIsCode(tag, body);
    WrappedBodyIsCode(tag, Insert(body, k, Render(f)));
    FillerInvisible(body, k, f);
  }
}
