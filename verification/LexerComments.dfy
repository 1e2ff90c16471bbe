/**
  A comment written without a space in front of it. The scanner of
  internal/sqlprobe/token.go takes a run of operator characters to its end before it
  looks for a comment, so the comment is seen exactly where no such run ends.
 */
module LexerComments {
  import opened Text
  import opened ScanLoop
  import opened Lexer
  import opened LexerRoundTrip
  import opened LexerBoundary
  import opened LexerInvisible

  predicate IsComment(f: Filler) { !f.Dollar? && WellFormed(f) }

  /** The text with the comment at byte k, and nothing else. */
  function Put(s: string, k: nat, f: Filler): string
    requires k <= |s|
  {
    s[..k] + (Render(f) + s[k..])
  }

  /** A comment leaves nothing behind, whatever is in front of it. */
  lemma CommentVanishes(f: Filler, rest: string, ctx: Context)
    requires IsComment(f)
    ensures Scan(Render(f) + rest, ctx) == Scan(rest, FRESH)
  {
    match f
    case Block(body) =>
      BlockTurn(body, rest, ctx);
      RunTakes(Turn, Render(f), rest, ctx, Step([], |Render(f)|, Closed));
      assert Advance(ctx, Render(f)) == FRESH;
    case Line(text) =>
      var x := "--" + text;
      LineTurn(text, rest, ctx);
      assert "--" + text + "\n" + rest == x + ("\n" + rest);
      RunTakes(Turn, x, "\n" + rest, ctx, Step([], |x|, AtNewline));
      LineBreak(rest, Advance(ctx, x));
  }

  /** Behind anything but an operator, a comment is a comment. */
  lemma CommentSeen(s: string, k: nat, f: Filler)
    requires k <= |s| && Boundary(Turn, s, FRESH, k) && IsComment(f)
    requires !EndsInOperator(Turn, s, FRESH, k)
    ensures Tokens(Put(s, k, f)) == Before(Turn, s, FRESH, k) + Scan(s[k..], FRESH)
  {
    TurnsSplit();
    RunToBoundary(Turn, s, FRESH, k, Render(f) + s[k..]);
    CommentVanishes(f, s[k..], Advance(FRESH, s[..k]));
  }

  // --- behind an operator -------------------------------------------------------------------

  lemma {:induction false} RunGoesOn(x: string, rest: string, p: char -> bool)
    requires forall c | c in x :: p(c)
    ensures RunLen(x + rest, p) == |x| + RunLen(rest, p)
  {
    if x == "" {
      assert x + rest == rest;
    } else {
      assert (x + rest)[1..] == x[1..] + rest;
      assert x[0] in x && forall c | c in x[1..] :: c in x;
      RunGoesOn(x[1..], rest, p);
    }
  }

  predicate IsOperatorRun(r: string) { r != "" && forall c | c in r :: IsOperatorChar(c) }

  predicate IsOpener(opener: string) { opener == "--" || opener == "/*" }

  predicate OpensComment(s: string) { "--" <= s || "/*" <= s }

  lemma OperatorTurn(v: string, ctx: Context)
    requires v != "" && IsOperatorChar(v[0]) && !OpensComment(v)
    ensures Turn(v, ctx) == Step([Token(Symbol, v[..RunLen(v, IsOperatorChar)])], RunLen(v, IsOperatorChar), Closed)
  {
    if |v| > 1 { assert v[..2] == [v[0], v[1]]; }
  }

  lemma OpenerRun(r: string, opener: string, rest: string)
    requires IsOperatorRun(r) && IsOpener(opener)
    ensures RunLen(r + (opener + rest), IsOperatorChar) == |r| + 2 + RunLen(rest, IsOperatorChar)
  {
    RunGoesOn(r, opener + rest, IsOperatorChar);
    RunGoesOn(opener, rest, IsOperatorChar);
  }

  lemma OpensAtTheFront(r: string, opener: string, rest: string)
    requires r != "" && |opener| == 2
    ensures OpensComment(r + (opener + rest)) <==> OpensComment(r + opener)
  {
    assert (r + (opener + rest))[..2] == (r + opener)[..2];
  }

  lemma TakenWhole(r: string, opener: string, rest: string, n: nat)
    requires |opener| == 2 && n <= |rest|
    ensures (r + (opener + rest))[..|r| + 2 + n] == r + (opener + rest[..n])
  {
  }

  /** Whatever the run, the opener behind it becomes part of the operator, unless the two open a comment earlier. */
  lemma OperatorTakesOpener(r: string, opener: string, rest: string, ctx: Context)
    requires IsOperatorRun(r) && IsOpener(opener) && !OpensComment(r + opener)
    ensures var n := RunLen(rest, IsOperatorChar);
      Turn(r + (opener + rest), ctx) == Step([Token(Symbol, r + (opener + rest[..n]))], |r| + 2 + n, Closed)
  {
    var v, n := r + (opener + rest), RunLen(rest, IsOperatorChar);
    OpenerRun(r, opener, rest);
    OpensAtTheFront(r, opener, rest);
    assert v[0] == r[0] && r[0] in r;
    OperatorTurn(v, ctx);
    TakenWhole(r, opener, rest, n);
  }

  /** The only run that opens a comment together with an opener: one dash and two more. */
  lemma OpensEarlier(s: string, ctx: Context, opener: string)
    requires s != "" && TakesOperator(Turn(s, ctx)) && IsOpener(opener)
    ensures var r := s[..Turn(s, ctx).len];
      && IsOperatorRun(r) && Turn(s, ctx).tokens == [Token(Symbol, r)]
      && (OpensComment(r + opener) <==> r == "-" && opener == "--")
  {
    var t := Turn(s, ctx);
    var r := s[..t.len];
    RunIsPrefix(s, IsOperatorChar);
    assert t == Step([Token(Symbol, r)], RunLen(s, IsOperatorChar), Closed);
    assert (r + opener)[0] == s[0];
    if |r| > 1 {
      assert (r + opener)[1] == s[1];
    } else {
      assert (r + opener)[1] == opener[0];
    }
  }

  function Opener(f: Filler): string
    requires IsComment(f)
  {
    if f.Block? then "/*" else "--"
  }

  function Behind(f: Filler): string
    requires IsComment(f)
  {
    match f case Block(body) => body + "*/" case Line(text) => text + "\n"
  }

  lemma RenderIsOpener(f: Filler, rest: string)
    requires IsComment(f)
    ensures Render(f) + rest == Opener(f) + (Behind(f) + rest)
  {
  }

  /** Three dashes are a comment from the first one on, and the minus is gone. */
  lemma MinusVanishes(s: string, ctx: Context, f: Filler)
    requires s != "" && TakesOperator(Turn(s, ctx)) && Turn(s, ctx).len == 1 && s[0] == '-'
    requires IsComment(f) && f.Line?
    ensures Scan(Put(s, 1, f), ctx) != Scan(s, ctx)
  {
    var longer := Line("-" + f.text);
    assert Put(s, 1, f) == Render(longer) + s[1..];
    CommentVanishes(longer, s[1..], ctx);
    ScanTurn(s, ctx, Turn(s, ctx));
    assert Advance(ctx, s[..1]) == FRESH;
    assert |Scan(s, ctx)| == 1 + |Scan(s[1..], FRESH)|;
  }

  lemma OperatorGrows(s: string, ctx: Context, f: Filler, k: nat)
    requires 0 < k <= |s| && TakesOperator(Turn(s, ctx)) && Turn(s, ctx).len == k
    requires IsComment(f) && !OpensComment(s[..k] + Opener(f))
    ensures Scan(Put(s, k, f), ctx) != Scan(s, ctx)
  {
    var r, v := s[..k], Put(s, k, f);
    OpensEarlier(s, ctx, Opener(f));
    RenderIsOpener(f, s[k..]);
    var rest := Behind(f) + s[k..];
    assert v == r + (Opener(f) + rest);
    OperatorTakesOpener(r, Opener(f), rest, ctx);
    ScanTurn(s, ctx, Turn(s, ctx));
    ScanTurn(v, ctx, Turn(v, ctx));
    assert Scan(s, ctx)[0].text == r;
    assert |Scan(v, ctx)[0].text| > |r|;
  }

  lemma OperatorChanges(s: string, ctx: Context, f: Filler, k: nat)
    requires 0 < k <= |s| && TakesOperator(Turn(s, ctx)) && Turn(s, ctx).len == k && IsComment(f)
    ensures Scan(Put(s, k, f), ctx) != Scan(s, ctx)
  {
    OpensEarlier(s, ctx, Opener(f));
    if OpensComment(s[..k] + Opener(f)) {
      MinusVanishes(s, ctx, f);
    } else {
      OperatorGrows(s, ctx, f, k);
    }
  }

  lemma SwallowedLater(s: string, ctx: Context, k: nat, f: Filler, t: Step)
    requires k <= |s| && t == Turn(s, ctx) && OverBy(t, k) && t.len < k && IsComment(f)
    requires Scan(Put(s[t.len..], k - t.len, f), Advance(ctx, s[..t.len])) != Scan(s[t.len..], Advance(ctx, s[..t.len]))
    ensures Scan(Put(s, k, f), ctx) != Scan(s, ctx)
  {
    TurnsSplit();
    DropDrop(s, t.len, k);
    DifferBehind(Turn, s, ctx, k, Render(f) + s[k..], t);
  }

  /** Behind an operator, a comment changes what the text says. */
  lemma {:induction false} CommentSwallowed(s: string, ctx: Context, k: nat, f: Filler)
    requires k <= |s| && Boundary(Turn, s, ctx, k) && EndsInOperator(Turn, s, ctx, k) && IsComment(f)
    ensures Scan(Put(s, k, f), ctx) != Scan(s, ctx)
    decreases k
  {
    var t := Turn(s, ctx);
    BeforeTurn(Turn, s, ctx, k, t);
    LastOrNot(Turn, s, ctx, k, t);
    if t.len == k {
      OperatorChanges(s, ctx, f, k);
    } else {
      CommentSwallowed(s[t.len..], Advance(ctx, s[..t.len]), k - t.len, f);
      SwallowedLater(s, ctx, k, f, t);
    }
  }

  /**
    A comment put at a boundary, with no space around it, changes nothing exactly when the
    element in front of it is no run of operator characters, and it does not part E from
    an escaped literal.
   */
  lemma CommentInvisibleExactly(s: string, k: nat, f: Filler)
    requires k <= |s| && Boundary(Turn, s, FRESH, k) && IsComment(f)
    ensures Tokens(Put(s, k, f)) == Tokens(s) <==> !EndsInOperator(Turn, s, FRESH, k) && !SplitsEscape(s, k)
  {
    if EndsInOperator(Turn, s, FRESH, k) {
      CommentSwallowed(s, FRESH, k, f);
    } else {
      CommentSeen(s, k, f);
      ForgettingShows(s, k);
    }
  }

  /** One such text: the opener joins the operator, and the comment is scanned as code. */
  lemma OperatorSwallowsOpener(rest: string)
    ensures Tokens("=/*" + (" " + rest)) == [Token(Symbol, "=/*")] + Tokens(rest)
  {
    var t := Token(Symbol, "=/*");
    TurnOnSymbol(t, " " + rest, FRESH);
    RunTakes(Turn, t.text, " " + rest, FRESH, Step([t], 3, Closed));
    ScanSpace(rest, Advance(FRESH, t.text));
  }
}
