/**
  The scanning loop, for any way of taking one turn: what a scan emits, where it
  stands between two elements, and why a scan splits there.

  What a turn needs to know about the text behind it is a `Context`: the only
  look behind in internal/sqlprobe/token.go is isEscapePrefixed, which reads at
  most two bytes back.
 */
module ScanLoop {
  import opened Text

  datatype Kind = Ident | Symbol | Other | Str

  datatype Token = Token(kind: Kind, text: string)

  /** escape: the bytes just before are an E prefix. part: the byte just before is an identifier part. */
  datatype Context = Context(escape: bool, part: bool)

  const FRESH := Context(false, false)

  predicate IsSpace(c: char) { c == ' ' || c == '\t' || c == '\n' || c == '\r' }

  predicate IsDigit(c: char) { '0' <= c <= '9' }

  predicate IsIdentStart(c: char) {
    c == '_' || 'a' <= c <= 'z' || 'A' <= c <= 'Z' || c >= '\U{0080}'
  }

  predicate IsIdentPart(c: char) { IsIdentStart(c) || IsDigit(c) }

  predicate IsNumberPart(c: char) { IsIdentPart(c) || c == '.' }

  predicate IsOperatorChar(c: char) {
    || c == '=' || c == '<' || c == '>' || c == '!' || c == '~' || c == '+' || c == '-' || c == '*' || c == '/'
    || c == '%' || c == '^' || c == '&' || c == '|' || c == '@' || c == '#' || c == '?' || c == ':'
  }

  predicate IsE(c: char) { c == 'e' || c == 'E' }

  predicate NotNewline(c: char) { c != '\n' }

  predicate HasAt(s: string, i: nat, c: char) { i < |s| && s[i] == c }

  /** How a scanned element ended: by itself, because a newline follows, or because the text ran out. */
  datatype End = Closed | AtNewline | Open

  /** One turn of the scanning loop: what it emits, how many bytes it consumes, how the element ended. */
  datatype Step = Step(tokens: seq<Token>, len: nat, end: End)

  type Turner = (string, Context) -> Step

  /** The context after consuming x from context ctx. */
  function Advance(ctx: Context, x: string): Context {
    if |x| == 0 then ctx
    else
      var last := x[|x| - 1];
      var before := if |x| == 1 then ctx.part else IsIdentPart(x[|x| - 2]);
      Context(IsE(last) && !before, IsIdentPart(last))
  }

  /** Turn after turn, until the text is consumed. */
  function Run(f: Turner, s: string, ctx: Context): seq<Token> {
    if s == "" then []
    else
      var t := f(s, ctx);
      if t.len == 0 || t.len >= |s| then t.tokens
      else t.tokens + Run(f, s[t.len..], Advance(ctx, s[..t.len]))
  }

  /** What a scan still emits once it has consumed n bytes. */
  function After(f: Turner, s: string, ctx: Context, n: nat): seq<Token> {
    if n <= |s| then Run(f, s[n..], Advance(ctx, s[..n])) else []
  }

  /** The element is over by byte k: it does not reach for what follows. */
  predicate OverBy(t: Step, k: nat) {
    1 <= t.len <= k && (t.end.Closed? || (t.end.AtNewline? && t.len < k))
  }

  /** Scanning s, the scanner stands between two finished elements at byte k. */
  predicate Boundary(f: Turner, s: string, ctx: Context, k: nat)
    requires k <= |s|
  {
    k == 0 ||
    var t := f(s, ctx);
    OverBy(t, k) && Boundary(f, s[t.len..], Advance(ctx, s[..t.len]), k - t.len)
  }

  /** The tokens emitted up to a boundary. */
  function Before(f: Turner, s: string, ctx: Context, k: nat): seq<Token>
    requires k <= |s| && Boundary(f, s, ctx, k)
  {
    if k == 0 then []
    else
      var t := f(s, ctx);
      t.tokens + Before(f, s[t.len..], Advance(ctx, s[..t.len]), k - t.len)
  }

  lemma AdvanceConcat(ctx: Context, s: string, n: nat, k: nat)
    requires n <= k <= |s|
    ensures Advance(Advance(ctx, s[..n]), s[n..k]) == Advance(ctx, s[..k])
  {
  }

  lemma AfterZero(f: Turner, s: string, ctx: Context)
    ensures After(f, s, ctx, 0) == Run(f, s, ctx)
  {
    assert s[0..] == s;
  }

  lemma AfterEnd(f: Turner, s: string, ctx: Context, n: nat)
    requires n >= |s|
    ensures After(f, s, ctx, n) == []
  {
  }

  lemma AfterAfter(f: Turner, s: string, ctx: Context, n: nat, m: nat)
    requires n <= |s|
    ensures After(f, s[n..], Advance(ctx, s[..n]), m) == After(f, s, ctx, n + m)
  {
    if n + m <= |s| {
      DropDrop(s, n, n + m);
      AdvanceConcat(ctx, s, n, n + m);
    }
  }

  /** One turn of the loop and the rest of the scan. */
  lemma RunTurn(f: Turner, s: string, ctx: Context, t: Step)
    requires s != "" && t == f(s, ctx) && t.len > 0
    ensures Run(f, s, ctx) == t.tokens + After(f, s, ctx, t.len)
  {
  }

  /** Two texts that differ after a common turn. */
  lemma RunsDiffer(f: Turner, s: string, v: string, ctx: Context, t: Step)
    requires s != "" && v != "" && t == f(s, ctx) == f(v, ctx)
    requires 0 < t.len <= |s| && t.len <= |v| && s[..t.len] == v[..t.len]
    requires Run(f, s[t.len..], Advance(ctx, s[..t.len])) != Run(f, v[t.len..], Advance(ctx, s[..t.len]))
    ensures Run(f, s, ctx) != Run(f, v, ctx)
  {
    var a, b := After(f, s, ctx, t.len), After(f, v, ctx, t.len);
    RunTurn(f, s, ctx, t);
    RunTurn(f, v, ctx, t);
    assert (t.tokens + a)[|t.tokens|..] == a && (t.tokens + b)[|t.tokens|..] == b;
  }

  /** A turn that takes x, in front of u. */
  lemma RunTakes(f: Turner, x: string, u: string, ctx: Context, t: Step)
    requires x != "" && t == f(x + u, ctx) && t.len == |x|
    ensures Run(f, x + u, ctx) == t.tokens + Run(f, u, Advance(ctx, x))
  {
    RunTurn(f, x + u, ctx, t);
    assert (x + u)[|x|..] == u && (x + u)[..|x|] == x;
  }

  /** One turn more, seen from the start of the text. */
  lemma AfterOne(f: Turner, s: string, ctx: Context, i: nat, t: Step)
    requires i < |s| && t == f(s[i..], Advance(ctx, s[..i])) && t.len > 0
    ensures After(f, s, ctx, i) == t.tokens + After(f, s, ctx, i + t.len)
  {
    RunTurn(f, s[i..], Advance(ctx, s[..i]), t);
    AfterAfter(f, s, ctx, i, t.len);
  }

  /** Text that cannot carry on an element in front of it, unless that is a run of operator characters. */
  predicate Stops(u: string) { u != "" && (u[0] == ' ' || u[0] == '-' || u[0] == '/') }

  /** The turn took a run of operator characters. */
  predicate TakesOperator(t: Step) {
    t.tokens != [] && t.tokens[0].kind == Symbol && t.tokens[0].text != "" && IsOperatorChar(t.tokens[0].text[0])
  }

  /** The element ends where u starts, and u does not change it. */
  predicate Holds(t: Step, k: nat, u: string) {
    Stops(u) && (u[0] == ' ' || t.len < k || !TakesOperator(t))
  }

  /** A finished element does not depend on what follows it, if that opens with a space or cannot carry it on. */
  ghost predicate Local(f: Turner) {
    forall s, ctx, k, u {:trigger f(s[..k] + u, ctx)} ::
      1 <= k <= |s| && OverBy(f(s, ctx), k) && Holds(f(s, ctx), k, u) ==> f(s[..k] + u, ctx) == f(s, ctx)
  }

  lemma LocalAt(f: Turner, s: string, ctx: Context, k: nat, u: string)
    requires Local(f) && 1 <= k <= |s| && OverBy(f(s, ctx), k) && Holds(f(s, ctx), k, u)
    ensures f(s[..k] + u, ctx) == f(s, ctx)
  {
  }

  /** Leading space leaves nothing behind that the scan remembers. */
  ghost predicate SkipsSpace(f: Turner) {
    forall s, ctx {:trigger f(s, ctx)} :: s != "" && s[0] == ' ' ==> f(s, ctx) == Step([], 1, Closed)
  }

  lemma RunSpace(f: Turner, rest: string, ctx: Context)
    requires SkipsSpace(f)
    ensures Run(f, " " + rest, ctx) == Run(f, rest, FRESH)
  {
    var s := " " + rest;
    assert s[1..] == rest;
    assert f(s, ctx) == Step([], 1, Closed);
    if rest != "" {
      assert Advance(ctx, s[..1]) == FRESH;
    }
  }

  lemma BeforeTurn(f: Turner, s: string, ctx: Context, k: nat, t: Step)
    requires 0 < k <= |s| && Boundary(f, s, ctx, k) && t == f(s, ctx)
    ensures OverBy(t, k) && Boundary(f, s[t.len..], Advance(ctx, s[..t.len]), k - t.len)
    ensures Before(f, s, ctx, k) == t.tokens + Before(f, s[t.len..], Advance(ctx, s[..t.len]), k - t.len)
  {
  }

  lemma ToTurn(f: Turner, s: string, ctx: Context, k: nat, t: Step, u: string, tail: seq<Token>)
    requires 0 < k <= |s| && t == f(s, ctx) == f(s[..k] + u, ctx) && OverBy(t, k)
    requires Boundary(f, s[t.len..], Advance(ctx, s[..t.len]), k - t.len) && Boundary(f, s, ctx, k)
    requires Run(f, s[t.len..][..k - t.len] + u, Advance(ctx, s[..t.len]))
          == Before(f, s[t.len..], Advance(ctx, s[..t.len]), k - t.len) + tail
    ensures Run(f, s[..k] + u, ctx) == Before(f, s, ctx, k) + tail
  {
    DropCut(s, k, u, t.len);
    RunTurn(f, s[..k] + u, ctx, t);
    BeforeTurn(f, s, ctx, k, t);
    Regroup(t.tokens, Before(f, s[t.len..], Advance(ctx, s[..t.len]), k - t.len), tail);
  }

  /** The last element before the boundary is a run of operator characters. */
  predicate EndsInOperator(f: Turner, s: string, ctx: Context, k: nat)
    requires k <= |s| && Boundary(f, s, ctx, k)
    decreases k
  {
    k > 0 &&
    var t := f(s, ctx);
    if t.len == k then TakesOperator(t) else EndsInOperator(f, s[t.len..], Advance(ctx, s[..t.len]), k - t.len)
  }

  lemma BehindTurn(ctx: Context, s: string, n: nat, k: nat)
    requires n <= k <= |s|
    ensures Advance(Advance(ctx, s[..n]), s[n..][..k - n]) == Advance(ctx, s[..k])
  {
    DropDrop(s, n, k);
    AdvanceConcat(ctx, s, n, k);
  }

  lemma FirstTurn(f: Turner, s: string, ctx: Context, k: nat, u: string, t: Step)
    requires 0 < k <= |s| && Boundary(f, s, ctx, k) && t == f(s, ctx)
    requires Stops(u) && (u[0] == ' ' || !EndsInOperator(f, s, ctx, k))
    ensures OverBy(t, k) && Holds(t, k, u)
    ensures Boundary(f, s[t.len..], Advance(ctx, s[..t.len]), k - t.len)
    ensures u[0] == ' ' || !EndsInOperator(f, s[t.len..], Advance(ctx, s[..t.len]), k - t.len)
  {
    BeforeTurn(f, s, ctx, k, t);
    LastOrNot(f, s, ctx, k, t);
  }

  /** Up to k, every turn is the same with u behind k. */
  predicate Agrees(f: Turner, s: string, ctx: Context, k: nat, u: string)
    requires k <= |s|
    decreases k
  {
    k == 0 ||
    var t := f(s, ctx);
    1 <= t.len <= k && f(s[..k] + u, ctx) == t && Agrees(f, s[t.len..], Advance(ctx, s[..t.len]), k - t.len, u)
  }

  lemma AgreesOneMore(f: Turner, s: string, ctx: Context, k: nat, u: string, t: Step)
    requires Local(f) && 0 < k <= |s| && t == f(s, ctx) && OverBy(t, k) && Holds(t, k, u)
    requires Agrees(f, s[t.len..], Advance(ctx, s[..t.len]), k - t.len, u)
    ensures Agrees(f, s, ctx, k, u)
  {
    LocalAt(f, s, ctx, k, u);
  }

  lemma {:induction false} TurnsAgree(f: Turner, s: string, ctx: Context, k: nat, u: string)
    requires Local(f)
    requires k <= |s| && Boundary(f, s, ctx, k)
    requires Stops(u) && (u[0] == ' ' || !EndsInOperator(f, s, ctx, k))
    ensures Agrees(f, s, ctx, k, u)
    decreases k
  {
    if k > 0 {
      var t := f(s, ctx);
      FirstTurn(f, s, ctx, k, u, t);
      TurnsAgree(f, s[t.len..], Advance(ctx, s[..t.len]), k - t.len, u);
      AgreesOneMore(f, s, ctx, k, u, t);
    }
  }

  lemma NothingBefore(f: Turner, s: string, ctx: Context, u: string)
    ensures Run(f, s[..0] + u, ctx) == Before(f, s, ctx, 0) + Run(f, u, Advance(ctx, s[..0]))
  {
    assert s[..0] + u == u;
  }

  lemma OneTurnMore(f: Turner, s: string, ctx: Context, k: nat, u: string, t: Step)
    requires 0 < k <= |s| && Boundary(f, s, ctx, k) && t == f(s, ctx) == f(s[..k] + u, ctx) && OverBy(t, k)
    requires var left, ctx' := s[t.len..], Advance(ctx, s[..t.len]);
             && Boundary(f, left, ctx', k - t.len)
             && Run(f, left[..k - t.len] + u, ctx')
                == Before(f, left, ctx', k - t.len) + Run(f, u, Advance(ctx', left[..k - t.len]))
    ensures Run(f, s[..k] + u, ctx) == Before(f, s, ctx, k) + Run(f, u, Advance(ctx, s[..k]))
  {
    BehindTurn(ctx, s, t.len, k);
    ToTurn(f, s, ctx, k, t, u, Run(f, u, Advance(ctx, s[..k])));
  }

  lemma {:induction false} RunAgreeing(f: Turner, s: string, ctx: Context, k: nat, u: string)
    requires k <= |s| && Boundary(f, s, ctx, k) && Agrees(f, s, ctx, k, u)
    ensures Run(f, s[..k] + u, ctx) == Before(f, s, ctx, k) + Run(f, u, Advance(ctx, s[..k]))
    decreases k
  {
    if k == 0 {
      NothingBefore(f, s, ctx, u);
    } else {
      var t := f(s, ctx);
      BeforeTurn(f, s, ctx, k, t);
      RunAgreeing(f, s[t.len..], Advance(ctx, s[..t.len]), k - t.len, u);
      OneTurnMore(f, s, ctx, k, u, t);
    }
  }

  /**
    Up to a boundary, nothing depends on the text beyond it, if that text opens with a
    space, or cannot carry on the last element.
   */
  lemma RunToBoundary(f: Turner, s: string, ctx: Context, k: nat, u: string)
    requires Local(f)
    requires k <= |s| && Boundary(f, s, ctx, k)
    requires Stops(u) && (u[0] == ' ' || !EndsInOperator(f, s, ctx, k))
    ensures Run(f, s[..k] + u, ctx) == Before(f, s, ctx, k) + Run(f, u, Advance(ctx, s[..k]))
  {
    TurnsAgree(f, s, ctx, k, u);
    RunAgreeing(f, s, ctx, k, u);
  }

  /** Texts that differ behind a turn they share differ. */
  lemma DifferBehind(f: Turner, s: string, ctx: Context, k: nat, u: string, t: Step)
    requires Local(f) && k <= |s| && t == f(s, ctx) && OverBy(t, k) && t.len < k && Holds(t, k, u)
    requires var ctx' := Advance(ctx, s[..t.len]);
             Run(f, s[t.len..][..k - t.len] + u, ctx') != Run(f, s[t.len..], ctx')
    ensures Run(f, s[..k] + u, ctx) != Run(f, s, ctx)
  {
    LocalAt(f, s, ctx, k, u);
    DropCut(s, k, u, t.len);
    RunsDiffer(f, s, s[..k] + u, ctx, t);
  }

  lemma LastOrNot(f: Turner, s: string, ctx: Context, k: nat, t: Step)
    requires 0 < k <= |s| && Boundary(f, s, ctx, k) && t == f(s, ctx)
    requires OverBy(t, k) && Boundary(f, s[t.len..], Advance(ctx, s[..t.len]), k - t.len)
    ensures EndsInOperator(f, s, ctx, k)
       <==> if t.len == k then TakesOperator(t) else EndsInOperator(f, s[t.len..], Advance(ctx, s[..t.len]), k - t.len)
    ensures t.len == k ==> !EndsInOperator(f, s[t.len..], Advance(ctx, s[..t.len]), k - t.len)
  {
  }

  /** Up to a boundary, and from a space on. */
  lemma RunToSpace(f: Turner, s: string, ctx: Context, k: nat, rest: string)
    requires Local(f) && SkipsSpace(f)
    requires k <= |s| && Boundary(f, s, ctx, k)
    ensures Run(f, s[..k] + (" " + rest), ctx) == Before(f, s, ctx, k) + Run(f, rest, FRESH)
  {
    RunToBoundary(f, s, ctx, k, " " + rest);
    RunSpace(f, rest, Advance(ctx, s[..k]));
  }

  lemma AfterTurn(f: Turner, s: string, ctx: Context, k: nat, n: nat)
    requires n <= k <= |s|
    ensures After(f, s[n..], Advance(ctx, s[..n]), k - n) == After(f, s, ctx, k)
    ensures After(f, s, ctx, n) == Run(f, s[n..], Advance(ctx, s[..n]))
  {
    AfterAfter(f, s, ctx, n, k - n);
  }

  lemma ThroughTurn(f: Turner, s: string, ctx: Context, t: Step, before: seq<Token>, after: seq<Token>)
    requires s != "" && t == f(s, ctx) && t.len > 0
    requires After(f, s, ctx, t.len) == before + after
    ensures Run(f, s, ctx) == (t.tokens + before) + after
  {
    RunTurn(f, s, ctx, t);
    Regroup(t.tokens, before, after);
  }

  /** A scan goes through its boundaries. */
  lemma {:induction false} RunThroughBoundary(f: Turner, s: string, ctx: Context, k: nat)
    requires k <= |s| && Boundary(f, s, ctx, k)
    ensures Run(f, s, ctx) == Before(f, s, ctx, k) + After(f, s, ctx, k)
    decreases k
  {
    if k == 0 {
      AfterZero(f, s, ctx);
    } else {
      var t := f(s, ctx);
      BeforeTurn(f, s, ctx, k, t);
      RunThroughBoundary(f, s[t.len..], Advance(ctx, s[..t.len]), k - t.len);
      AfterTurn(f, s, ctx, k, t.len);
      ThroughTurn(f, s, ctx, t, Before(f, s[t.len..], Advance(ctx, s[..t.len]), k - t.len), After(f, s, ctx, k));
    }
  }

  /** A text the scanner finishes. */
  lemma RunWhole(f: Turner, a: string)
    requires Boundary(f, a, FRESH, |a|)
    ensures Run(f, a, FRESH) == Before(f, a, FRESH, |a|)
  {
    RunThroughBoundary(f, a, FRESH, |a|);
    assert After(f, a, FRESH, |a|) == [];
  }

  /** Text the scanner finishes, a space, and more text: one scan after the other. */
  lemma RunConcat(f: Turner, a: string, rest: string)
    requires Local(f) && SkipsSpace(f) && Boundary(f, a, FRESH, |a|)
    ensures Run(f, a + (" " + rest), FRESH) == Run(f, a, FRESH) + Run(f, rest, FRESH)
  {
    RunToSpace(f, a, FRESH, |a|, rest);
    assert a[..|a|] == a;
    RunWhole(f, a);
  }

  /** An identifier or number is never cut in two. */
  predicate WordBreak(s: string, ctx: Context) {
    s != "" && IsIdentPart(s[0]) ==> !ctx.part
  }

  ghost predicate EndsWords(f: Turner) {
    forall s, ctx {:trigger f(s, ctx)} ::
      s != "" && 1 <= f(s, ctx).len < |s| && IsIdentPart(s[f(s, ctx).len - 1]) ==> !IsIdentPart(s[f(s, ctx).len])
  }

  lemma {:induction false} BoundaryBreaksWords(f: Turner, s: string, ctx: Context, k: nat)
    requires EndsWords(f)
    requires k <= |s| && Boundary(f, s, ctx, k) && WordBreak(s, ctx)
    ensures WordBreak(s[k..], Advance(ctx, s[..k]))
    decreases k
  {
    if k == 0 {
      assert s[k..] == s;
    } else {
      var t := f(s, ctx);
      BoundaryBreaksWords(f, s[t.len..], Advance(ctx, s[..t.len]), k - t.len);
      DropDrop(s, t.len, k);
      AdvanceConcat(ctx, s, t.len, k);
    }
  }
}
