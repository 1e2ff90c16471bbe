/**
  A finished element does not depend on what follows it: what ScanLoop.dfy asks
  of a turn, proved of the scanner's turns, one kind of element at a time.
 */
module LexerBoundary {
  import opened Text
  import opened ScanLoop
  import opened Lexer
  import opened LexerRoundTrip

  // --- a finished element does not depend on what follows --------------------

  lemma {:induction false} RunLocal(s: string, u: string, k: nat, p: char -> bool)
    requires k <= |s| && RunLen(s, p) <= k
    requires RunLen(s, p) == k ==> u == "" || !p(u[0])
    ensures RunLen(s[..k] + u, p) == RunLen(s, p)
  {
    var n := RunLen(s, p);
    RunIsPrefix(s, p);
    var rest := s[n..k] + u;
    assert s[..k] + u == s[..n] + rest;
    RunStops(s[..n], rest, p);
  }

  lemma {:induction false} BlockLocal(s: string, u: string, k: nat, depth: nat)
    requires k <= |s|
    requires BlockComment(s, depth).end.Closed? && BlockComment(s, depth).len <= k
    ensures BlockComment(s[..k] + u, depth) == BlockComment(s, depth)
    decreases |s|
  {
    if depth == 0 || s == "" {
    } else {
      var v := s[..k] + u;
      if s[0] == '/' && HasAt(s, 1, '*') {
        BlockLocal(s[2..], u, k - 2, depth + 1);
        DropCut(s, k, u, 2);
      } else if s[0] == '*' && HasAt(s, 1, '/') {
        BlockLocal(s[2..], u, k - 2, depth - 1);
        DropCut(s, k, u, 2);
      } else {
        BlockNeedsTwo(s, depth);
        assert v[1] == s[1];
        BlockLocal(s[1..], u, k - 1, depth);
        DropCut(s, k, u, 1);
      }
    }
  }

  /** A comment still open cannot close in one byte. */
  lemma BlockNeedsTwo(s: string, depth: nat)
    requires depth > 0 && BlockComment(s, depth).end.Closed?
    ensures BlockComment(s, depth).len >= 2 && |s| >= 2
  {
    if !(s[0] == '/' && HasAt(s, 1, '*')) && !(s[0] == '*' && HasAt(s, 1, '/')) {
      BlockNeedsTwo(s[1..], depth);
    }
  }

  lemma {:induction false} StringLocal(s: string, u: string, k: nat, escapes: bool)
    requires k <= |s|
    requires ReadString(s, escapes).end.Closed? && ReadString(s, escapes).len <= k
    requires u == "" || u[0] != '\''
    ensures ReadString(s[..k] + u, escapes) == ReadString(s, escapes)
    decreases |s|
  {
    var v := s[..k] + u;
    assert v[0] == s[0];
    if escapes && s[0] == '\\' {
      StringLocal(s[2..], u, k - 2, escapes);
      DropCut(s, k, u, 2);
      assert v[1] == s[1];
    } else if s[0] == '\'' {
      if HasAt(s, 1, '\'') {
        StringLocal(s[2..], u, k - 2, escapes);
        DropCut(s, k, u, 2);
        assert v[1] == s[1];
      } else {
        assert !HasAt(v, 1, '\'');
      }
    } else {
      StringLocal(s[1..], u, k - 1, escapes);
      DropCut(s, k, u, 1);
    }
  }

  lemma {:induction false} QuotedIdentLocal(s: string, u: string, k: nat)
    requires k <= |s|
    requires ReadQuotedIdent(s).end.Closed? && ReadQuotedIdent(s).len <= k
    requires u == "" || u[0] != '"'
    ensures ReadQuotedIdent(s[..k] + u) == ReadQuotedIdent(s)
    decreases |s|
  {
    var v := s[..k] + u;
    assert v[0] == s[0];
    if s[0] == '"' {
      if HasAt(s, 1, '"') {
        QuotedIdentLocal(s[2..], u, k - 2);
        DropCut(s, k, u, 2);
        assert v[1] == s[1];
      } else {
        assert !HasAt(v, 1, '"');
      }
    } else {
      QuotedIdentLocal(s[1..], u, k - 1);
      DropCut(s, k, u, 1);
    }
  }

  lemma PrefixLocal(s: string, u: string, k: nat, pat: string)
    requires |pat| <= k <= |s|
    ensures pat <= s[..k] + u <==> pat <= s
  {
    var v := s[..k] + u;
    assert v[..|pat|] == s[..|pat|];
  }

  lemma IndexTail(s: string, v: string, pat: string)
    requires s != "" && v != "" && !(pat <= s) && !(pat <= v)
    requires Index(v[1..], pat) == Index(s[1..], pat)
    ensures Index(v, pat) == Index(s, pat)
  {
  }

  lemma {:induction false} IndexLocal(s: string, u: string, k: nat, pat: string)
    requires k <= |s|
    requires Index(s, pat).Some? && Index(s, pat).value + |pat| <= k
    ensures Index(s[..k] + u, pat) == Index(s, pat)
    decreases |s|
  {
    PrefixLocal(s, u, k, pat);
    if !(pat <= s) {
      IndexLocal(s[1..], u, k - 1, pat);
      DropCut(s, k, u, 1);
      IndexTail(s, s[..k] + u, pat);
    }
  }

  lemma TagLocal(s: string, u: string, k: nat)
    requires k <= |s| && TagLen(s) <= k
    requires Stops(u)
    ensures TagLen(s[..k] + u) == TagLen(s)
  {
    if k > 0 { assert (s[..k] + u)[0] == s[0]; }
    if s != "" && IsDigit(s[0]) {
      if k == 0 { assert s[..k] + u == u; }
    } else {
      RunLocal(s, u, k, IsIdentPart);
    }
  }

  /** What starts as a dollar quote still does, and what is a bare dollar stays one. */
  lemma DollarLocal(s: string, u: string, k: nat)
    requires 1 <= k <= |s| && s[0] == '$'
    requires Stops(u)
    requires DollarQuoted(s).Some? ==> DollarQuoted(s).value.end.Closed? && DollarQuoted(s).value.len <= k
    ensures DollarQuoted(s[..k] + u) == DollarQuoted(s)
  {
    var end := 1 + TagLen(s[1..]);
    if end < k {
      DollarLocalTag(s, u, k);
    } else {
      assert DollarQuoted(s).None?;
      DollarLocalCut(s, u, k);
    }
  }

  lemma BodyLocal(delim: string, rest: string, u: string, k: nat)
    requires k <= |rest|
    requires DollarBody(delim, rest).end.Closed? && DollarBody(delim, rest).len <= |delim| + k
    ensures DollarBody(delim, rest[..k] + u) == DollarBody(delim, rest)
  {
    IndexLocal(rest, u, k, delim);
  }

  /** The parts of a dollar quote whose tag lies before the cut. */
  lemma PartsLocal(s: string, u: string, k: nat, n: nat)
    requires 1 <= n < k <= |s|
    ensures (s[..k] + u)[n] == s[n] && (s[..k] + u)[..n + 1] == s[..n + 1]
    ensures (s[..k] + u)[n + 1..] == s[n + 1..][..k - (n + 1)] + u
    ensures (s[..k] + u)[1..] == s[1..][..k - 1] + u
  {
  }

  lemma DollarLocalTag(s: string, u: string, k: nat)
    requires 1 <= k <= |s| && 1 + TagLen(s[1..]) < k
    requires Stops(u)
    requires DollarQuoted(s).Some? ==> DollarQuoted(s).value.end.Closed? && DollarQuoted(s).value.len <= k
    ensures DollarQuoted(s[..k] + u) == DollarQuoted(s)
  {
    var end := 1 + TagLen(s[1..]);
    PartsLocal(s, u, k, end);
    TagLocal(s[1..], u, k - 1);
    if s[end] == '$' {
      BodyLocal(s[..end + 1], s[end + 1..], u, k - (end + 1));
    }
  }

  lemma DollarLocalCut(s: string, u: string, k: nat)
    requires 1 <= k <= |s| && k <= 1 + TagLen(s[1..])
    requires Stops(u)
    requires DollarQuoted(s).None?
    ensures DollarQuoted(s[..k] + u).None?
  {
    var v := s[..k] + u;
    DropCut(s, k, u, 1);
    TagCut(s[1..], u, k - 1);
    assert v[k] == u[0];
  }

  /** A tag cut short ends at the cut. */
  lemma TagCut(s: string, u: string, k: nat)
    requires k <= TagLen(s)
    requires Stops(u)
    ensures TagLen(s[..k] + u) == k
  {
    RunIsPrefix(s, IsIdentPart);
    var v := s[..k] + u;
    assert forall c | c in s[..k] :: c in s[..TagLen(s)];
    RunStops(s[..k], u, IsIdentPart);
    assert v[0] == if k > 0 then s[0] else u[0];
  }

  lemma TurnLocalDash(s: string, ctx: Context, k: nat, u: string)
    requires 1 <= k <= |s| && OverBy(Turn(s, ctx), k) && s[0] == '-'
    requires Holds(Turn(s, ctx), k, u)
    ensures Turn(s[..k] + u, ctx) == Turn(s, ctx)
  {
    var v := s[..k] + u;
    assert v[0] == s[0] && v[1] == if k > 1 then s[1] else u[0];
    if HasAt(s, 1, '-') {
      DropCut(s, k, u, 2);
      RunLocal(s[2..], u, k - 2, NotNewline);
    } else {
      RunLocal(s, u, k, IsOperatorChar);
      DropCut(s, k, u, RunLen(s, IsOperatorChar));
    }
  }

  lemma TurnLocalSlash(s: string, ctx: Context, k: nat, u: string)
    requires 1 <= k <= |s| && OverBy(Turn(s, ctx), k) && s[0] == '/'
    requires Holds(Turn(s, ctx), k, u)
    ensures Turn(s[..k] + u, ctx) == Turn(s, ctx)
  {
    var v := s[..k] + u;
    assert v[0] == s[0] && v[1] == if k > 1 then s[1] else u[0];
    if HasAt(s, 1, '*') {
      DropCut(s, k, u, 2);
      BlockLocal(s[2..], u, k - 2, 1);
    } else {
      RunLocal(s, u, k, IsOperatorChar);
      DropCut(s, k, u, RunLen(s, IsOperatorChar));
    }
  }

  lemma TurnLocal(s: string, ctx: Context, k: nat, u: string)
    requires 1 <= k <= |s| && OverBy(Turn(s, ctx), k)
    requires Holds(Turn(s, ctx), k, u)
    ensures Turn(s[..k] + u, ctx) == Turn(s, ctx)
  {
    var v := s[..k] + u;
    var c := s[0];
    var t := Turn(s, ctx);
    assert v[0] == c;
    DropCut(s, k, u, 1);
    if c == '-' {
      TurnLocalDash(s, ctx, k, u);
    } else if c == '/' {
      TurnLocalSlash(s, ctx, k, u);
    } else if c == '$' {
      DollarLocal(s, u, k);
    } else if c == '\'' {
      StringLocal(s[1..], u, k - 1, ctx.escape);
    } else if c == '"' {
      QuotedIdentLocal(s[1..], u, k - 1);
    } else if IsIdentStart(c) {
      RunLocal(s, u, k, IsIdentPart);
      DropCut(s, k, u, t.len);
    } else if IsDigit(c) {
      RunLocal(s, u, k, IsNumberPart);
    } else if IsOperatorChar(c) {
      RunLocal(s, u, k, IsOperatorChar);
      DropCut(s, k, u, t.len);
    }
  }

  // --- an element ends where a word does --------------------------------------

  lemma {:induction false} BlockClosing(s: string, depth: nat)
    requires depth > 0 && BlockComment(s, depth).end.Closed?
    ensures var n := BlockComment(s, depth).len; n >= 1 && s[n - 1] == '/'
    decreases |s|
  {
    if s[0] == '/' && HasAt(s, 1, '*') {
      BlockClosing(s[2..], depth + 1);
    } else if s[0] == '*' && HasAt(s, 1, '/') {
      if depth > 1 { BlockClosing(s[2..], depth - 1); }
    } else {
      BlockClosing(s[1..], depth);
    }
  }

  lemma {:induction false} StringClosing(s: string, escapes: bool)
    requires ReadString(s, escapes).end.Closed?
    ensures s[ReadString(s, escapes).len - 1] == '\''
    decreases |s|
  {
    if (escapes && s[0] == '\\') || (s[0] == '\'' && HasAt(s, 1, '\'')) {
      StringClosing(s[2..], escapes);
    } else if s[0] != '\'' {
      StringClosing(s[1..], escapes);
    }
  }

  lemma {:induction false} QuotedIdentClosing(s: string)
    requires ReadQuotedIdent(s).end.Closed?
    ensures s[ReadQuotedIdent(s).len - 1] == '"'
    decreases |s|
  {
    if s[0] == '"' && HasAt(s, 1, '"') {
      QuotedIdentClosing(s[2..]);
    } else if s[0] != '"' {
      QuotedIdentClosing(s[1..]);
    }
  }

  lemma TurnEndsWord(s: string, ctx: Context)
    requires s != "" && Turn(s, ctx).len < |s|
    ensures IsIdentPart(s[Turn(s, ctx).len - 1]) ==> !IsIdentPart(s[Turn(s, ctx).len])
  {
    var c := s[0];
    var t := Turn(s, ctx);
    if IsSpace(c) {
    } else if c == '-' && HasAt(s, 1, '-') {
      RunIsPrefix(s[2..], NotNewline);
    } else if c == '/' && HasAt(s, 1, '*') {
      BlockClosing(s[2..], 1);
    } else if c == '\'' {
      StringClosing(s[1..], ctx.escape);
    } else if c == '$' {
      if DollarQuoted(s).Some? {
        DollarClosing(s);
      }
    } else if c == '"' {
      QuotedIdentClosing(s[1..]);
    } else if IsIdentStart(c) {
      RunIsPrefix(s, IsIdentPart);
    } else if IsDigit(c) {
      RunIsPrefix(s, IsNumberPart);
    } else if IsOperatorChar(c) {
      RunIsPrefix(s, IsOperatorChar);
      assert s[t.len - 1] in s[..t.len];
    }
  }

  lemma DollarClosing(s: string)
    requires s != "" && s[0] == '$'
    requires DollarQuoted(s).Some? && DollarQuoted(s).value.end.Closed?
    ensures s[DollarQuoted(s).value.len - 1] == '$'
  {
    var end := 1 + TagLen(s[1..]);
    var delim := s[..end + 1];
    var close := Index(s[end + 1..], delim).value;
    assert s[end + 1..][close..close + |delim|][|delim| - 1] == '$';
  }

  /** The scanner's turns have what splitting a scan at a boundary takes. */
  lemma TurnsSplit()
    ensures Local(Turn) && SkipsSpace(Turn) && EndsWords(Turn)
  {
    TurnsSkipSpace();
    forall s, ctx, k, u | 1 <= k <= |s| && OverBy(Turn(s, ctx), k) && Holds(Turn(s, ctx), k, u)
      ensures Turn(s[..k] + u, ctx) == Turn(s, ctx)
    {
      TurnLocal(s, ctx, k, u);
    }
    forall s, ctx | s != "" && Turn(s, ctx).len < |s| && IsIdentPart(s[Turn(s, ctx).len - 1])
      ensures !IsIdentPart(s[Turn(s, ctx).len])
    {
      TurnEndsWord(s, ctx);
    }
  }
}
