/**
  Names: a bare word arrives with its capitals made small, a quoted one as it is. Two texts
  that differ only in the case of their bare words are the same to the extractor.
 */
module LexerWords {
  import opened Text
  import opened ScanLoop
  import opened Lexer
  import opened LexerRoundTrip
  import opened LexerBoundary
  import opened LexerElements

  predicate IsCapital(c: char) { 'A' <= c <= 'Z' }

  predicate IsSmall(c: char) { 'a' <= c <= 'z' }

  // --- what a name becomes ----------------------------------------------------

  /** An element at a boundary adds what it says. */
  lemma ElementAt(s: string, k: nat, e: Element, u: string)
    requires k <= |s| && Boundary(Turn, s, FRESH, k) && s[k..] == Spelling(e) + u
    requires Fits(e, Advance(FRESH, s[..k]).escape, u)
    ensures Tokens(s) == Before(Turn, s, FRESH, k) + Says(e) + Scan(u, Advance(FRESH, s[..k] + Spelling(e)))
  {
    var ctx := Advance(FRESH, s[..k]);
    TurnsSplit();
    RunThroughBoundary(Turn, s, FRESH, k);
    ElementTurn(e, u, ctx);
    IsWritten(e, ctx.escape, u);
    ScanElement(e, u, ctx);
    BehindWord(s[..k], Spelling(e));
    Regroup(Before(Turn, s, FRESH, k), Says(e), Scan(u, Advance(ctx, Spelling(e))));
  }

  lemma BehindWord(front: string, x: string)
    ensures Advance(Advance(FRESH, front), x) == Advance(FRESH, front + x)
  {
    AdvanceConcat(FRESH, front + x, |front|, |front + x|);
    assert (front + x)[..|front|] == front && (front + x)[|front|..] == x;
    assert (front + x)[..|front + x|] == front + x;
  }

  /** A bare word: letters, underscores, bytes beyond ASCII, and digits but not in front. */
  predicate IsBareWord(w: string) {
    && w != "" && !('0' <= w[0] <= '9')
    && forall c | c in w :: c == '_' || IsCapital(c) || IsSmall(c) || '0' <= c <= '9' || c as int >= 0x80
  }

  predicate GoesOn(u: string) { u != "" && (IsBareWord(u[..1]) || '0' <= u[0] <= '9') }

  lemma BareWordFits(w: string, escapes: bool, u: string)
    requires IsBareWord(w) && !GoesOn(u)
    ensures Fits(Word(w), escapes, u)
  {
    assert u != "" ==> u[0] in u[..1];
    assert w[0] in w;
  }

  /** The name has the bytes of the word, with 'A' to 'Z' moved by 32. */
  predicate IsFolded(w: string, name: string) {
    && |name| == |w|
    && forall i | 0 <= i < |w| :: name[i] as int == if 'A' <= w[i] <= 'Z' then w[i] as int + 32 else w[i] as int
  }

  lemma FoldedIs(w: string, name: string)
    requires IsFolded(w, name)
    ensures name == Folded(w)
  {
  }

  /** A bare word becomes one name of the same length, its capitals made small and every other byte kept. */
  lemma WordIsFolded(s: string, k: nat, w: string, u: string, name: string)
    requires k <= |s| && Boundary(Turn, s, FRESH, k) && s[k..] == w + u && IsBareWord(w) && !GoesOn(u)
    requires IsFolded(w, name)
    ensures Tokens(s) == Before(Turn, s, FRESH, k) + [Token(Ident, name)] + Scan(u, Advance(FRESH, s[..k] + w))
  {
    FoldedIs(w, name);
    BareWordFits(w, Advance(FRESH, s[..k]).escape, u);
    ElementAt(s, k, Word(w), u);
  }

  /** A quoted name is kept byte for byte. */
  lemma QuotedIsKept(s: string, k: nat, name: string, u: string)
    requires k <= |s| && Boundary(Turn, s, FRESH, k) && s[k..] == "\"" + (Doubled('"', name) + "\"") + u
    requires u == "" || u[0] != '"'
    ensures Tokens(s) == Before(Turn, s, FRESH, k) + [Token(Ident, name)]
                       + Scan(u, Advance(FRESH, s[..k] + ("\"" + (Doubled('"', name) + "\""))))
  {
    ElementAt(s, k, Quoted(name, true), u);
  }

  // --- the case of words --------------------------------------------------------

  /** The same elements, but for the case of bare words. */
  predicate RecasedWord(e: Element, f: Element) {
    e == f || (e.Word? && f.Word? && Recased(e.text, f.text))
  }

  predicate RecasedWords(es: seq<Element>, fs: seq<Element>) {
    |es| == |fs| && forall i | 0 <= i < |es| :: RecasedWord(es[i], fs[i])
  }

  lemma SameClass(c: char, d: char)
    requires SameLetter(c, d)
    ensures IsIdentPart(c) == IsIdentPart(d) && IsIdentStart(c) == IsIdentStart(d) && IsDigit(c) == IsDigit(d)
    ensures !IsIdentStart(c) ==> c == d
  {
  }

  lemma SameStart(s: string, t: string)
    requires Recased(s, t)
    ensures Starts(s, IsIdentPart) == Starts(t, IsIdentPart) && Starts(s, IsNumberPart) == Starts(t, IsNumberPart)
    ensures Starts(s, IsOperatorChar) == Starts(t, IsOperatorChar)
    ensures HasAt(s, 0, '\'') == HasAt(t, 0, '\'') && HasAt(s, 0, '"') == HasAt(t, 0, '"')
    ensures s == "" <==> t == ""
    ensures s != "" && s[0] == '\n' ==> t[0] == '\n'
  {
    if s != "" { SameClass(s[0], t[0]); }
  }

  lemma RecasedParts(s: string, t: string)
    requires Recased(s, t) && forall c | c in s :: IsIdentPart(c)
    ensures forall c | c in t :: IsIdentPart(c)
  {
    forall c | c in t ensures IsIdentPart(c) {
      var i :| 0 <= i < |t| && t[i] == c;
      assert s[i] in s;
      SameClass(s[i], t[i]);
    }
  }

  lemma RecasedTag(s: string, t: string)
    requires Recased(s, t) && IsTag(s)
    ensures IsTag(t)
  {
    RecasedParts(s, t);
    if s != "" { SameClass(s[0], t[0]); }
  }

  lemma RecasedBack(s: string, t: string)
    requires Recased(s, t)
    ensures Recased(t, s)
  {
    forall i | 0 <= i < |s| ensures SameLetter(t[i], s[i]) {
      assert SameLetter(s[i], t[i]);
    }
  }

  lemma QuoteOpens(s: string, t: string)
    requires Recased(s, t) && OpensQuote(s)
    ensures OpensQuote(t)
  {
    var n: nat :| n < |s| && s[n] == '$' && IsTag(s[..n]);
    SameClass(s[n], t[n]);
    assert Recased(s[..n], t[..n]);
    RecasedTag(s[..n], t[..n]);
    assert t[n] == '$' && IsTag(t[..n]);
  }

  lemma NoQuoteOpens(s: string, t: string)
    requires Recased(s, t) && !OpensQuote(s)
    ensures !OpensQuote(t)
  {
    if OpensQuote(t) {
      RecasedBack(s, t);
      QuoteOpens(t, s);
    }
  }

  lemma {:induction false} FirstByteDecides(ms: seq<Mark>, depth: int, a: string, b: string)
    requires a != "" && b != "" && a[0] == b[0] && MarksFit(ms, depth, a)
    ensures MarksFit(ms, depth, b)
    decreases |ms|
  {
    if ms != [] {
      FirstByteDecides(ms[1..], Deeper(ms[0], depth), a, b);
      var more := MarksSpelling(ms[1..]);
      if more != "" {
        assert (more + a)[0] == (more + b)[0];
      } else {
        assert more + a == a && more + b == b;
      }
    }
  }

  lemma FitsRecased(e: Element, escapes: bool, u: string, v: string)
    requires Fits(e, escapes, u) && Recased(u, v)
    ensures Fits(e, escapes, v)
  {
    SameStart(u, v);
    match e
    case Dollar => NoQuoteOpens(u, v);
    case Block(marks, closed) =>
      if closed {
        assert ("*/" + u)[0] == ("*/" + v)[0];
        FirstByteDecides(marks, 1, "*/" + u, "*/" + v);
      } else {
        assert u == v;
      }
    case _ =>
  }

  lemma WordFits(e: Element, f: Element, escapes: bool, escapes': bool, u: string)
    requires RecasedWord(e, f) && Fits(e, escapes, u) && (e.Word? || escapes == escapes')
    ensures Fits(f, escapes', u) && IsEscapePrefix(e) == IsEscapePrefix(f)
  {
    if e.Word? {
      RecasedParts(e.text, f.text);
      SameClass(e.text[0], f.text[0]);
      if |e.text| == 1 {
        assert e.text == [e.text[0]] && f.text == [f.text[0]];
      }
    }
  }

  lemma RecasedConcat(a: string, b: string, c: string, d: string)
    requires Recased(a, b) && Recased(c, d)
    ensures Recased(a + c, b + d)
  {
  }

  lemma RecasedSelf(s: string)
    ensures Recased(s, s)
  {
  }

  lemma {:induction false} SpellRecased(es: seq<Element>, fs: seq<Element>)
    requires RecasedWords(es, fs)
    ensures Recased(Spell(es), Spell(fs))
    decreases |es|
  {
    if es != [] {
      assert RecasedWord(es[0], fs[0]);
      assert RecasedWords(es[1..], fs[1..]) by {
        assert forall i | 0 <= i < |es| - 1 :: es[1..][i] == es[i + 1] && fs[1..][i] == fs[i + 1];
      }
      SpellRecased(es[1..], fs[1..]);
      RecasedSelf(Spelling(es[0]));
      RecasedConcat(Spelling(es[0]), Spelling(fs[0]), Spell(es[1..]), Spell(fs[1..]));
    }
  }

  lemma SameWord(e: Element, f: Element)
    requires RecasedWord(e, f)
    ensures Says(e) == Says(f)
  {
    if e.Word? {
      assert Folded(e.text) == Folded(f.text) by {
        forall i | 0 <= i < |e.text| ensures Folded(e.text)[i] == Folded(f.text)[i] {
          assert SameLetter(e.text[i], f.text[i]);
        }
      }
    }
  }

  /** With the words recased, a text is still well written, and says the same. */
  lemma {:induction false} RecasedIsWellWritten(es: seq<Element>, fs: seq<Element>, escapes: bool)
    requires WellWritten(es, escapes) && RecasedWords(es, fs)
    ensures WellWritten(fs, escapes) && Meant(es) == Meant(fs)
    decreases |es|
  {
    if es != [] {
      assert RecasedWord(es[0], fs[0]);
      assert RecasedWords(es[1..], fs[1..]) by {
        assert forall i | 0 <= i < |es| - 1 :: es[1..][i] == es[i + 1] && fs[1..][i] == fs[i + 1];
      }
      SpellRecased(es[1..], fs[1..]);
      FitsRecased(es[0], escapes, Spell(es[1..]), Spell(fs[1..]));
      WordFits(es[0], fs[0], escapes, escapes, Spell(fs[1..]));
      SameWord(es[0], fs[0]);
      RecasedIsWellWritten(es[1..], fs[1..], IsEscapePrefix(es[0]));
    }
  }

  /** Two texts that differ only in the case of letters, and there only inside bare words. */
  ghost predicate DifferInWords(a: string, b: string) {
    exists es, fs :: WellWritten(es, false) && Spell(es) == a && Spell(fs) == b && RecasedWords(es, fs)
  }

  /** The case of bare words does not matter. */
  lemma CaseIsInvisible(a: string, b: string)
    requires DifferInWords(a, b)
    ensures Tokens(a) == Tokens(b)
  {
    var es, fs :| WellWritten(es, false) && Spell(es) == a && Spell(fs) == b && RecasedWords(es, fs);
    RecasedIsWellWritten(es, fs, false);
    TokensAreMeant(es);
    TokensAreMeant(fs);
  }
}
