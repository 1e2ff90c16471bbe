/**
  What the scanner of internal/sqlprobe/token.go is for, said without the scanner: how the
  lexical elements of SQL are written, what each of them says, and what may stand behind
  it. Every text is a list of elements, and its tokens are what they say, in order.
 */
module LexerElements {
  import opened Text
  import opened ScanLoop
  import opened Lexer
  import opened LexerRoundTrip
  import LexerBoundary

  // --- elements -------------------------------------------------------------

  /** What a string literal is made of: a byte, a quote written twice, or a byte behind a backslash. */
  datatype Piece = Plain(c: char) | Twice | Escape(c: char)

  /** What a block comment is made of. */
  datatype Mark = Char(c: char) | Opener | Closer

  /** An element that is not closed, or ends in a lone backslash, is the last one of the text. */
  datatype Element =
    | Space(c: char)
    | Word(text: string)
    | Quoted(text: string, closed: bool)
    | Literal(pieces: seq<Piece>, end: string)
    | Number(text: string)
    | Operator(text: string)
    | Punctuation(c: char)
    | Dollar
    | Line(text: string)
    | Block(marks: seq<Mark>, closed: bool)
    | DollarQuote(tag: string, body: string, closed: bool)

  // --- how they are written -------------------------------------------------

  function PieceSpelling(p: Piece): string {
    match p
    case Plain(c) => [c]
    case Twice => "''"
    case Escape(c) => ['\\', c]
  }

  function PiecesSpelling(ps: seq<Piece>): string {
    if ps == [] then "" else PieceSpelling(ps[0]) + PiecesSpelling(ps[1..])
  }

  function MarkSpelling(m: Mark): string {
    match m
    case Char(c) => [c]
    case Opener => "/*"
    case Closer => "*/"
  }

  function MarksSpelling(ms: seq<Mark>): string {
    if ms == [] then "" else MarkSpelling(ms[0]) + MarksSpelling(ms[1..])
  }

  function If(closed: bool, end: string): string { if closed then end else "" }

  function Delimiter(tag: string): string { "$" + tag + "$" }

  function Spelling(e: Element): string {
    match e
    case Space(c) => [c]
    case Word(text) => text
    case Quoted(text, closed) => "\"" + (Doubled('"', text) + If(closed, "\""))
    case Literal(pieces, end) => "'" + (PiecesSpelling(pieces) + end)
    case Number(text) => text
    case Operator(text) => text
    case Punctuation(c) => [c]
    case Dollar => "$"
    case Line(text) => "--" + text
    case Block(marks, closed) => "/*" + (MarksSpelling(marks) + If(closed, "*/"))
    case DollarQuote(tag, body, closed) => Delimiter(tag) + (body + If(closed, Delimiter(tag)))
  }

  function Spell(es: seq<Element>): string {
    if es == [] then "" else Spelling(es[0]) + Spell(es[1..])
  }

  // --- what they say --------------------------------------------------------

  /** The letters A to Z made small; every other byte stays. */
  function Folded(w: string): (t: string)
    ensures |t| == |w|
  {
    seq(|w|, i requires 0 <= i < |w| => if 'A' <= w[i] <= 'Z' then (w[i] as int + 32) as char else w[i])
  }

  function PieceByte(p: Piece): char {
    match p
    case Plain(c) => c
    case Twice => '\''
    case Escape(c) => c
  }

  function PiecesText(ps: seq<Piece>): string {
    if ps == [] then "" else [PieceByte(ps[0])] + PiecesText(ps[1..])
  }

  function Says(e: Element): seq<Token> {
    match e
    case Word(text) => [Token(Ident, Folded(text))]
    case Quoted(text, _) => [Token(Ident, text)]
    case Literal(pieces, _) => [Token(Str, PiecesText(pieces))]
    case Number(_) => [Token(Other, "number")]
    case Operator(text) => [Token(Symbol, text)]
    case Punctuation(c) => [Token(Symbol, [c])]
    case Dollar => [Token(Other, "$")]
    case _ => []
  }

  function Meant(es: seq<Element>): seq<Token> {
    if es == [] then [] else Says(es[0]) + Meant(es[1..])
  }

  // --- what they take -------------------------------------------------------

  predicate Starts(u: string, p: char -> bool) { u != "" && p(u[0]) }

  predicate PieceFits(p: Piece, escapes: bool) {
    match p
    case Plain(c) => c != '\'' && (escapes ==> c != '\\')
    case Twice => true
    case Escape(_) => escapes
  }

  predicate LiteralEnds(end: string, escapes: bool, u: string) {
    || (end == "'" && !HasAt(u, 0, '\''))
    || (end == "" && u == "")
    || (end == "\\" && u == "" && escapes)
  }

  /** The byte and the one behind it are no opener and no closer. */
  predicate NoPair(c: char, behind: string) {
    !(c == '/' && HasAt(behind, 0, '*')) && !(c == '*' && HasAt(behind, 0, '/'))
  }

  /** How deep the comment is behind a mark. */
  function Deeper(m: Mark, depth: int): int {
    match m
    case Char(_) => depth
    case Opener => depth + 1
    case Closer => depth - 1
  }

  function Level(ms: seq<Mark>, depth: int): int {
    if ms == [] then depth else Level(ms[1..], Deeper(ms[0], depth))
  }

  /** The marks are read as such in front of `behind`, and do not close the comment. */
  predicate MarksFit(ms: seq<Mark>, depth: int, behind: string) {
    && depth >= 1
    && (ms != [] ==>
          && (ms[0].Char? ==> NoPair(ms[0].c, MarksSpelling(ms[1..]) + behind))
          && MarksFit(ms[1..], Deeper(ms[0], depth), behind))
  }

  predicate BlockEnds(ms: seq<Mark>, closed: bool, u: string) {
    && MarksFit(ms, 1, If(closed, "*/") + u)
    && if closed then Level(ms, 1) == 1 else u == ""
  }

  predicate IsTag(tag: string) { (tag == "" || !IsDigit(tag[0])) && forall c | c in tag :: IsIdentPart(c) }

  predicate OccursAt(s: string, i: nat, part: string) { i + |part| <= |s| && s[i..i + |part|] == part }

  /** The bytes behind a dollar make it open a dollar quote. */
  predicate OpensQuote(u: string) { exists n: nat | n < |u| :: u[n] == '$' && IsTag(u[..n]) }

  predicate QuoteEnds(delim: string, body: string, closed: bool, u: string) {
    && (forall i: nat | i < |body| :: !OccursAt(body + If(closed, delim), i, delim))
    && (closed || u == "")
  }

  /** The element is well written, in front of u and behind an escape prefix or not. */
  predicate Fits(e: Element, escapes: bool, u: string) {
    match e
    case Space(c) => IsSpace(c)
    case Word(w) => Starts(w, IsIdentStart) && (forall c | c in w :: IsIdentPart(c)) && !Starts(u, IsIdentPart)
    case Quoted(_, closed) => if closed then !HasAt(u, 0, '"') else u == ""
    case Literal(pieces, end) => (forall p | p in pieces :: PieceFits(p, escapes)) && LiteralEnds(end, escapes, u)
    case Number(w) => Starts(w, IsDigit) && (forall c | c in w :: IsNumberPart(c)) && !Starts(u, IsNumberPart)
    case Operator(w) =>
      w != "" && (forall c | c in w :: IsOperatorChar(c)) && !OpensComment(w) && !Starts(u, IsOperatorChar)
    case Punctuation(c) => IsPunctuation(c)
    case Dollar => !OpensQuote(u)
    case Line(text) => '\n' !in text && (u == "" || u[0] == '\n')
    case Block(marks, closed) => BlockEnds(marks, closed, u)
    case DollarQuote(tag, body, closed) => IsTag(tag) && QuoteEnds(Delimiter(tag), body, closed, u)
  }

  /** A literal behind one of these takes backslashes for escapes. */
  predicate IsEscapePrefix(e: Element) {
    match e
    case Word(w) => w == "e" || w == "E"
    case Number(w) => |w| >= 2 && w[|w| - 2] == '.' && IsE(w[|w| - 1])
    case _ => false
  }

  predicate WellWritten(es: seq<Element>, escapes: bool) {
    es != [] ==> Fits(es[0], escapes, Spell(es[1..])) && WellWritten(es[1..], IsEscapePrefix(es[0]))
  }

  /** The classes of bytes. */
  lemma Alphabet(c: char)
    ensures IsSpace(c) <==> c in " \t\n\r"
    ensures IsDigit(c) <==> c in "0123456789"
    ensures IsIdentStart(c) <==> c == '_' || 'a' <= c <= 'z' || 'A' <= c <= 'Z' || c as int >= 0x80
    ensures IsNumberPart(c) <==> IsIdentStart(c) || IsDigit(c) || c == '.'
    ensures IsOperatorChar(c) <==> c in "=<>!~+-*/%^&|@#?:"
  {
  }

  // --- one element is one turn ----------------------------------------------

  /** The turn that takes e in front of u, and says what e says. */
  predicate Takes(e: Element, u: string, ctx: Context) {
    var t := Turn(Spelling(e) + u, ctx);
    t.tokens == Says(e) && (t.len == |Spelling(e)| || (u == "" && t.len > |Spelling(e)|))
  }

  lemma WordTurn(e: Element, u: string, ctx: Context)
    requires e.Word? && Fits(e, ctx.escape, u)
    ensures Takes(e, u, ctx)
  {
    var s := e.text + u;
    assert s[0] == e.text[0];
    RunStops(e.text, u, IsIdentPart);
    assert s[..|e.text|] == e.text;
    assert Lower(e.text) == Folded(e.text);
  }

  lemma NumberTurn(e: Element, u: string, ctx: Context)
    requires e.Number? && Fits(e, ctx.escape, u)
    ensures Takes(e, u, ctx)
  {
    assert (e.text + u)[0] == e.text[0];
    RunStops(e.text, u, IsNumberPart);
  }

  lemma OperatorTurn(e: Element, u: string, ctx: Context)
    requires e.Operator? && Fits(e, ctx.escape, u)
    ensures Takes(e, u, ctx)
  {
    var s := e.text + u;
    assert s[0] == e.text[0] && s[0] in e.text;
    assert |s| > 1 ==> s[1] == if |e.text| > 1 then e.text[1] else u[0];
    RunStops(e.text, u, IsOperatorChar);
    assert s[..|e.text|] == e.text;
  }

  lemma {:induction false} ReadsOpenIdent(t: string)
    ensures ReadQuotedIdent(Doubled('"', t)) == Read(t, |Doubled('"', t)|, Open)
  {
    if t != "" {
      ReadsOpenIdent(t[1..]);
      IdentTakes(t[0], Doubled('"', t[1..]));
      assert Doubled('"', t) == Escaped('"', t[0]) + Doubled('"', t[1..]);
      assert t == [t[0]] + t[1..];
    }
  }

  lemma QuotedTaken(text: string, closed: bool, u: string)
    requires if closed then !HasAt(u, 0, '"') else u == ""
    ensures var r := ReadQuotedIdent(Doubled('"', text) + (If(closed, "\"") + u));
      r.text == text && r.len == |Doubled('"', text)| + |If(closed, "\"")|
  {
    var d := Doubled('"', text);
    if closed {
      assert d + ("\"" + u) == d + ['"'] + u;
      ReadsDoubledIdent(text, u);
    } else {
      assert d + ("" + u) == d;
      ReadsOpenIdent(text);
    }
  }

  lemma IdentTurn(x: string, ctx: Context)
    ensures var r, t := ReadQuotedIdent(x), Turn("\"" + x, ctx);
      t.tokens == [Token(Ident, r.text)] && t.len == 1 + r.len
  {
    assert ("\"" + x)[1..] == x;
  }

  lemma QuotedTurn(e: Element, u: string, ctx: Context)
    requires e.Quoted? && Fits(e, ctx.escape, u)
    ensures Takes(e, u, ctx)
  {
    var x := Doubled('"', e.text) + (If(e.closed, "\"") + u);
    assert Spelling(e) + u == "\"" + x;
    QuotedTaken(e.text, e.closed, u);
    IdentTurn(x, ctx);
  }

  lemma PieceTaken(p: Piece, d: string, escapes: bool)
    requires PieceFits(p, escapes)
    ensures ReadString(PieceSpelling(p) + d, escapes)
         == Consume([PieceByte(p)], |PieceSpelling(p)|, ReadString(d, escapes))
  {
    var s := PieceSpelling(p) + d;
    if p.Plain? { assert s[1..] == d; } else { assert s[2..] == d; }
  }

  lemma {:induction false} PiecesTaken(ps: seq<Piece>, d: string, escapes: bool)
    requires forall p | p in ps :: PieceFits(p, escapes)
    ensures ReadString(PiecesSpelling(ps) + d, escapes)
         == Consume(PiecesText(ps), |PiecesSpelling(ps)|, ReadString(d, escapes))
  {
    if ps == [] {
      assert PiecesSpelling(ps) + d == d;
      var r := ReadString(d, escapes);
      assert "" + r.text == r.text;
    } else {
      var more := PiecesSpelling(ps[1..]) + d;
      assert PiecesSpelling(ps) + d == PieceSpelling(ps[0]) + more;
      PieceTaken(ps[0], more, escapes);
      PiecesTaken(ps[1..], d, escapes);
      Regroup([PieceByte(ps[0])], PiecesText(ps[1..]), ReadString(d, escapes).text);
    }
  }

  lemma EndTaken(end: string, escapes: bool, u: string)
    requires LiteralEnds(end, escapes, u)
    ensures var r := ReadString(end + u, escapes);
      r.text == "" && (r.len == |end| || (u == "" && r.len > |end|))
  {
    var s := end + u;
    if end != "" { assert s[0] == end[0] && s[1..] == u; }
  }

  lemma LiteralTaken(ps: seq<Piece>, end: string, escapes: bool, u: string)
    requires (forall p | p in ps :: PieceFits(p, escapes)) && LiteralEnds(end, escapes, u)
    ensures var r, n := ReadString(PiecesSpelling(ps) + (end + u), escapes), |PiecesSpelling(ps)| + |end|;
      r.text == PiecesText(ps) && (r.len == n || (u == "" && r.len > n))
  {
    PiecesTaken(ps, end + u, escapes);
    EndTaken(end, escapes, u);
    assert PiecesText(ps) + "" == PiecesText(ps);
  }

  lemma QuoteTurn(x: string, ctx: Context)
    ensures var r, t := ReadString(x, ctx.escape), Turn("'" + x, ctx);
      t.tokens == [Token(Str, r.text)] && t.len == 1 + r.len
  {
    assert ("'" + x)[1..] == x;
  }

  lemma LiteralTurn(e: Element, u: string, ctx: Context)
    requires e.Literal? && Fits(e, ctx.escape, u)
    ensures Takes(e, u, ctx)
  {
    var x := PiecesSpelling(e.pieces) + (e.end + u);
    assert Spelling(e) + u == "'" + x;
    LiteralTaken(e.pieces, e.end, ctx.escape, u);
    QuoteTurn(x, ctx);
  }

  /** A tag is as long as the scanner finds it, in front of the dollar that ends it. */
  lemma TagIsFound(tag: string, rest: string)
    requires IsTag(tag)
    ensures TagLen(tag + ("$" + rest)) == |tag|
  {
    RunStops(tag, "$" + rest, IsIdentPart);
    if tag != "" { assert (tag + ("$" + rest))[0] == tag[0]; }
  }

  lemma FoundTagIsTag(s: string)
    ensures IsTag(s[..TagLen(s)])
    ensures TagLen(s) < |s| && s[TagLen(s)] == '$' ==> OpensQuote(s)
  {
    RunIsPrefix(s, IsIdentPart);
    if TagLen(s) > 0 { assert s[..TagLen(s)][0] == s[0]; }
  }

  lemma DollarTurn(u: string, ctx: Context)
    requires !OpensQuote(u)
    ensures Takes(Dollar, u, ctx)
  {
    var s := "$" + u;
    assert s[1..] == u;
    FoundTagIsTag(u);
    assert DollarQuoted(s).None?;
  }

  lemma OccursBehind(s: string, part: string, i: nat)
    requires s != ""
    ensures OccursAt(s, i + 1, part) <==> OccursAt(s[1..], i, part)
  {
    if i + 1 + |part| <= |s| { assert s[1..][i..i + |part|] == s[i + 1..i + 1 + |part|]; }
  }

  /** The first occurrence is the one that is found. */
  lemma {:induction false} FirstIsFound(s: string, part: string, k: nat)
    requires OccursAt(s, k, part) && forall i: nat | i < k :: !OccursAt(s, i, part)
    ensures Index(s, part) == Some(k)
    decreases |s|
  {
    assert OccursAt(s, 0, part) <==> part <= s;
    if k > 0 {
      assert !OccursAt(s, 0, part);
      forall i: nat | i < k - 1 ensures !OccursAt(s[1..], i, part) { OccursBehind(s, part, i); }
      OccursBehind(s, part, k - 1);
      FirstIsFound(s[1..], part, k - 1);
    }
  }

  lemma {:induction false} NoneIsFound(s: string, part: string)
    requires part != "" && forall i: nat | i < |s| :: !OccursAt(s, i, part)
    ensures Index(s, part) == None
    decreases |s|
  {
    if s != "" {
      assert !OccursAt(s, 0, part);
      forall i: nat | i < |s| - 1 ensures !OccursAt(s[1..], i, part) { OccursBehind(s, part, i); }
      NoneIsFound(s[1..], part);
    }
  }

  lemma FoundInFront(s: string, u: string, part: string, k: nat)
    requires Index(s, part) == Some(k)
    ensures Index(s + u, part) == Some(k)
  {
    LexerBoundary.IndexLocal(s, u, |s|, part);
    assert s[..|s|] + u == s + u;
  }

  lemma BodyFound(delim: string, body: string, u: string)
    requires |delim| > 0 && forall i: nat | i < |body| :: !OccursAt(body + delim, i, delim)
    ensures Index(body + delim + u, delim) == Some(|body|)
  {
    assert OccursAt(body + delim, |body|, delim);
    FirstIsFound(body + delim, delim, |body|);
    FoundInFront(body + delim, u, delim, |body|);
  }

  lemma BodyTaken(delim: string, body: string, closed: bool, u: string)
    requires |delim| > 0 && QuoteEnds(delim, body, closed, u)
    ensures DollarBody(delim, body + If(closed, delim) + u).len == |delim| + |body + If(closed, delim)|
  {
    var whole := body + If(closed, delim);
    if closed {
      assert whole == body + delim;
      BodyFound(delim, body, u);
    } else {
      assert whole == body && whole + u == body;
      NoneIsFound(body, delim);
    }
  }

  lemma TagTurn(tag: string, rest: string, ctx: Context)
    requires IsTag(tag)
    ensures var r, t := DollarBody(Delimiter(tag), rest), Turn(Delimiter(tag) + rest, ctx);
      t.tokens == [] && t.len == r.len
  {
    var delim, s := Delimiter(tag), Delimiter(tag) + rest;
    assert s[1..] == tag + ("$" + rest);
    TagIsFound(tag, rest);
    assert s[..|delim|] == delim && s[|delim|..] == rest && s[|delim| - 1] == '$';
    assert DollarQuoted(s) == Some(DollarBody(delim, rest));
  }

  lemma DollarQuoteTurn(e: Element, u: string, ctx: Context)
    requires e.DollarQuote? && Fits(e, ctx.escape, u)
    ensures Takes(e, u, ctx)
  {
    var delim := Delimiter(e.tag);
    var rest := e.body + If(e.closed, delim) + u;
    assert Spelling(e) + u == delim + rest;
    BodyTaken(delim, e.body, e.closed, u);
    TagTurn(e.tag, rest, ctx);
  }

  lemma LineTurn(e: Element, u: string, ctx: Context)
    requires e.Line? && Fits(e, ctx.escape, u)
    ensures Takes(e, u, ctx)
  {
    var s := Spelling(e) + u;
    assert s[2..] == e.text + u;
    RunStops(e.text, u, NotNewline);
  }

  lemma MarkTaken(m: Mark, depth: nat, behind: string)
    requires depth >= 1 && (m.Char? ==> NoPair(m.c, behind))
    ensures Deeper(m, depth) >= 0
    ensures BlockComment(MarkSpelling(m) + behind, depth)
         == Further(|MarkSpelling(m)|, BlockComment(behind, Deeper(m, depth)))
  {
    var s := MarkSpelling(m) + behind;
    if m.Char? {
      assert s[1..] == behind;
      assert forall c :: HasAt(s, 1, c) <==> HasAt(behind, 0, c);
    } else {
      assert s[2..] == behind;
    }
  }

  lemma {:induction false} MarksTaken(ms: seq<Mark>, depth: nat, behind: string)
    requires MarksFit(ms, depth, behind)
    ensures Level(ms, depth) >= 1
    ensures BlockComment(MarksSpelling(ms) + behind, depth)
         == Further(|MarksSpelling(ms)|, BlockComment(behind, Level(ms, depth)))
    decreases |ms|
  {
    if ms == [] {
      assert MarksSpelling(ms) + behind == behind;
    } else {
      var more := MarksSpelling(ms[1..]) + behind;
      assert MarksSpelling(ms) + behind == MarkSpelling(ms[0]) + more;
      MarkTaken(ms[0], depth, more);
      MarksTaken(ms[1..], Deeper(ms[0], depth), behind);
    }
  }

  lemma BlockTaken(ms: seq<Mark>, closed: bool, u: string)
    requires BlockEnds(ms, closed, u)
    ensures BlockComment(MarksSpelling(ms) + (If(closed, "*/") + u), 1).len == |MarksSpelling(ms)| + |If(closed, "*/")|
  {
    var behind := If(closed, "*/") + u;
    MarksTaken(ms, 1, behind);
    if closed {
      assert behind[2..] == u;
    } else {
      assert behind == "";
    }
  }

  lemma CommentTurn(x: string, ctx: Context)
    ensures var r, t := BlockComment(x, 1), Turn("/*" + x, ctx);
      t.tokens == [] && t.len == 2 + r.len
  {
    assert ("/*" + x)[2..] == x;
  }

  lemma BlockTurn(e: Element, u: string, ctx: Context)
    requires e.Block? && Fits(e, ctx.escape, u)
    ensures Takes(e, u, ctx)
  {
    var x := MarksSpelling(e.marks) + (If(e.closed, "*/") + u);
    assert Spelling(e) + u == "/*" + x;
    BlockTaken(e.marks, e.closed, u);
    CommentTurn(x, ctx);
  }

  lemma ElementTurn(e: Element, u: string, ctx: Context)
    requires Fits(e, ctx.escape, u)
    ensures Takes(e, u, ctx)
  {
    match e
    case Space(_) =>
    case Word(_) => WordTurn(e, u, ctx);
    case Quoted(_, _) => QuotedTurn(e, u, ctx);
    case Literal(_, _) => LiteralTurn(e, u, ctx);
    case Number(_) => NumberTurn(e, u, ctx);
    case Operator(_) => OperatorTurn(e, u, ctx);
    case Punctuation(_) =>
    case Dollar => DollarTurn(u, ctx);
    case Line(_) => LineTurn(e, u, ctx);
    case Block(_, _) => BlockTurn(e, u, ctx);
    case DollarQuote(_, _, _) => DollarQuoteTurn(e, u, ctx);
  }

  // --- one after the other ----------------------------------------------------

  /** What is known of the bytes behind the scanner: whether escapes are on, where that matters. */
  predicate InStep(ctx: Context, escapes: bool, s: string) {
    (ctx.part ==> !Starts(s, IsIdentPart)) && (HasAt(s, 0, '\'') ==> ctx.escape == escapes)
  }

  lemma ScanElement(e: Element, u: string, ctx: Context)
    requires Takes(e, u, ctx) && Spelling(e) != ""
    ensures Scan(Spelling(e) + u, ctx) == Says(e) + Scan(u, Advance(ctx, Spelling(e)))
  {
    var x := Spelling(e);
    var t := Turn(x + u, ctx);
    ScanTurn(x + u, ctx, t);
    assert (x + u)[|x|..] == u && (x + u)[..|x|] == x;
  }

  lemma EscapesOnlyInLiterals(e: Element, u: string, ctx: Context, escapes: bool)
    requires Fits(e, escapes, u) && InStep(ctx, escapes, Spelling(e) + u)
    ensures Fits(e, ctx.escape, u)
  {
    if e.Literal? { assert HasAt(Spelling(e) + u, 0, '\''); }
  }

  lemma IsWritten(e: Element, escapes: bool, u: string)
    requires Fits(e, escapes, u)
    ensures Spelling(e) != ""
  {
  }

  /** The last byte of an element that is no word, no number and no line comment. */
  lemma LastByte(e: Element, escapes: bool, u: string)
    requires Fits(e, escapes, u) && u != "" && !e.Word? && !e.Number? && !e.Line?
    ensures var x := Spelling(e); x != "" && !IsIdentPart(x[|x| - 1])
  {
    var x := Spelling(e);
    match e
    case Operator(w) => assert w[|w| - 1] in w;
    case Block(_, _) => assert x[|x| - 1] == '/';
    case DollarQuote(_, _, _) => assert x[|x| - 1] == '$';
    case _ =>
  }

  lemma StaysInStep(e: Element, u: string, ctx: Context, escapes: bool)
    requires Fits(e, escapes, u) && InStep(ctx, escapes, Spelling(e) + u)
    ensures InStep(Advance(ctx, Spelling(e)), IsEscapePrefix(e), u)
  {
    var x := Spelling(e);
    IsWritten(e, escapes, u);
    assert (x + u)[0] == x[0];
    if u == "" || e.Line? {
    } else if e.Word? || e.Number? {
      assert x[|x| - 1] in x;
      if |x| > 1 { assert x[|x| - 2] in x; }
    } else {
      LastByte(e, escapes, u);
    }
  }

  /** A text written as elements is scanned as what they say. */
  lemma {:induction false} ScansAsMeant(es: seq<Element>, ctx: Context, escapes: bool)
    requires WellWritten(es, escapes) && InStep(ctx, escapes, Spell(es))
    ensures Scan(Spell(es), ctx) == Meant(es)
    decreases |es|
  {
    if es != [] {
      var e, u := es[0], Spell(es[1..]);
      EscapesOnlyInLiterals(e, u, ctx, escapes);
      ElementTurn(e, u, ctx);
      IsWritten(e, escapes, u);
      ScanElement(e, u, ctx);
      StaysInStep(e, u, ctx, escapes);
      ScansAsMeant(es[1..], Advance(ctx, Spelling(e)), IsEscapePrefix(e));
    }
  }

  /** The tokens of a text are what its elements say. */
  lemma TokensAreMeant(es: seq<Element>)
    requires WellWritten(es, false)
    ensures Tokens(Spell(es)) == Meant(es)
  {
    ScansAsMeant(es, FRESH, false);
  }

  // --- every text is a list of elements ---------------------------------------

  lemma RunOf(s: string, p: char -> bool) returns (w: string, u: string)
    requires Starts(s, p)
    ensures s == w + u && w != "" && w[0] == s[0] && (forall c | c in w :: p(c)) && !Starts(u, p)
  {
    RunIsPrefix(s, p);
    w, u := s[..RunLen(s, p)], s[RunLen(s, p)..];
  }

  lemma {:induction false} QuotedOf(s: string) returns (text: string, closed: bool, u: string)
    ensures s == Doubled('"', text) + (If(closed, "\"") + u)
    ensures if closed then !HasAt(u, 0, '"') else u == ""
    decreases |s|
  {
    if s == "" {
      text, closed, u := "", false, "";
    } else if s[0] == '"' && !HasAt(s, 1, '"') {
      text, closed, u := "", true, s[1..];
    } else {
      var n := if s[0] == '"' then 2 else 1;
      var more;
      more, closed, u := QuotedOf(s[n..]);
      text := [s[0]] + more;
      assert text[1..] == more;
      assert s == s[..n] + s[n..];
    }
  }

  lemma PieceOf(s: string, escapes: bool) returns (p: Piece, u: string)
    requires s != "" && (s[0] == '\'' ==> HasAt(s, 1, '\'')) && !(escapes && s == "\\")
    ensures s == PieceSpelling(p) + u && |u| < |s| && PieceFits(p, escapes)
  {
    if s[0] == '\'' {
      p, u := Twice, s[2..];
    } else if escapes && s[0] == '\\' {
      p, u := Escape(s[1]), s[2..];
    } else {
      p, u := Plain(s[0]), s[1..];
    }
  }

  lemma {:induction false} PiecesOf(s: string, escapes: bool) returns (ps: seq<Piece>, end: string, u: string)
    ensures s == PiecesSpelling(ps) + (end + u)
    ensures (forall p | p in ps :: PieceFits(p, escapes)) && LiteralEnds(end, escapes, u)
    decreases |s|
  {
    if s == "" {
      ps, end, u := [], "", "";
    } else if s[0] == '\'' && !HasAt(s, 1, '\'') {
      ps, end, u := [], "'", s[1..];
    } else if escapes && s == "\\" {
      ps, end, u := [], "\\", "";
    } else {
      var p, rest := PieceOf(s, escapes);
      var more;
      more, end, u := PiecesOf(rest, escapes);
      ps := [p] + more;
      assert ps[1..] == more;
    }
  }

  /** The first mark of a comment that does not close here. */
  lemma MarkOf(s: string, depth: nat) returns (m: Mark, u: string)
    requires s != "" && depth >= 1 && !(depth == 1 && s[0] == '*' && HasAt(s, 1, '/'))
    ensures s == MarkSpelling(m) + u && |u| < |s| && Deeper(m, depth) >= 1 && (m.Char? ==> NoPair(m.c, u))
  {
    if s[0] == '/' && HasAt(s, 1, '*') {
      m, u := Opener, s[2..];
    } else if s[0] == '*' && HasAt(s, 1, '/') {
      m, u := Closer, s[2..];
    } else {
      m, u := Char(s[0]), s[1..];
    }
  }

  lemma {:induction false} MarksOf(s: string, depth: nat) returns (ms: seq<Mark>, closed: bool, u: string)
    requires depth >= 1
    ensures s == MarksSpelling(ms) + (If(closed, "*/") + u)
    ensures MarksFit(ms, depth, If(closed, "*/") + u)
    ensures if closed then Level(ms, depth) == 1 else u == ""
    decreases |s|
  {
    if s == "" {
      ms, closed, u := [], false, "";
    } else if depth == 1 && s[0] == '*' && HasAt(s, 1, '/') {
      ms, closed, u := [], true, s[2..];
      assert s == "*/" + s[2..];
    } else {
      var m, rest := MarkOf(s, depth);
      var more;
      more, closed, u := MarksOf(rest, Deeper(m, depth));
      ms := [m] + more;
      assert ms[1..] == more;
    }
  }

  lemma TagOf(u: string) returns (tag: string, rest: string)
    requires OpensQuote(u)
    ensures u == tag + ("$" + rest) && IsTag(tag)
  {
    var n: nat :| n < |u| && u[n] == '$' && IsTag(u[..n]);
    tag, rest := u[..n], u[n + 1..];
  }

  lemma TagSpelling(tag: string, rest: string)
    ensures "$" + (tag + ("$" + rest)) == Delimiter(tag) + rest
  {
  }

  lemma OpenedOf(u: string) returns (e: Element, rest: string)
    requires OpensQuote(u)
    ensures "$" + u == Spelling(e) + rest && Fits(e, false, rest) && e.DollarQuote?
  {
    var tag, body := TagOf(u);
    TagSpelling(tag, body);
    e, rest := DollarQuoteOf(tag, body);
  }

  /** A dollar opens a quote, closed or not, or stands alone. */
  lemma DollarOf(u: string) returns (e: Element, rest: string)
    ensures "$" + u == Spelling(e) + rest && Fits(e, false, rest) && (e.Dollar? || e.DollarQuote?)
  {
    if OpensQuote(u) {
      e, rest := OpenedOf(u);
    } else {
      e, rest := Dollar, u;
    }
  }

  /** Up to the end of the first delimiter, it occurs only there. */
  lemma NoneEarlier(s: string, part: string, k: nat)
    requires OccursAt(s, k, part) && forall i: nat | i < k :: !OccursAt(s, i, part)
    ensures s == s[..k] + part + s[k + |part|..]
    ensures forall i: nat | i < k :: !OccursAt(s[..k] + part, i, part)
  {
    var n := k + |part|;
    assert s[..k] + part == s[..n];
    forall i: nat | i < k && OccursAt(s[..n], i, part) ensures false {
      assert s[..n][i..i + |part|] == s[i..i + |part|];
      assert OccursAt(s, i, part);
    }
  }

  lemma DollarQuoteOf(tag: string, rest: string) returns (e: Element, u: string)
    requires IsTag(tag)
    ensures Delimiter(tag) + rest == Spelling(e) + u && Fits(e, false, u) && e.DollarQuote?
  {
    var delim := Delimiter(tag);
    if exists i: nat :: OccursAt(rest, i, delim) {
      var k := FirstOf(rest, delim);
      NoneEarlier(rest, delim, k);
      e, u := DollarQuote(tag, rest[..k], true), rest[k + |delim|..];
      Regroup(delim, rest[..k] + delim, u);
    } else {
      e, u := DollarQuote(tag, rest, false), "";
      assert rest + "" == rest;
    }
  }

  lemma {:induction false} FirstOf(s: string, part: string) returns (k: nat)
    requires exists i: nat :: OccursAt(s, i, part)
    ensures OccursAt(s, k, part) && forall i: nat | i < k :: !OccursAt(s, i, part)
  {
    k := 0;
    var i: nat :| OccursAt(s, i, part);
    while !OccursAt(s, k, part)
      invariant k <= i && forall j: nat | j < k :: !OccursAt(s, j, part)
      decreases i - k
    {
      k := k + 1;
    }
  }

  lemma QuoteOf(s: string, escapes: bool) returns (e: Element, u: string)
    requires s != "" && (s[0] == '\'' || s[0] == '"')
    ensures s == Spelling(e) + u && Fits(e, escapes, u)
  {
    assert s == [s[0]] + s[1..];
    if s[0] == '"' {
      var text, closed;
      text, closed, u := QuotedOf(s[1..]);
      e := Quoted(text, closed);
    } else {
      var ps, end;
      ps, end, u := PiecesOf(s[1..], escapes);
      e := Literal(ps, end);
    }
  }

  lemma WordOf(s: string) returns (e: Element, u: string)
    requires s != "" && (IsIdentStart(s[0]) || IsDigit(s[0]))
    ensures s == Spelling(e) + u && Fits(e, false, u) && (e.Word? || e.Number?)
  {
    var w;
    if IsIdentStart(s[0]) {
      w, u := RunOf(s, IsIdentPart);
      e := Word(w);
    } else {
      w, u := RunOf(s, IsNumberPart);
      e := Number(w);
    }
  }

  /** The element a text starts with. */
  lemma ElementOf(s: string, escapes: bool) returns (e: Element, u: string)
    requires s != ""
    ensures s == Spelling(e) + u && Fits(e, escapes, u)
  {
    var c := s[0];
    assert s == [c] + s[1..];
    if IsSpace(c) {
      e, u := Space(c), s[1..];
    } else if c == '\'' || c == '"' {
      e, u := QuoteOf(s, escapes);
    } else if c == '$' {
      e, u := DollarOf(s[1..]);
    } else if IsIdentStart(c) || IsDigit(c) {
      e, u := WordOf(s);
    } else if IsOperatorChar(c) {
      e, u := OperatorOf(s);
    } else {
      e, u := Punctuation(c), s[1..];
    }
  }

  lemma LineOf(s: string) returns (e: Element, u: string)
    ensures "--" + s == Spelling(e) + u && Fits(e, false, u) && e.Line?
  {
    RunIsPrefix(s, NotNewline);
    var n := RunLen(s, NotNewline);
    e, u := Line(s[..n]), s[n..];
  }

  lemma BlockOf(s: string) returns (e: Element, u: string)
    ensures "/*" + s == Spelling(e) + u && Fits(e, false, u) && e.Block?
  {
    var ms, closed;
    ms, closed, u := MarksOf(s, 1);
    e := Block(ms, closed);
  }

  lemma OperatorOf(s: string) returns (e: Element, u: string)
    requires s != "" && IsOperatorChar(s[0])
    ensures s == Spelling(e) + u && Fits(e, false, u) && (e.Line? || e.Block? || e.Operator?)
  {
    if s[0] == '-' && HasAt(s, 1, '-') {
      e, u := LineOf(s[2..]);
      assert s == "--" + s[2..];
    } else if s[0] == '/' && HasAt(s, 1, '*') {
      e, u := BlockOf(s[2..]);
      assert s == "/*" + s[2..];
    } else {
      var w;
      w, u := RunOf(s, IsOperatorChar);
      e := Operator(w);
      assert |w| > 1 ==> w[1] == s[1];
    }
  }

  lemma {:induction false} ElementsOf(s: string, escapes: bool) returns (es: seq<Element>)
    ensures WellWritten(es, escapes) && Spell(es) == s
    decreases |s|
  {
    if s == "" {
      es := [];
    } else {
      var e, u := ElementOf(s, escapes);
      IsWritten(e, escapes, u);
      var more := ElementsOf(u, IsEscapePrefix(e));
      es := [e] + more;
      assert es[1..] == more;
    }
  }

  /** Every text is written as elements. */
  lemma EveryTextIsWritten(sql: string)
    ensures exists es :: WellWritten(es, false) && Spell(es) == sql
  {
    var es := ElementsOf(sql, false);
  }
}
