/**
  Conditions: what the extractor of internal/sqlprobe/extract.go finds in them. They compare
  columns with columns, with literals, and with patterns. What is found is a join for every
  equality of two qualified columns, and for every other condition on a qualified column one
  predicate, of the class that its operator has.
 */
module ExtractConditions {
  import opened Text
  import opened ScanLoop
  import opened Extract
  import opened ExtractMeaning

  // --- conditions -----------------------------------------------------------------------

  /** A column as it is written, by its names: column, qualifier.column, schema.table.column, or more of them. */
  type Side = seq<string>

  /** What is compared with: a column, or a token that is no name: a literal or a parameter. */
  datatype Operand = Of(side: Side) | Literal(token: Token)

  datatype Test = Compare(left: Side, op: string, right: Operand) | Like(left: Side, word: string, pattern: Token)

  /** A test in parentheses, as deep as they go. */
  datatype Condition = Condition(opens: nat, test: Test, closes: nat)

  // --- as tokens ------------------------------------------------------------------------

  function Opens(n: nat): (ts: seq<Token>)
    ensures |ts| == n
  {
    seq(n, _ => Mark("("))
  }

  function Closers(n: nat): (ts: seq<Token>)
    ensures |ts| == n
  {
    seq(n, _ => Mark(")"))
  }

  /** The names, with dots between them. */
  function RenderSide(s: Side): (ts: seq<Token>)
    ensures s != [] ==> |ts| == 2 * |s| - 1
  {
    if s == [] then []
    else if |s| == 1 then [Word(s[0])]
    else RenderSide(s[..|s| - 1]) + [Mark("."), Word(s[|s| - 1])]
  }

  function RenderOperand(o: Operand): seq<Token> {
    match o case Of(s) => RenderSide(s) case Literal(t) => [t]
  }

  function RenderTest(t: Test): seq<Token> {
    match t
    case Compare(left, op, right) => RenderSide(left) + ([Mark(op)] + RenderOperand(right))
    case Like(left, word, pattern) => RenderSide(left) + ([Word(word)] + [pattern])
  }

  function RenderCondition(c: Condition): seq<Token> {
    Opens(c.opens) + (RenderTest(c.test) + Closers(c.closes))
  }

  /** The pieces of a list, with a separator between any two. */
  function RenderList<T>(xs: seq<T>, piece: T -> seq<Token>, separator: Token): seq<Token> {
    if xs == [] then []
    else if |xs| == 1 then piece(xs[0])
    else piece(xs[0]) + ([separator] + RenderList(xs[1..], piece, separator))
  }

  function ConditionPiece(): Condition -> seq<Token> { (c: Condition) => RenderCondition(c) }

  function RenderConditions(cs: seq<Condition>): seq<Token> { RenderList(cs, ConditionPiece(), Word("and")) }

  /** The conditions behind a keyword, or nothing. */
  function Clause(keyword: string, cs: seq<Condition>): seq<Token> {
    if cs == [] then [] else [Word(keyword)] + RenderConditions(cs)
  }

  // --- what it means -----------------------------------------------------------------------

  /** The class of an operator: what kind of index would serve the predicate. */
  function ClassOf(op: string): Option<PredOp> {
    if op == "=" then Some(Equality)
    else if op == "<" || op == ">" || op == "<=" || op == ">=" || op == "<>" || op == "!=" then Some(Range)
    else if op == "@>" || op == "<@" || op == "?" || op == "?|" || op == "?&" then Some(Containment)
    else if op == "@@" then Some(FullText)
    else if op == "<->" || op == "<=>" || op == "<#>" then Some(VectorDistance)
    else None
  }

  /** A pattern known to start with a wildcard has to be searched for anywhere; any other is taken for a prefix. */
  function PatternClass(pattern: Token): PredOp {
    if pattern.kind == Str && pattern.text != "" && pattern.text[0] == '%' then LikeInfix else LikePrefix
  }

  /** The column a side means; none without a table to resolve it to, and none for more than three names. */
  function Means(items: seq<Item>, s: Side): Option<Ref> {
    if |s| == 2 then Some(Column(items, s[0], s[1]))
    else if |s| == 3 then Some(Ref(s[0], s[1], s[2]))
    else None
  }

  function PredicateFor(ref: Option<Ref>, op: PredOp): Findings {
    match ref case Some(r) => Findings([], [Predicate(r, op)]) case None => NOTHING
  }

  function TestFindings(items: seq<Item>, t: Test): Findings {
    match t
    case Compare(left, op, right) =>
      (match (Means(items, left), op, right)
       case (Some(l), "=", Of(r)) =>
         (match Means(items, r)
          case Some(m) => Findings([Join(l, m)], [])
          case None => PredicateFor(Some(l), Equality))
       case (l, _, _) => match ClassOf(op) case Some(class_) => PredicateFor(l, class_) case None => NOTHING)
    case Like(left, _, pattern) => PredicateFor(Means(items, left), PatternClass(pattern))
  }

  /** The findings of one after the other. */
  function AllFindings<T>(xs: seq<T>, says: T -> Findings): Findings {
    if xs == [] then NOTHING else says(xs[0]).Then(AllFindings(xs[1..], says))
  }

  function SaysIn(items: seq<Item>): Condition -> Findings { (c: Condition) => TestFindings(items, c.test) }

  function ConditionsFindings(items: seq<Item>, cs: seq<Condition>): Findings { AllFindings(cs, SaysIn(items)) }

  // --- what has to be said about names ---------------------------------------------------------

  predicate GoodSide(s: Side) {
    s != [] && (forall name | name in s :: QuietName(name)) && (|s| == 3 ==> s[0] != "")
  }

  /** The first name of a side is none that ends a clause. */
  predicate StartsPlain(tb: Tables, s: Side) { s != [] && PlainName(tb, s[0]) }

  predicate GoodOperand(tb: Tables, o: Operand) {
    match o
    case Of(s) => GoodSide(s) && StartsPlain(tb, s)
    case Literal(t) => t.kind == Str || t.kind == Other
  }

  predicate GoodTest(tb: Tables, t: Test) {
    && GoodSide(t.left)
    && match t
       case Compare(_, op, right) => ClassOf(op).Some? && GoodOperand(tb, right)
       case Like(_, word, pattern) =>
         (word == "like" || word == "ilike") && (pattern.kind == Str || pattern.kind == Other)
  }

  predicate GoodConditions(tb: Tables, cs: seq<Condition>) { forall c | c in cs :: GoodTest(tb, c.test) }

  /** A token the scan passes over: a name that is no keyword to it, a literal, or one of these marks. */
  predicate IsQuiet(t: Token) {
    || (t.kind == Ident && QuietName(t.text)) || t.kind == Str || t.kind == Other
    || (t.kind == Symbol && (t.text == "." || t.text == "," || t.text == "(" || t.text == ")"))
  }

  // --- turns ---------------------------------------------------------------------------------------

  /** Word and operator tables as SQL has them: operators by their class, and words that are no aliases. */
  ghost predicate IsSql(tb: Tables) {
    && (forall op {:trigger ClassOf(op)} :: op in tb.comparison <==> ClassOf(op) == Some(Range))
    && (forall op {:trigger ClassOf(op)} :: op in tb.containment <==> ClassOf(op) == Some(Containment))
    && (forall op {:trigger ClassOf(op)} :: op in tb.vectorDistance <==> ClassOf(op) == Some(VectorDistance))
    && "as" in tb.clauseStoppers && "select" in tb.clauseStoppers && "values" in tb.clauseStoppers
    && EndsItem(tb, "on") && EndsItem(tb, "where") && EndsItem(tb, "join")
  }

  /** The words that end an item of a FROM list in SQL. */
  lemma EndingWords(word: string)
    ensures EndsItem(SQL, word) <==>
      || word == "on" || word == "using" || word == "where" || word == "group" || word == "order"
      || word == "limit" || word == "offset" || word == "having" || word == "window" || word == "for"
      || word == "union" || word == "intersect" || word == "except" || word == "returning" || word == "into"
      || word == "join" || word == "inner" || word == "left" || word == "right" || word == "full"
      || word == "cross" || word == "outer" || word == "natural" || word == "lateral" || word == "tablesample"
      || word == "select" || word == "from" || word == "values" || word == "set"
  {
  }

  lemma SqlIsSql()
    ensures IsSql(SQL)
  {
    forall op ensures op in SQL.comparison <==> ClassOf(op) == Some(Range) { }
    forall op ensures op in SQL.containment <==> ClassOf(op) == Some(Containment) { }
    forall op ensures op in SQL.vectorDistance <==> ClassOf(op) == Some(VectorDistance) { }
  }

  lemma OperatorsHaveClasses(tb: Tables, op: string)
    requires IsSql(tb)
    ensures op in tb.comparison <==> ClassOf(op) == Some(Range)
    ensures op in tb.containment <==> ClassOf(op) == Some(Containment)
    ensures op in tb.vectorDistance <==> ClassOf(op) == Some(VectorDistance)
  {
  }

  lemma MarksAreNoOperators(tb: Tables, mark: string)
    requires IsSql(tb)
    requires mark == "." || mark == "," || mark == "(" || mark == ")"
    ensures mark !in tb.comparison && mark !in tb.containment && mark !in tb.vectorDistance
    ensures mark != ";" && mark != "=" && mark != "@@"
  {
    OperatorsHaveClasses(tb, mark);
    assert |mark| == 1;
    assert mark[0] == '.' || mark[0] == ',' || mark[0] == '(' || mark[0] == ')';
  }

  lemma QuietIsPassed(tb: Tables, t: Token, v: View, i: nat, aliases: Aliases)
    requires IsSql(tb)
    requires IsQuiet(t)
    ensures VisitToken(tb, t, v, i, aliases) == Turn(NOTHING, aliases, i + 1)
  {
    if t.kind == Symbol { MarksAreNoOperators(tb, t.text); }
  }

  // --- the scan, known by its turns --------------------------------------------------------------

  /** What is found from an index on. */
  type Reader = (nat, Aliases) -> Findings

  /** g finds turn by turn what the extractor finds. */
  ghost predicate Reads(g: Reader, tb: Tables, ts: seq<Token>) {
    && (forall aliases :: g(|ts|, aliases) == NOTHING)
    && forall i: nat, aliases {:trigger Visit(tb, ts, i, aliases)} | i < |ts| ::
         var t := Visit(tb, ts, i, aliases);
         g(i, aliases) == t.found.Then(g(t.next, t.aliases))
  }

  function ReaderOf(tb: Tables, ts: seq<Token>): Reader {
    (i: nat, aliases: Aliases) => if i <= |ts| then ExtractFrom(tb, ts, i, aliases) else NOTHING
  }

  lemma ReaderReads(tb: Tables, ts: seq<Token>)
    ensures Reads(ReaderOf(tb, ts), tb, ts)
  {
  }

  /** From i to j this is found, and the scope stays. */
  predicate Finds(g: Reader, i: nat, aliases: Aliases, found: Findings, j: nat) {
    g(i, aliases) == found.Then(g(j, aliases))
  }

  lemma ThenOnce(a: Findings, b: Findings, c: Findings)
    ensures a.Then(b.Then(c)) == a.Then(b).Then(c)
    ensures a.Then(NOTHING) == a && NOTHING.Then(a) == a
  {
  }

  lemma FindsNothing(g: Reader, i: nat, aliases: Aliases, j: nat)
    requires g(i, aliases) == g(j, aliases)
    ensures Finds(g, i, aliases, NOTHING, j)
  {
    ThenOnce(g(j, aliases), NOTHING, NOTHING);
  }

  lemma FindsBoth(g: Reader, i: nat, aliases: Aliases, a: Findings, j: nat, b: Findings, k: nat)
    requires Finds(g, i, aliases, a, j) && Finds(g, j, aliases, b, k)
    ensures Finds(g, i, aliases, a.Then(b), k)
  {
    ThenOnce(a, b, g(k, aliases));
  }

  lemma PassOver(g: Reader, tb: Tables, ts: seq<Token>, i: nat, aliases: Aliases)
    requires Reads(g, tb, ts) && IsSql(tb)
    requires i < |ts| && IsQuiet(ts[i])
    ensures g(i, aliases) == g(i + 1, aliases)
  {
    QuietIsPassed(tb, ts[i], Around(tb, ts, i, aliases), i, aliases);
    assert Visit(tb, ts, i, aliases) == Turn(NOTHING, aliases, i + 1);
    ThenOnce(g(i + 1, aliases), NOTHING, NOTHING);
  }

  ghost predicate AllQuiet(piece: seq<Token>) { forall t | t in piece :: IsQuiet(t) }

  /** Every turn from i to j leaves things as they are. */
  ghost predicate IsPassed(g: Reader, i: nat, j: nat, aliases: Aliases) {
    forall k: nat {:trigger g(k, aliases)} | i <= k < j :: g(k, aliases) == g(k + 1, aliases)
  }

  lemma {:induction false} PassedThrough(g: Reader, i: nat, j: nat, aliases: Aliases)
    requires i <= j && IsPassed(g, i, j, aliases)
    ensures g(i, aliases) == g(j, aliases)
    decreases j - i
  {
    if i < j { PassedThrough(g, i + 1, j, aliases); }
  }

  lemma PassOverAll(g: Reader, tb: Tables, ts: seq<Token>, i: nat, j: nat, piece: seq<Token>, aliases: Aliases)
    requires Reads(g, tb, ts) && IsSql(tb)
    requires Spans(ts, i, j, piece) && AllQuiet(piece)
    ensures g(i, aliases) == g(j, aliases)
  {
    forall k: nat | i <= k < j ensures g(k, aliases) == g(k + 1, aliases) {
      SpansAt(ts, i, j, piece, k - i);
      assert piece[k - i] in piece;
      PassOver(g, tb, ts, k, aliases);
    }
    PassedThrough(g, i, j, aliases);
  }

  /** What an operator is found to say, of the reference before it and what follows. */
  function OperatorFindings(op: string, left: Option<Ref>, right: Option<Ref>): Findings {
    if op == "=" && left.Some? && right.Some? then Findings([Join(left.value, right.value)], [])
    else match ClassOf(op) case Some(class_) => PredicateFor(left, class_) case None => NOTHING
  }

  function ResolveSome(ref: Option<Ref>, aliases: Aliases): Option<Ref> {
    match ref case Some(r) => Some(Resolve(r, aliases)) case None => None
  }

  lemma OperatorTurn(tb: Tables, ts: seq<Token>, i: nat, op: string, aliases: Aliases)
    requires IsSql(tb)
    requires i < |ts| && ts[i] == Mark(op) && ClassOf(op).Some?
    ensures Visit(tb, ts, i, aliases) ==
      Turn(OperatorFindings(op, ResolveSome(RefEndingAt(ts, i - 1), aliases),
                            ResolveSome(RefStartingAt(tb, ts, i + 1), aliases)),
           aliases, i + 1)
  {
    OperatorsHaveClasses(tb, op);
    assert op != ";";
  }

  lemma LikeTurn(tb: Tables, ts: seq<Token>, i: nat, word: string, aliases: Aliases)
    requires i + 1 < |ts| && ts[i] == Word(word) && (word == "like" || word == "ilike")
    ensures Visit(tb, ts, i, aliases) ==
      Turn(PredicateFor(ResolveSome(RefEndingAt(ts, i - 1), aliases), PatternClass(ts[i + 1])), aliases, i + 1)
  {
    var p := ts[i + 1].text;
    assert HasPrefix(p, "%") <==> p != "" && p[0] == '%' by {
      if p != "" { assert p[..1] == [p[0]]; }
    }
  }

  // --- references ------------------------------------------------------------------------------

  lemma ReadAsMeans(items: seq<Item>, s: Side)
    requires GoodSide(s)
    ensures ResolveSome(RefFromParts(s), ScopeOf(items)) == Means(items, s)
  {
    if |s| == 2 { ResolveIsColumn(items, s[0], s[1]); }
  }

  /** Before an operator, the names of a side are read back, if no dot is in front of them. */
  lemma {:induction false} SideEndsAs(ts: seq<Token>, i: nat, j: nat, s: Side)
    requires s != [] && Spans(ts, i, j, RenderSide(s)) && !IsSymbol(ts, i - 1, ".")
    ensures NamesEndingAt(ts, j - 1) == s
    decreases |s|
  {
    var n := |s| - 1;
    if n == 0 {
      SpansAt(ts, i, j, RenderSide(s), 0);
    } else {
      SpansSplit(ts, i, j, RenderSide(s[..n]), [Mark("."), Word(s[n])]);
      SpansAt(ts, j - 2, j, [Mark("."), Word(s[n])], 0);
      SpansAt(ts, j - 2, j, [Mark("."), Word(s[n])], 1);
      SideEndsAs(ts, i, j - 2, s[..n]);
    }
  }

  lemma {:induction false} SideByHead(s: Side)
    requires |s| > 1
    ensures RenderSide(s) == [Word(s[0])] + ([Mark(".")] + RenderSide(s[1..]))
    decreases |s|
  {
    var n := |s| - 1;
    if n > 1 {
      SideByHead(s[..n]);
      assert s[..n][1..] == s[1..][..n - 1];
    } else {
      assert RenderSide(s[..1]) == [Word(s[0])];
      assert RenderSide(s[1..]) == [Word(s[1])];
    }
  }

  /** Behind an operator likewise, if no dot follows. */
  lemma {:induction false} SideStartsAs(tb: Tables, ts: seq<Token>, i: nat, j: nat, s: Side, first: bool)
    requires s != [] && Spans(ts, i, j, RenderSide(s)) && !IsSymbol(ts, j, ".")
    requires first ==> StartsPlain(tb, s)
    ensures DottedName(tb, ts, i, first).names == s
    decreases |s|
  {
    if |s| == 1 {
      SpansAt(ts, i, j, RenderSide(s), 0);
    } else {
      SideByHead(s);
      SpansHead(ts, i, j, Word(s[0]), [Mark(".")] + RenderSide(s[1..]));
      SpansHead(ts, i + 1, j, Mark("."), RenderSide(s[1..]));
      SideStartsAs(tb, ts, i + 2, j, s[1..], false);
    }
  }

  function OperandReadAs(o: Operand): Option<Ref> {
    match o case Of(s) => RefFromParts(s) case Literal(_) => None
  }

  lemma OperandStartsAs(tb: Tables, ts: seq<Token>, i: nat, j: nat, o: Operand)
    requires Spans(ts, i, j, RenderOperand(o)) && GoodOperand(tb, o) && !IsSymbol(ts, j, ".")
    ensures RefStartingAt(tb, ts, i) == OperandReadAs(o)
  {
    match o
    case Of(s) => SideStartsAs(tb, ts, i, j, s, true);
    case Literal(t) =>
      SpansAt(ts, i, j, [t], 0);
      assert DottedName(tb, ts, i, true).names == [];
  }

  lemma {:induction false} SideIsQuiet(s: Side)
    requires forall name | name in s :: QuietName(name)
    ensures AllQuiet(RenderSide(s))
  {
    if |s| > 1 { SideIsQuiet(s[..|s| - 1]); }
  }

  lemma OperandIsQuiet(tb: Tables, o: Operand)
    requires GoodOperand(tb, o)
    ensures AllQuiet(RenderOperand(o))
  {
    if o.Of? { SideIsQuiet(o.side); }
  }

  // --- one test ---------------------------------------------------------------------------------

  /** No dot in front of index i, and none at j. */
  predicate NoDots(ts: seq<Token>, i: nat, j: nat) { !IsSymbol(ts, i - 1, ".") && !IsSymbol(ts, j, ".") }

  /** Quiet tokens, a turn that finds something, and quiet tokens. */
  lemma OnlyTurn(g: Reader, tb: Tables, ts: seq<Token>, i: nat, o: nat, j: nat, aliases: Aliases,
                 front: seq<Token>, found: Findings, back: seq<Token>)
    requires Reads(g, tb, ts) && IsSql(tb)
    requires Spans(ts, i, o, front) && AllQuiet(front) && Spans(ts, o + 1, j, back) && AllQuiet(back)
    requires Visit(tb, ts, o, aliases) == Turn(found, aliases, o + 1)
    ensures Finds(g, i, aliases, found, j)
  {
    PassOverAll(g, tb, ts, i, o, front, aliases);
    PassOverAll(g, tb, ts, o + 1, j, back, aliases);
  }

  /** At the operator, the test is found. */
  lemma CompareTurn(tb: Tables, ts: seq<Token>, i: nat, o: nat, j: nat, items: seq<Item>, t: Test)
    requires IsSql(tb) && t.Compare? && GoodTest(tb, t) && NoDots(ts, i, j)
    requires Spans(ts, i, o, RenderSide(t.left)) && o < |ts| && ts[o] == Mark(t.op)
    requires Spans(ts, o + 1, j, RenderOperand(t.right))
    ensures Visit(tb, ts, o, ScopeOf(items)) == Turn(TestFindings(items, t), ScopeOf(items), o + 1)
  {
    SideEndsAs(ts, i, o, t.left);
    OperandStartsAs(tb, ts, o + 1, j, t.right);
    OperatorTurn(tb, ts, o, t.op, ScopeOf(items));
    OperatorSays(tb, items, t);
  }

  /** What is found at the operator is what the test means. */
  lemma OperatorSays(tb: Tables, items: seq<Item>, t: Test)
    requires t.Compare? && GoodTest(tb, t)
    ensures TestFindings(items, t)
         == OperatorFindings(t.op, ResolveSome(RefFromParts(t.left), ScopeOf(items)),
                             ResolveSome(OperandReadAs(t.right), ScopeOf(items)))
  {
    ReadAsMeans(items, t.left);
    if t.right.Of? { ReadAsMeans(items, t.right.side); }
  }

  lemma CompareFound(g: Reader, tb: Tables, ts: seq<Token>, i: nat, j: nat, items: seq<Item>, t: Test)
    requires Reads(g, tb, ts) && IsSql(tb) && t.Compare? && GoodTest(tb, t)
    requires Spans(ts, i, j, RenderTest(t)) && NoDots(ts, i, j)
    ensures Finds(g, i, ScopeOf(items), TestFindings(items, t), j)
  {
    var left, right := RenderSide(t.left), RenderOperand(t.right);
    var o := i + |left|;
    SpansSplit(ts, i, j, left, [Mark(t.op)] + right);
    SpansHead(ts, o, j, Mark(t.op), right);
    CompareTurn(tb, ts, i, o, j, items, t);
    SideIsQuiet(t.left);
    OperandIsQuiet(tb, t.right);
    OnlyTurn(g, tb, ts, i, o, j, ScopeOf(items), left, TestFindings(items, t), right);
  }

  lemma LikeFound(g: Reader, tb: Tables, ts: seq<Token>, i: nat, j: nat, items: seq<Item>, t: Test)
    requires Reads(g, tb, ts) && IsSql(tb) && t.Like? && GoodTest(tb, t)
    requires Spans(ts, i, j, RenderTest(t)) && !IsSymbol(ts, i - 1, ".")
    ensures Finds(g, i, ScopeOf(items), TestFindings(items, t), j)
  {
    var left := RenderSide(t.left);
    var o := i + |left|;
    SpansSplit(ts, i, j, left, [Word(t.word)] + [t.pattern]);
    SpansHead(ts, o, j, Word(t.word), [t.pattern]);
    SpansAt(ts, o + 1, j, [t.pattern], 0);
    SideEndsAs(ts, i, o, t.left);
    ReadAsMeans(items, t.left);
    LikeTurn(tb, ts, o, t.word, ScopeOf(items));
    SideIsQuiet(t.left);
    OnlyTurn(g, tb, ts, i, o, j, ScopeOf(items), left, TestFindings(items, t), [t.pattern]);
  }

  lemma TestFound(g: Reader, tb: Tables, ts: seq<Token>, i: nat, j: nat, items: seq<Item>, t: Test)
    requires Reads(g, tb, ts) && IsSql(tb) && GoodTest(tb, t)
    requires Spans(ts, i, j, RenderTest(t)) && NoDots(ts, i, j)
    ensures Finds(g, i, ScopeOf(items), TestFindings(items, t), j)
  {
    match t
    case Compare(_, _, _) => CompareFound(g, tb, ts, i, j, items, t);
    case Like(_, _, _) => LikeFound(g, tb, ts, i, j, items, t);
  }

  // --- the tests of a clause ------------------------------------------------------------------------

  /** Parentheses pass what is around them to what is inside: no dot. */
  lemma NoDotAround(ts: seq<Token>, i: nat, j: nat, piece: seq<Token>, mark: string)
    requires Spans(ts, i, j, piece) && mark != "." && forall t | t in piece :: t == Mark(mark)
    ensures !IsSymbol(ts, i - 1, ".") ==> !IsSymbol(ts, j - 1, ".")
    ensures !IsSymbol(ts, j, ".") ==> !IsSymbol(ts, i, ".")
  {
    if piece != [] {
      SpansAt(ts, i, j, piece, 0);
      SpansAt(ts, i, j, piece, |piece| - 1);
      assert piece[0] in piece && piece[|piece| - 1] in piece;
    }
  }

  lemma ConditionFound(g: Reader, tb: Tables, ts: seq<Token>, i: nat, l: nat, items: seq<Item>, c: Condition)
    requires Reads(g, tb, ts) && IsSql(tb) && GoodTest(tb, c.test)
    requires Spans(ts, i, l, RenderCondition(c)) && NoDots(ts, i, l)
    ensures Finds(g, i, ScopeOf(items), TestFindings(items, c.test), l)
  {
    var opens, test, closes := Opens(c.opens), RenderTest(c.test), Closers(c.closes);
    var j := i + |opens|;
    var k := j + |test|;
    SpansSplit(ts, i, l, opens, test + closes);
    SpansSplit(ts, j, l, test, closes);
    NoDotAround(ts, i, j, opens, "(");
    NoDotAround(ts, k, l, closes, ")");
    PassOverAll(g, tb, ts, i, j, opens, ScopeOf(items));
    TestFound(g, tb, ts, j, k, items, c.test);
    PassOverAll(g, tb, ts, k, l, closes, ScopeOf(items));
  }

  /** Wherever the piece of x stands between no dots, it is found to say what x says. */
  ghost predicate IsFound<T(!new)>(g: Reader, ts: seq<Token>, aliases: Aliases, x: T, piece: T -> seq<Token>,
                                   says: T -> Findings) {
    forall i: nat, j: nat {:trigger Spans(ts, i, j, piece(x))} | Spans(ts, i, j, piece(x)) && NoDots(ts, i, j) ::
      Finds(g, i, aliases, says(x), j)
  }

  /** Wherever the token stands, it is passed over. */
  ghost predicate IsSilent(g: Reader, ts: seq<Token>, aliases: Aliases, token: Token) {
    forall i: nat {:trigger ts[i]} | i < |ts| && ts[i] == token :: g(i, aliases) == g(i + 1, aliases)
  }

  /** A list of pieces is found to say what its elements say, in order. */
  lemma {:induction false} ListFound<T(!new)>(g: Reader, ts: seq<Token>, i: nat, j: nat, aliases: Aliases, xs: seq<T>,
                                        piece: T -> seq<Token>, says: T -> Findings, separator: Token)
    requires xs != [] && Spans(ts, i, j, RenderList(xs, piece, separator)) && NoDots(ts, i, j)
    requires separator != Mark(".") && IsSilent(g, ts, aliases, separator)
    requires forall x | x in xs :: IsFound(g, ts, aliases, x, piece, says)
    ensures Finds(g, i, aliases, AllFindings(xs, says), j)
    decreases |xs|
  {
    var x, rest := xs[0], xs[1..];
    assert xs == [x] + rest && IsFound(g, ts, aliases, x, piece, says);
    if rest == [] {
      ThenOnce(says(x), NOTHING, NOTHING);
    } else {
      var more := RenderList(rest, piece, separator);
      var k := i + |piece(x)|;
      SpansSplit(ts, i, j, piece(x), [separator] + more);
      SpansHead(ts, k, j, separator, more);
      ListFound(g, ts, k + 1, j, aliases, rest, piece, says, separator);
      FindsBoth(g, i, aliases, says(x), k, AllFindings(rest, says), j);
    }
  }

  lemma ConditionIsFound(g: Reader, tb: Tables, ts: seq<Token>, items: seq<Item>, c: Condition)
    requires Reads(g, tb, ts) && IsSql(tb) && GoodTest(tb, c.test)
    ensures IsFound(g, ts, ScopeOf(items), c, ConditionPiece(), SaysIn(items))
  {
    forall i: nat, j: nat | Spans(ts, i, j, ConditionPiece()(c)) && NoDots(ts, i, j)
      ensures Finds(g, i, ScopeOf(items), SaysIn(items)(c), j)
    {
      ConditionFound(g, tb, ts, i, j, items, c);
    }
  }

  lemma AndIsSilent(g: Reader, tb: Tables, ts: seq<Token>, aliases: Aliases)
    requires Reads(g, tb, ts) && IsSql(tb)
    ensures IsSilent(g, ts, aliases, Word("and"))
  {
    forall i: nat | i < |ts| && ts[i] == Word("and") ensures g(i, aliases) == g(i + 1, aliases) {
      PassOver(g, tb, ts, i, aliases);
    }
  }

  /** The conditions of a clause give their findings, in order. */
  lemma ConditionsFound(g: Reader, tb: Tables, ts: seq<Token>, i: nat, j: nat, items: seq<Item>, cs: seq<Condition>)
    requires Reads(g, tb, ts) && IsSql(tb) && cs != [] && GoodConditions(tb, cs)
    requires Spans(ts, i, j, RenderConditions(cs)) && NoDots(ts, i, j)
    ensures Finds(g, i, ScopeOf(items), ConditionsFindings(items, cs), j)
  {
    forall c | c in cs ensures IsFound(g, ts, ScopeOf(items), c, ConditionPiece(), SaysIn(items)) {
      ConditionIsFound(g, tb, ts, items, c);
    }
    AndIsSilent(g, tb, ts, ScopeOf(items));
    ListFound(g, ts, i, j, ScopeOf(items), cs, ConditionPiece(), SaysIn(items), Word("and"));
  }

  /** A clause gives what its conditions say. */
  lemma ClauseFound(g: Reader, tb: Tables, ts: seq<Token>, i: nat, j: nat, items: seq<Item>, keyword: string,
                    cs: seq<Condition>)
    requires Reads(g, tb, ts) && IsSql(tb) && QuietName(keyword) && GoodConditions(tb, cs)
    requires Spans(ts, i, j, Clause(keyword, cs)) && !IsSymbol(ts, j, ".")
    ensures Finds(g, i, ScopeOf(items), ConditionsFindings(items, cs), j)
  {
    if cs == [] {
      FindsNothing(g, i, ScopeOf(items), j);
    } else {
      SpansHead(ts, i, j, Word(keyword), RenderConditions(cs));
      PassOver(g, tb, ts, i, ScopeOf(items));
      ConditionsFound(g, tb, ts, i + 1, j, items, cs);
    }
  }
}
