/**
  Queries: what the extractor of internal/sqlprobe/extract.go finds in a query written out
  from its meaning. Tables come in a FROM list and in joins, with or without AS, with
  parentheses and subqueries among them. Every condition sees the tables up to its own
  join, and what is found is what the conditions mean, in order.
 */
module ExtractQueries {
  import opened Text
  import opened ScanLoop
  import opened Extract
  import opened ExtractMeaning
  import opened ExtractConditions

  // --- queries -----------------------------------------------------------------------

  /** A table, or a subquery with whatever is in it, behind parentheses that only group. */
  datatype Source = Table(opens: nat, item: Item)
                  | Subquery(opens: nat, word: string, body: seq<Token>, alias: string, withAs: bool)

  /** kind JOIN source ON conditions */
  datatype Joined = Joined(kind: seq<string>, source: Source, on: seq<Condition>)

  /** prefix FROM sources joins WHERE conditions tail */
  datatype Query = Query(
    prefix: seq<Token>,
    sources: seq<Source>,
    joins: seq<Joined>,
    wheres: seq<Condition>,
    tail: seq<Token>)

  function RenderSource(s: Source): seq<Token> {
    match s
    case Table(opens, item) => Opens(opens) + RenderItem(item)
    case Subquery(opens, word, body, alias, withAs) =>
      Opens(opens) + ([Mark("(")] + ([Word(word)] + (body + ([Mark(")")] + RenderAlias(alias, withAs)))))
  }

  function SourcePiece(): Source -> seq<Token> { (s: Source) => RenderSource(s) }

  function RenderSources(ss: seq<Source>): seq<Token> { RenderList(ss, SourcePiece(), Mark(",")) }

  function Words(names: seq<string>): (ts: seq<Token>)
    ensures |ts| == |names|
  {
    seq(|names|, i requires 0 <= i < |names| => Word(names[i]))
  }

  function RenderJoined(j: Joined): seq<Token> {
    Words(j.kind) + ([Word("join")] + (RenderSource(j.source) + Clause("on", j.on)))
  }

  function JoinedPiece(): Joined -> seq<Token> { (j: Joined) => RenderJoined(j) }

  /** Pieces one after the other. */
  function RenderAll<T>(xs: seq<T>, piece: T -> seq<Token>): seq<Token> {
    if xs == [] then [] else piece(xs[0]) + RenderAll(xs[1..], piece)
  }

  function RenderJoins(js: seq<Joined>): seq<Token> { RenderAll(js, JoinedPiece()) }

  function Render(q: Query): seq<Token> {
    q.prefix
    + ([Word("from")] + (RenderSources(q.sources) + (RenderJoins(q.joins) + (Clause("where", q.wheres) + q.tail))))
  }

  // --- what it means -----------------------------------------------------------------------

  /** The tables in scope, in order; a subquery brings none. */
  function TablesOf(ss: seq<Source>): seq<Item> {
    if ss == [] then []
    else TablesOf(ss[..|ss| - 1]) + match ss[|ss| - 1] case Table(_, item) => [item] case Subquery(_, _, _, _, _) => []
  }

  /** The conditions of a join see the tables up to and with its own. */
  function JoinsFindings(before: seq<Source>, js: seq<Joined>): Findings { EachFindings(before, js, JoinSays()) }

  function JoinSays(): (seq<Source>, Joined) -> Findings {
    (before: seq<Source>, j: Joined) => ConditionsFindings(TablesOf(before + [j.source]), j.on)
  }

  function EachFindings(before: seq<Source>, js: seq<Joined>, says: (seq<Source>, Joined) -> Findings): Findings
    decreases |js|
  {
    if js == [] then NOTHING
    else says(before, js[0]).Then(EachFindings(before + [js[0].source], js[1..], says))
  }

  function SourcesOf(js: seq<Joined>): seq<Source> {
    if js == [] then [] else [js[0].source] + SourcesOf(js[1..])
  }

  function Meaning(q: Query): Findings {
    JoinsFindings(q.sources, q.joins).Then(ConditionsFindings(TablesOf(q.sources + SourcesOf(q.joins)), q.wheres))
  }

  // --- what has to be said about names -----------------------------------------------------------

  /** How many parentheses are open behind a token. */
  function Deeper(t: Token, depth: int): int {
    if t == Mark("(") then depth + 1 else if t == Mark(")") then depth - 1 else depth
  }

  function Depth(body: seq<Token>, depth: int): int {
    if body == [] then depth else Depth(body[1..], Deeper(body[0], depth))
  }

  /** No parenthesis of the body closes one from outside. */
  predicate StaysInside(body: seq<Token>, depth: int) {
    depth >= 1 && (body != [] ==> StaysInside(body[1..], Deeper(body[0], depth)))
  }

  predicate GoodSource(tb: Tables, s: Source) {
    match s
    case Table(opens, item) =>
      GoodItem(tb, item) && (opens > 0 ==> (if item.schema != "" then item.schema else item.table) != "with")
    case Subquery(_, word, body, alias, _) =>
      && (word == "select" || word == "values" || word == "with")
      && StaysInside(body, 1) && Depth(body, 1) == 1
      && (alias != "" ==> PlainName(tb, alias))
  }

  /** The words in front of JOIN. */
  predicate GoodKind(tb: Tables, kind: seq<string>) { forall w | w in kind :: EndsItem(tb, w) && QuietName(w) }

  predicate GoodJoined(tb: Tables, j: Joined) {
    GoodKind(tb, j.kind) && GoodSource(tb, j.source) && GoodConditions(tb, j.on)
  }

  /** What follows is opened by a word that ends a FROM item, and holds no further FROM, JOIN, LIKE or operator. */
  ghost predicate GoodTail(tb: Tables, tail: seq<Token>) {
    tail != [] ==> tail[0].kind == Ident && EndsItem(tb, tail[0].text) && AllQuiet(tail)
  }

  ghost predicate GoodQuery(tb: Tables, q: Query) {
    && q.sources != [] && AllQuiet(q.prefix)
    && (forall s | s in q.sources :: GoodSource(tb, s))
    && (forall j | j in q.joins :: GoodJoined(tb, j))
    && GoodConditions(tb, q.wheres) && GoodTail(tb, q.tail)
  }

  // --- one source ---------------------------------------------------------------------------------

  /** What a source does to the scope. */
  function EnterSource(aliases: Aliases, s: Source): Aliases {
    match s case Table(_, x) => Enter(aliases, RefOf(x), x.alias) case Subquery(_, _, _, _, _) => aliases
  }

  lemma TablesSnoc(before: seq<Source>, s: Source)
    ensures ScopeOf(TablesOf(before + [s])) == EnterSource(ScopeOf(TablesOf(before)), s)
  {
    assert (before + [s])[..|before|] == before;
    if s.Table? {
      var items := TablesOf(before) + [s.item];
      assert TablesOf(before + [s]) == items;
      EnterLast(map[], items);
      assert items[..|items| - 1] == TablesOf(before);
    } else {
      assert TablesOf(before + [s]) == TablesOf(before);
    }
  }

  /** A list of sources ends here: no comma goes on with it. */
  predicate ListEnds(tb: Tables, ts: seq<Token>, j: nat) { ItemEnds(tb, ts, j) && !IsSymbol(ts, j, ",") }

  /** Read from i, there is the scope `after`, and the list goes on behind a comma at j or ends there. */
  ghost predicate ReadsTo(tb: Tables, ts: seq<Token>, i: nat, aliases: Aliases, j: nat, after: Aliases) {
    && i <= |ts| && j <= |ts|
    && (IsSymbol(ts, j, ",") ==> Collect(tb, ts, i, aliases) == Collect(tb, ts, j + 1, after))
    && (!IsSymbol(ts, j, ",") ==> Collect(tb, ts, i, aliases) == Collected(after, j))
  }

  lemma {:induction false} OpensAreRead(tb: Tables, ts: seq<Token>, i: nat, j: nat, n: nat, aliases: Aliases)
    requires Spans(ts, i, j, Opens(n))
    requires n > 0 ==> !IsWord(ts, j, "select") && !IsWord(ts, j, "values") && !IsWord(ts, j, "with")
    ensures Collect(tb, ts, i, aliases) == Collect(tb, ts, j, aliases)
    decreases n
  {
    if n > 0 {
      if n > 1 { SpansAt(ts, i, j, Opens(n), 1); }
      assert Opens(n) == [Mark("(")] + Opens(n - 1);
      SpansHead(ts, i, j, Mark("("), Opens(n - 1));
      OpensAreRead(tb, ts, i + 1, j, n - 1, aliases);
    }
  }

  lemma {:induction false} BodyIsSkipped(ts: seq<Token>, i: nat, j: nat, body: seq<Token>, depth: int)
    requires Spans(ts, i, j, body) && StaysInside(body, depth)
    ensures SkipParens(ts, i, depth) == SkipParens(ts, j, Depth(body, depth))
    decreases |body|
  {
    if body != [] {
      assert body == [body[0]] + body[1..];
      SpansHead(ts, i, j, body[0], body[1..]);
      BodyIsSkipped(ts, i + 1, j, body[1..], Deeper(body[0], depth));
    }
  }

  /** Past the parentheses of a subquery. */
  lemma SubqueryIsSkipped(ts: seq<Token>, i: nat, j: nat, word: string, body: seq<Token>, alias: seq<Token>)
    requires Spans(ts, i, j, [Mark("(")] + ([Word(word)] + (body + ([Mark(")")] + alias))))
    requires StaysInside(body, 1) && Depth(body, 1) == 1
    ensures i + 1 < |ts| && ts[i] == Mark("(") && ts[i + 1] == Word(word)
    ensures Spans(ts, SkipParens(ts, i, 0), j, alias)
  {
    var k := i + 2 + |body|;
    SpansHead(ts, i, j, Mark("("), [Word(word)] + (body + ([Mark(")")] + alias)));
    SpansHead(ts, i + 1, j, Word(word), body + ([Mark(")")] + alias));
    SpansSplit(ts, i + 2, j, body, [Mark(")")] + alias);
    SpansHead(ts, k, j, Mark(")"), alias);
    BodyIsSkipped(ts, i + 2, k, body, 1);
    assert SkipParens(ts, i + 1, 1) == SkipParens(ts, i + 2, 1);
  }

  lemma SubqueryReadsTo(tb: Tables, ts: seq<Token>, i: nat, j: nat, s: Source, aliases: Aliases)
    requires IsSql(tb) && s.Subquery? && GoodSource(tb, s) && ItemEnds(tb, ts, j)
    requires Spans(ts, i, j, [Mark("(")] + ([Word(s.word)] + (s.body + ([Mark(")")] + RenderAlias(s.alias, s.withAs)))))
    ensures ReadsTo(tb, ts, i, aliases, j, aliases)
  {
    SubqueryIsSkipped(ts, i, j, s.word, s.body, RenderAlias(s.alias, s.withAs));
    ItemAlias(tb, ts, SkipParens(ts, i, 0), j, s.alias, s.withAs);
  }

  lemma FirstOfItem(x: Item)
    ensures RenderItem(x) != [] && RenderItem(x)[0] == Word(if x.schema != "" then x.schema else x.table)
  {
  }

  lemma TableReadsTo(tb: Tables, ts: seq<Token>, i: nat, j: nat, s: Source, aliases: Aliases)
    requires IsSql(tb) && s.Table? && GoodSource(tb, s)
    requires Spans(ts, i, j, RenderSource(s)) && ItemEnds(tb, ts, j)
    ensures ReadsTo(tb, ts, i, aliases, j, EnterSource(aliases, s))
  {
    var k, x := i + s.opens, s.item;
    SpansSplit(ts, i, j, Opens(s.opens), RenderItem(x));
    FirstOfItem(x);
    SpansAt(ts, k, j, RenderItem(x), 0);
    OpensAreRead(tb, ts, i, k, s.opens, aliases);
    ItemRead(tb, ts, k, j, x, aliases);
  }

  lemma OpenedReadsTo(tb: Tables, ts: seq<Token>, i: nat, j: nat, s: Source, aliases: Aliases)
    requires IsSql(tb) && s.Subquery? && GoodSource(tb, s)
    requires Spans(ts, i, j, RenderSource(s)) && ItemEnds(tb, ts, j)
    ensures ReadsTo(tb, ts, i, aliases, j, EnterSource(aliases, s))
  {
    var k := i + s.opens;
    var rest := [Mark("(")] + ([Word(s.word)] + (s.body + ([Mark(")")] + RenderAlias(s.alias, s.withAs))));
    SpansSplit(ts, i, j, Opens(s.opens), rest);
    SpansAt(ts, k, j, rest, 0);
    OpensAreRead(tb, ts, i, k, s.opens, aliases);
    SubqueryReadsTo(tb, ts, k, j, s, aliases);
  }

  lemma SourceReadsTo(tb: Tables, ts: seq<Token>, i: nat, j: nat, s: Source, aliases: Aliases)
    requires IsSql(tb) && GoodSource(tb, s)
    requires Spans(ts, i, j, RenderSource(s)) && ItemEnds(tb, ts, j)
    ensures ReadsTo(tb, ts, i, aliases, j, EnterSource(aliases, s))
  {
    match s
    case Table(_, _) => TableReadsTo(tb, ts, i, j, s, aliases);
    case Subquery(_, _, _, _, _) => OpenedReadsTo(tb, ts, i, j, s, aliases);
  }

  // --- a list of sources --------------------------------------------------------------------------

  /** The sources entered one after the other, for any way of entering them. */
  function EnterEach(aliases: Aliases, ss: seq<Source>, enter: (Aliases, Source) -> Aliases): Aliases
    decreases |ss|
  {
    if ss == [] then aliases else EnterEach(enter(aliases, ss[0]), ss[1..], enter)
  }

  function Entering(): (Aliases, Source) -> Aliases { (aliases, s) => EnterSource(aliases, s) }

  lemma {:induction false} EachIsScope(before: seq<Source>, ss: seq<Source>)
    ensures EnterEach(ScopeOf(TablesOf(before)), ss, Entering()) == ScopeOf(TablesOf(before + ss))
    decreases |ss|
  {
    if ss == [] {
      assert before + ss == before;
    } else {
      TablesSnoc(before, ss[0]);
      EachIsScope(before + [ss[0]], ss[1..]);
      assert before + [ss[0]] + ss[1..] == before + ss;
    }
  }

  /** What is collected from an index on. */
  type Collector = (nat, Aliases) -> Collected

  function CollectorOf(tb: Tables, ts: seq<Token>): Collector {
    (i: nat, aliases: Aliases) => if i <= |ts| then Collect(tb, ts, i, aliases) else Collected(aliases, i)
  }

  /** Collected from i: the scope `after`, and the list goes on behind a comma at j or ends there. */
  predicate GoesOn(c: Collector, ts: seq<Token>, i: nat, aliases: Aliases, j: nat, after: Aliases) {
    c(i, aliases) == if IsSymbol(ts, j, ",") then c(j + 1, after) else Collected(after, j)
  }

  /** Wherever the piece of s stands and ends, it is read. */
  ghost predicate IsRead(c: Collector, tb: Tables, ts: seq<Token>, s: Source, piece: Source -> seq<Token>,
                         enter: (Aliases, Source) -> Aliases) {
    forall i: nat, j: nat, aliases {:trigger Spans(ts, i, j, piece(s)), enter(aliases, s)} |
      Spans(ts, i, j, piece(s)) && ItemEnds(tb, ts, j) ::
      GoesOn(c, ts, i, aliases, j, enter(aliases, s))
  }

  lemma CollectorGoesOn(tb: Tables, ts: seq<Token>, i: nat, aliases: Aliases, j: nat, after: Aliases)
    requires ReadsTo(tb, ts, i, aliases, j, after)
    ensures GoesOn(CollectorOf(tb, ts), ts, i, aliases, j, after)
  {
  }

  lemma SourceIsRead(tb: Tables, ts: seq<Token>, s: Source)
    requires IsSql(tb) && GoodSource(tb, s)
    ensures IsRead(CollectorOf(tb, ts), tb, ts, s, SourcePiece(), Entering())
  {
    forall i: nat, j: nat, aliases | Spans(ts, i, j, SourcePiece()(s)) && ItemEnds(tb, ts, j)
      ensures GoesOn(CollectorOf(tb, ts), ts, i, aliases, j, Entering()(aliases, s))
    {
      SourceReadsTo(tb, ts, i, j, s, aliases);
      CollectorGoesOn(tb, ts, i, aliases, j, EnterSource(aliases, s));
    }
  }

  lemma {:induction false} ListIsRead(c: Collector, tb: Tables, ts: seq<Token>, i: nat, j: nat, ss: seq<Source>,
                                      aliases: Aliases, piece: Source -> seq<Token>,
                                      enter: (Aliases, Source) -> Aliases)
    requires ss != [] && forall s | s in ss :: IsRead(c, tb, ts, s, piece, enter)
    requires Spans(ts, i, j, RenderList(ss, piece, Mark(","))) && ListEnds(tb, ts, j)
    ensures c(i, aliases) == Collected(EnterEach(aliases, ss, enter), j)
    decreases |ss|
  {
    var s, rest := ss[0], ss[1..];
    assert ss == [s] + rest && IsRead(c, tb, ts, s, piece, enter);
    var after := enter(aliases, s);
    if rest == [] {
      assert GoesOn(c, ts, i, aliases, j, after);
    } else {
      var more := RenderList(rest, piece, Mark(","));
      var k := i + |piece(s)|;
      SpansSplit(ts, i, j, piece(s), [Mark(",")] + more);
      SpansHead(ts, k, j, Mark(","), more);
      assert GoesOn(c, ts, i, aliases, k, after);
      ListIsRead(c, tb, ts, k + 1, j, rest, after, piece, enter);
    }
  }

  /** The sources of a list are entered in order, up to where it ends. */
  lemma SourcesAreRead(tb: Tables, ts: seq<Token>, i: nat, j: nat, ss: seq<Source>)
    requires IsSql(tb) && ss != [] && forall s | s in ss :: GoodSource(tb, s)
    requires Spans(ts, i, j, RenderSources(ss)) && ListEnds(tb, ts, j)
    ensures Collect(tb, ts, i, map[]) == Collected(ScopeOf(TablesOf(ss)), j)
  {
    forall s | s in ss ensures IsRead(CollectorOf(tb, ts), tb, ts, s, SourcePiece(), Entering()) {
      SourceIsRead(tb, ts, s);
    }
    ListIsRead(CollectorOf(tb, ts), tb, ts, i, j, ss, map[], SourcePiece(), Entering());
    EachIsScope([], ss);
    assert [] + ss == ss;
  }

  // --- joins --------------------------------------------------------------------------------------

  lemma EndingEnds(tb: Tables, ts: seq<Token>, j: nat)
    requires j >= |ts| || (ts[j].kind == Ident && EndsItem(tb, ts[j].text))
    ensures ListEnds(tb, ts, j)
  {
  }

  /** At FROM or JOIN, the scan goes on behind the list, with its scope. */
  lemma ListTurn(g: Reader, tb: Tables, ts: seq<Token>, i: nat, word: string, aliases: Aliases, after: Aliases, j: nat)
    requires Reads(g, tb, ts) && i < |ts| && ts[i] == Word(word) && (word == "from" || word == "join")
    requires Collect(tb, ts, i + 1, aliases) == Collected(after, j)
    ensures g(i, aliases) == g(j, after)
  {
    assert Visit(tb, ts, i, aliases) == Turn(NOTHING, after, j);
    ThenOnce(g(j, after), NOTHING, NOTHING);
  }

  lemma JoinedEnters(g: Reader, tb: Tables, ts: seq<Token>, o: nat, k: nat, s: Source, aliases: Aliases)
    requires Reads(g, tb, ts) && IsSql(tb) && GoodSource(tb, s) && ListEnds(tb, ts, k)
    requires o < |ts| && ts[o] == Word("join") && Spans(ts, o + 1, k, RenderSource(s))
    ensures g(o, aliases) == g(k, EnterSource(aliases, s))
  {
    SourceReadsTo(tb, ts, o + 1, k, s, aliases);
    ListTurn(g, tb, ts, o, "join", aliases, EnterSource(aliases, s), k);
  }

  /** What is in front of a clause ends at its keyword, or where the clause does. */
  lemma ClauseEnds(tb: Tables, ts: seq<Token>, k: nat, j: nat, keyword: string, cs: seq<Condition>)
    requires EndsItem(tb, keyword) && Spans(ts, k, j, Clause(keyword, cs)) && ListEnds(tb, ts, j)
    ensures ListEnds(tb, ts, k)
  {
    if cs != [] {
      SpansHead(ts, k, j, Word(keyword), RenderConditions(cs));
    }
  }

  lemma KindIsQuiet(tb: Tables, kind: seq<string>)
    requires GoodKind(tb, kind)
    ensures AllQuiet(Words(kind))
  {
  }

  lemma JoinedPartsFind(g: Reader, tb: Tables, ts: seq<Token>, i: nat, o: nat, k: nat, l: nat, items: seq<Item>,
                        here: seq<Item>, j: Joined)
    requires Reads(g, tb, ts) && IsSql(tb) && GoodJoined(tb, j)
    requires ScopeOf(here) == EnterSource(ScopeOf(items), j.source)
    requires Spans(ts, i, o, Words(j.kind)) && o < |ts| && ts[o] == Word("join")
    requires Spans(ts, o + 1, k, RenderSource(j.source)) && Spans(ts, k, l, Clause("on", j.on)) && ListEnds(tb, ts, l)
    ensures g(i, ScopeOf(items)) == ConditionsFindings(here, j.on).Then(g(l, ScopeOf(here)))
  {
    ClauseEnds(tb, ts, k, l, "on", j.on);
    KindIsQuiet(tb, j.kind);
    PassOverAll(g, tb, ts, i, o, Words(j.kind), ScopeOf(items));
    JoinedEnters(g, tb, ts, o, k, j.source, ScopeOf(items));
    ClauseFound(g, tb, ts, k, l, here, "on", j.on);
  }

  lemma JoinedFinds(g: Reader, tb: Tables, ts: seq<Token>, i: nat, l: nat, items: seq<Item>, here: seq<Item>, j: Joined)
    requires Reads(g, tb, ts) && IsSql(tb) && GoodJoined(tb, j)
    requires ScopeOf(here) == EnterSource(ScopeOf(items), j.source)
    requires Spans(ts, i, l, RenderJoined(j)) && ListEnds(tb, ts, l)
    ensures g(i, ScopeOf(items)) == ConditionsFindings(here, j.on).Then(g(l, ScopeOf(here)))
  {
    var source, on := RenderSource(j.source), Clause("on", j.on);
    var o := i + |j.kind|;
    var k := o + 1 + |source|;
    SpansSplit(ts, i, l, Words(j.kind), [Word("join")] + (source + on));
    SpansHead(ts, o, l, Word("join"), source + on);
    SpansSplit(ts, o + 1, l, source, on);
    JoinedPartsFind(g, tb, ts, i, o, k, l, items, here, j);
  }

  function ScopeAt(): seq<Source> -> Aliases { (ss: seq<Source>) => ScopeOf(TablesOf(ss)) }

  /** Wherever the piece of a join stands and ends, it is found, and brings its source into scope. */
  ghost predicate IsJoinFound(g: Reader, tb: Tables, ts: seq<Token>, j: Joined, piece: Joined -> seq<Token>,
                              says: (seq<Source>, Joined) -> Findings, scope: seq<Source> -> Aliases) {
    forall i: nat, l: nat, before {:trigger Spans(ts, i, l, piece(j)), says(before, j)} |
      Spans(ts, i, l, piece(j)) && ListEnds(tb, ts, l) ::
      g(i, scope(before)) == says(before, j).Then(g(l, scope(before + [j.source])))
  }

  /** The piece opens with a word that ends what is before it. */
  ghost predicate OpensEnding(tb: Tables, j: Joined, piece: Joined -> seq<Token>) {
    piece(j) != [] && piece(j)[0].kind == Ident && EndsItem(tb, piece(j)[0].text)
  }

  lemma JoinIsFound(g: Reader, tb: Tables, ts: seq<Token>, j: Joined)
    requires Reads(g, tb, ts) && IsSql(tb) && GoodJoined(tb, j)
    ensures IsJoinFound(g, tb, ts, j, JoinedPiece(), JoinSays(), ScopeAt())
  {
    forall i: nat, l: nat, before | Spans(ts, i, l, JoinedPiece()(j)) && ListEnds(tb, ts, l)
      ensures g(i, ScopeAt()(before)) == JoinSays()(before, j).Then(g(l, ScopeAt()(before + [j.source])))
    {
      TablesSnoc(before, j.source);
      JoinedFinds(g, tb, ts, i, l, TablesOf(before), TablesOf(before + [j.source]), j);
    }
  }

  lemma JoinedStarts(tb: Tables, j: Joined)
    requires IsSql(tb) && GoodJoined(tb, j)
    ensures OpensEnding(tb, j, JoinedPiece())
  {
    if j.kind != [] { assert j.kind[0] in j.kind; }
  }

  /** A join ends at the next one, or where they all do. */
  lemma JoinEnds(tb: Tables, ts: seq<Token>, k: nat, l: nat, js: seq<Joined>, piece: Joined -> seq<Token>)
    requires forall j | j in js :: OpensEnding(tb, j, piece)
    requires Spans(ts, k, l, RenderAll(js, piece)) && ListEnds(tb, ts, l)
    ensures ListEnds(tb, ts, k)
  {
    if js != [] {
      assert OpensEnding(tb, js[0], piece);
      SpansSplit(ts, k, l, piece(js[0]), RenderAll(js[1..], piece));
      SpansAt(ts, k, k + |piece(js[0])|, piece(js[0]), 0);
      EndingEnds(tb, ts, k);
    }
  }

  lemma {:induction false} EachIsFound(g: Reader, tb: Tables, ts: seq<Token>, i: nat, l: nat, before: seq<Source>,
                                       js: seq<Joined>, piece: Joined -> seq<Token>,
                                       says: (seq<Source>, Joined) -> Findings, scope: seq<Source> -> Aliases)
    requires forall j | j in js :: IsJoinFound(g, tb, ts, j, piece, says, scope) && OpensEnding(tb, j, piece)
    requires Spans(ts, i, l, RenderAll(js, piece)) && ListEnds(tb, ts, l)
    ensures g(i, scope(before)) == EachFindings(before, js, says).Then(g(l, scope(before + SourcesOf(js))))
    decreases |js|
  {
    if js == [] {
      assert before + SourcesOf(js) == before;
      ThenOnce(g(i, scope(before)), NOTHING, NOTHING);
    } else {
      var j, rest := js[0], js[1..];
      var here, k := before + [j.source], i + |piece(j)|;
      assert js == [j] + rest && IsJoinFound(g, tb, ts, j, piece, says, scope);
      SpansSplit(ts, i, l, piece(j), RenderAll(rest, piece));
      JoinEnds(tb, ts, k, l, rest, piece);
      EachIsFound(g, tb, ts, k, l, here, rest, piece, says, scope);
      assert here + SourcesOf(rest) == before + SourcesOf(js);
      ThenOnce(says(before, j), EachFindings(here, rest, says), g(l, scope(before + SourcesOf(js))));
    }
  }

  lemma JoinsFound(g: Reader, tb: Tables, ts: seq<Token>, i: nat, l: nat, before: seq<Source>, js: seq<Joined>)
    requires Reads(g, tb, ts) && IsSql(tb) && forall j | j in js :: GoodJoined(tb, j)
    requires Spans(ts, i, l, RenderJoins(js)) && ListEnds(tb, ts, l)
    ensures ListEnds(tb, ts, i)
    ensures g(i, ScopeOf(TablesOf(before)))
         == JoinsFindings(before, js).Then(g(l, ScopeOf(TablesOf(before + SourcesOf(js)))))
  {
    forall j | j in js
      ensures IsJoinFound(g, tb, ts, j, JoinedPiece(), JoinSays(), ScopeAt()) && OpensEnding(tb, j, JoinedPiece())
    {
      JoinIsFound(g, tb, ts, j);
      JoinedStarts(tb, j);
    }
    JoinEnds(tb, ts, i, l, js, JoinedPiece());
    EachIsFound(g, tb, ts, i, l, before, js, JoinedPiece(), JoinSays(), ScopeAt());
  }

  // --- the query ------------------------------------------------------------------------------------

  lemma TailEnds(g: Reader, tb: Tables, ts: seq<Token>, t: nat, tail: seq<Token>, aliases: Aliases)
    requires Reads(g, tb, ts) && IsSql(tb) && GoodTail(tb, tail) && Spans(ts, t, |ts|, tail)
    ensures ListEnds(tb, ts, t) && g(t, aliases) == NOTHING
  {
    if tail != [] {
      SpansAt(ts, t, |ts|, tail, 0);
      PassOverAll(g, tb, ts, t, |ts|, tail, aliases);
    }
    EndingEnds(tb, ts, t);
  }

  lemma WheresFound(g: Reader, tb: Tables, ts: seq<Token>, w: nat, t: nat, items: seq<Item>, wheres: seq<Condition>,
                    tail: seq<Token>)
    requires Reads(g, tb, ts) && IsSql(tb) && GoodConditions(tb, wheres) && GoodTail(tb, tail)
    requires Spans(ts, w, t, Clause("where", wheres)) && Spans(ts, t, |ts|, tail)
    ensures ListEnds(tb, ts, w) && g(w, ScopeOf(items)) == ConditionsFindings(items, wheres)
  {
    TailEnds(g, tb, ts, t, tail, ScopeOf(items));
    ClauseEnds(tb, ts, w, t, "where", wheres);
    ClauseFound(g, tb, ts, w, t, items, "where", wheres);
    ThenOnce(ConditionsFindings(items, wheres), NOTHING, NOTHING);
  }

  lemma JoinsThenWheres(g: Reader, tb: Tables, ts: seq<Token>, i: nat, w: nat, t: nat, q: Query)
    requires Reads(g, tb, ts) && IsSql(tb) && GoodQuery(tb, q)
    requires Spans(ts, i, w, RenderJoins(q.joins)) && Spans(ts, w, t, Clause("where", q.wheres))
    requires Spans(ts, t, |ts|, q.tail)
    ensures ListEnds(tb, ts, i)
    ensures g(i, ScopeOf(TablesOf(q.sources))) == Meaning(q)
  {
    WheresFound(g, tb, ts, w, t, TablesOf(q.sources + SourcesOf(q.joins)), q.wheres, q.tail);
    JoinsFound(g, tb, ts, i, w, q.sources, q.joins);
  }

  lemma FromFound(g: Reader, tb: Tables, ts: seq<Token>, o: nat, j: nat, ss: seq<Source>)
    requires Reads(g, tb, ts) && IsSql(tb) && ss != [] && forall s | s in ss :: GoodSource(tb, s)
    requires o < |ts| && ts[o] == Word("from") && Spans(ts, o + 1, j, RenderSources(ss)) && ListEnds(tb, ts, j)
    ensures g(o, map[]) == g(j, ScopeOf(TablesOf(ss)))
  {
    SourcesAreRead(tb, ts, o + 1, j, ss);
    ListTurn(g, tb, ts, o, "from", map[], ScopeOf(TablesOf(ss)), j);
  }

  lemma QueryPartsFound(g: Reader, tb: Tables, ts: seq<Token>, o: nat, j: nat, w: nat, t: nat, q: Query)
    requires Reads(g, tb, ts) && IsSql(tb) && GoodQuery(tb, q)
    requires Spans(ts, 0, o, q.prefix) && o < |ts| && ts[o] == Word("from")
    requires Spans(ts, o + 1, j, RenderSources(q.sources)) && Spans(ts, j, w, RenderJoins(q.joins))
    requires Spans(ts, w, t, Clause("where", q.wheres)) && Spans(ts, t, |ts|, q.tail)
    ensures g(0, map[]) == Meaning(q)
  {
    PassOverAll(g, tb, ts, 0, o, q.prefix, map[]);
    JoinsThenWheres(g, tb, ts, j, w, t, q);
    FromFound(g, tb, ts, o, j, q.sources);
  }

  lemma SpansBehind(ts: seq<Token>, prefix: seq<Token>, from: Token, rest: seq<Token>)
    requires ts == prefix + ([from] + rest)
    ensures Spans(ts, 0, |prefix|, prefix) && |prefix| < |ts| && ts[|prefix|] == from
    ensures Spans(ts, |prefix| + 1, |ts|, rest)
  {
    SpansSplit(ts, 0, |ts|, prefix, [from] + rest);
    SpansHead(ts, |prefix|, |ts|, from, rest);
  }

  /** Pieces one behind the other. */
  lemma SpansFour(ts: seq<Token>, i: nat, l: nat, a: seq<Token>, b: seq<Token>, c: seq<Token>, d: seq<Token>)
    returns (j: nat, k: nat, k': nat)
    requires Spans(ts, i, l, a + (b + (c + d)))
    ensures Spans(ts, i, j, a) && Spans(ts, j, k, b) && Spans(ts, k, k', c) && Spans(ts, k', l, d)
  {
    j := i + |a|;
    SpansSplit(ts, i, l, a, b + (c + d));
    k, k' := SpansThree(ts, j, l, b, c, d);
  }

  lemma SpansThree(ts: seq<Token>, i: nat, l: nat, a: seq<Token>, b: seq<Token>, c: seq<Token>)
    returns (j: nat, k: nat)
    requires Spans(ts, i, l, a + (b + c))
    ensures Spans(ts, i, j, a) && Spans(ts, j, k, b) && Spans(ts, k, l, c)
  {
    j := i + |a|;
    k := j + |b|;
    SpansSplit(ts, i, l, a, b + c);
    SpansSplit(ts, j, l, b, c);
  }

  lemma QueryFound(g: Reader, tb: Tables, ts: seq<Token>, q: Query, sources: seq<Token>, joins: seq<Token>,
                   wheres: seq<Token>)
    requires Reads(g, tb, ts) && IsSql(tb) && GoodQuery(tb, q)
    requires sources == RenderSources(q.sources) && joins == RenderJoins(q.joins) && wheres == Clause("where", q.wheres)
    requires ts == q.prefix + ([Word("from")] + (sources + (joins + (wheres + q.tail))))
    ensures g(0, map[]) == Meaning(q)
  {
    SpansBehind(ts, q.prefix, Word("from"), sources + (joins + (wheres + q.tail)));
    var j, w, t := SpansFour(ts, |q.prefix| + 1, |ts|, sources, joins, wheres, q.tail);
    QueryPartsFound(g, tb, ts, |q.prefix|, j, w, t, q);
  }

  /**
    A query gives back exactly what its conditions mean: a join for every equality of two
    columns, a predicate of its operator's class for every other condition, each on the
    table its qualifier stands for where it is written, in order; and nothing for a column
    without a qualifier.
   */
  lemma QueryGivesItsFindings(q: Query)
    requires GoodQuery(SQL, q)
    ensures ExtractTokens(SQL, Render(q)) == Meaning(q)
  {
    SqlIsSql();
    ReaderReads(SQL, Render(q));
    QueryFound(ReaderOf(SQL, Render(q)), SQL, Render(q), q, RenderSources(q.sources), RenderJoins(q.joins),
               Clause("where", q.wheres));
  }
}
