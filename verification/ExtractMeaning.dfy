/**
  What names stand for: the tables of a FROM list as they are written, the alias map that
  reading them fills, and the table that a qualifier means.
 */
module ExtractMeaning {
  import opened Text
  import opened ScanLoop
  import opened Extract

  /** A table of a FROM list. An empty schema or alias is not written; an alias may come with AS. */
  datatype Item = Item(schema: string, table: string, alias: string, withAs: bool)

  function Word(text: string): Token { Token(Ident, text) }

  function Mark(text: string): Token { Token(Symbol, text) }

  function RenderItem(x: Item): seq<Token> {
    (if x.schema != "" then [Word(x.schema), Mark(".")] else [])
    + [Word(x.table)]
    + RenderAlias(x.alias, x.withAs)
  }

  function RenderAlias(alias: string, withAs: bool): seq<Token> {
    if alias == "" then [] else if withAs then [Word("as"), Word(alias)] else [Word(alias)]
  }

  // --- what the names stand for ------------------------------------------------------

  function RefOf(x: Item): Ref { Ref(x.schema, x.table, "") }

  predicate Called(x: Item, name: string) { x.alias != "" && Lower(x.alias) == Lower(name) }

  predicate Named(x: Item, name: string) { Lower(x.table) == Lower(name) }

  /** The last item with the name as its alias; without one, the first whose table has the name. */
  function Meant(items: seq<Item>, name: string): Option<Ref> {
    match LastCalled(items, name)
    case Some(ref) => Some(ref)
    case None => FirstNamed(items, name)
  }

  function LastCalled(items: seq<Item>, name: string): Option<Ref> {
    if items == [] then None
    else if Called(items[|items| - 1], name) then Some(RefOf(items[|items| - 1]))
    else LastCalled(items[..|items| - 1], name)
  }

  function FirstNamed(items: seq<Item>, name: string): Option<Ref> {
    if items == [] then None
    else match FirstNamed(items[..|items| - 1], name)
      case Some(ref) => Some(ref)
      case None => if Named(items[|items| - 1], name) then Some(RefOf(items[|items| - 1])) else None
  }

  /** The table a qualifier stands for; a name of no item is left as it is written. */
  function Column(items: seq<Item>, qualifier: string, column: string): Ref {
    match Meant(items, qualifier)
    case Some(t) => Ref(t.schema, t.table, column)
    case None => Ref("", qualifier, column)
  }

  // --- what has to be said about names -----------------------------------------------

  predicate PlainName(tb: Tables, name: string) {
    name != "" && name !in tb.clauseStoppers
  }

  /** A name the scan passes over. */
  predicate QuietName(name: string) {
    name != "from" && name != "join" && name != "like" && name != "ilike"
  }

  predicate GoodItem(tb: Tables, x: Item) {
    && PlainName(tb, x.table)
    && (x.schema != "" ==> PlainName(tb, x.schema))
    && (x.alias != "" ==> PlainName(tb, x.alias))
  }

  // --- the alias map is what the names stand for ---------------------------------------

  function EnterAll(aliases: Aliases, items: seq<Item>): Aliases
    decreases |items|
  {
    if items == [] then aliases
    else EnterAll(Enter(aliases, RefOf(items[0]), items[0].alias), items[1..])
  }

  lemma EnterFirst(aliases: Aliases, items: seq<Item>)
    requires items != []
    ensures EnterAll(aliases, items) == EnterAll(Enter(aliases, RefOf(items[0]), items[0].alias), items[1..])
    ensures |items| == 1 ==> EnterAll(aliases, items) == Enter(aliases, RefOf(items[0]), items[0].alias)
  {
  }

  function ScopeOf(items: seq<Item>): Aliases { EnterAll(map[], items) }

  lemma {:induction false} EnterLast(aliases: Aliases, items: seq<Item>)
    requires items != []
    ensures var n := |items| - 1;
      EnterAll(aliases, items) == Enter(EnterAll(aliases, items[..n]), RefOf(items[n]), items[n].alias)
    decreases |items|
  {
    var n := |items| - 1;
    if n > 0 {
      EnterLast(Enter(aliases, RefOf(items[0]), items[0].alias), items[1..]);
      assert items[1..][..n - 1] == items[..n][1..];
    }
  }

  function Lookup(aliases: Aliases, name: string): Option<Ref> {
    if Lower(name) in aliases then Some(aliases[Lower(name)]) else None
  }

  /** Filling the map in order comes to: the last alias wins, and a bare table name yields to any alias. */
  lemma {:induction false} ScopeIsMeaning(items: seq<Item>, name: string)
    ensures Lookup(ScopeOf(items), name) == Meant(items, name)
  {
    if items != [] {
      ScopeIsMeaning(items[..|items| - 1], name);
      EnterLast(map[], items);
    }
  }

  // --- the FROM list ----------------------------------------------------------------------

  /** The tokens from index i to j are those of the piece. */
  ghost predicate Spans(ts: seq<Token>, i: nat, j: nat, piece: seq<Token>) {
    i + |piece| == j <= |ts| && forall k: nat {:trigger piece[k]} | k < |piece| :: ts[i + k] == piece[k]
  }

  lemma SpansSplit(ts: seq<Token>, i: nat, j: nat, a: seq<Token>, b: seq<Token>)
    requires Spans(ts, i, j, a + b)
    ensures Spans(ts, i, i + |a|, a) && Spans(ts, i + |a|, j, b)
  {
    forall k: nat | k < |a| ensures ts[i + k] == a[k] {
      assert (a + b)[k] == a[k];
    }
    forall k: nat | k < |b| ensures ts[i + |a| + k] == b[k] {
      assert (a + b)[|a| + k] == b[k];
    }
  }

  lemma SpansHead(ts: seq<Token>, i: nat, j: nat, t: Token, rest: seq<Token>)
    requires Spans(ts, i, j, [t] + rest)
    ensures i < |ts| && ts[i] == t
    ensures Spans(ts, i + 1, j, rest)
  {
    SpansSplit(ts, i, j, [t], rest);
    SpansAt(ts, i, i + 1, [t], 0);
  }

  lemma SpansAt(ts: seq<Token>, i: nat, j: nat, piece: seq<Token>, k: nat)
    requires Spans(ts, i, j, piece) && k < |piece|
    ensures i + k < |ts| && ts[i + k] == piece[k]
  {
  }

  /** What an item can end with: no dot, and no name but one of those that end a clause. */
  predicate ItemEnds(tb: Tables, ts: seq<Token>, j: nat) {
    && !IsSymbol(ts, j, ".")
    && (IsName(ts, j) ==> EndsItem(tb, ts[j].text))
  }

  /** A word that ends an item of a FROM list: one that is no alias, and not the AS before one. */
  predicate EndsItem(tb: Tables, word: string) { word in tb.clauseStoppers && word != "as" }

  lemma ItemAlias(tb: Tables, ts: seq<Token>, i: nat, j: nat, alias: string, withAs: bool)
    requires "as" in tb.clauseStoppers && (alias != "" ==> PlainName(tb, alias))
    requires Spans(ts, i, j, RenderAlias(alias, withAs)) && ItemEnds(tb, ts, j)
    ensures ReadAlias(tb, ts, i) == Alias(alias, j)
  {
    var p := RenderAlias(alias, withAs);
    if alias != "" {
      SpansAt(ts, i, j, p, 0);
      if withAs { SpansAt(ts, i, j, p, 1); }
    }
  }

  /** An alias or the end: no dot. */
  lemma NoDotBehind(tb: Tables, ts: seq<Token>, i: nat, j: nat, alias: string, withAs: bool)
    requires Spans(ts, i, j, RenderAlias(alias, withAs)) && ItemEnds(tb, ts, j)
    ensures !IsSymbol(ts, i, ".")
  {
    if alias != "" { SpansAt(ts, i, j, RenderAlias(alias, withAs), 0); }
  }

  lemma BareItemRead(tb: Tables, ts: seq<Token>, i: nat, j: nat, x: Item, aliases: Aliases)
    requires GoodItem(tb, x) && "as" in tb.clauseStoppers && x.schema == ""
    requires Spans(ts, i, j, RenderItem(x)) && ItemEnds(tb, ts, j)
    ensures i < j && Collect(tb, ts, i, aliases) == CollectMore(tb, ts, i, j, Enter(aliases, RefOf(x), x.alias))
  {
    var alias := RenderAlias(x.alias, x.withAs);
    assert RenderItem(x) == [Word(x.table)] + alias;
    SpansHead(ts, i, j, Word(x.table), alias);
    NoDotBehind(tb, ts, i + 1, j, x.alias, x.withAs);
    assert DottedName(tb, ts, i, true) == Parts([x.table], i + 1);
    ItemAlias(tb, ts, i + 1, j, x.alias, x.withAs);
  }

  lemma QualifiedItemRead(tb: Tables, ts: seq<Token>, i: nat, j: nat, x: Item, aliases: Aliases)
    requires GoodItem(tb, x) && "as" in tb.clauseStoppers && x.schema != ""
    requires Spans(ts, i, j, RenderItem(x)) && ItemEnds(tb, ts, j)
    ensures i < j && Collect(tb, ts, i, aliases) == CollectMore(tb, ts, i, j, Enter(aliases, RefOf(x), x.alias))
  {
    var alias, front := RenderAlias(x.alias, x.withAs), [Word(x.schema), Mark("."), Word(x.table)];
    assert RenderItem(x) == front + alias;
    SpansSplit(ts, i, j, front, alias);
    SpansAt(ts, i, i + 3, front, 0);
    SpansAt(ts, i, i + 3, front, 1);
    SpansAt(ts, i, i + 3, front, 2);
    NoDotBehind(tb, ts, i + 3, j, x.alias, x.withAs);
    assert DottedName(tb, ts, i + 2, false) == Parts([x.table], i + 3);
    assert DottedName(tb, ts, i, true) == Parts([x.schema, x.table], i + 3);
    ItemAlias(tb, ts, i + 3, j, x.alias, x.withAs);
  }

  /** An item is read up to where it ends. */
  lemma ItemRead(tb: Tables, ts: seq<Token>, i: nat, j: nat, x: Item, aliases: Aliases)
    requires GoodItem(tb, x) && "as" in tb.clauseStoppers
    requires Spans(ts, i, j, RenderItem(x)) && ItemEnds(tb, ts, j)
    ensures i < j && Collect(tb, ts, i, aliases) == CollectMore(tb, ts, i, j, Enter(aliases, RefOf(x), x.alias))
  {
    if x.schema != "" {
      QualifiedItemRead(tb, ts, i, j, x, aliases);
    } else {
      BareItemRead(tb, ts, i, j, x, aliases);
    }
  }

  lemma ResolveIsColumn(items: seq<Item>, qualifier: string, column: string)
    ensures Resolve(Ref("", qualifier, column), ScopeOf(items)) == Column(items, qualifier, column)
  {
    ScopeIsMeaning(items, qualifier);
  }
}
