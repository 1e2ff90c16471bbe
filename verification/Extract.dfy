/**
  The join extractor of internal/sqlprobe/extract.go as mathematical functions over
  a token list. The loops, the moving index and the mutated alias map of the source
  are in ExtractLoops.dfy, and are proved to compute these functions.
 */
module Extract {
  import opened Text
  import opened ScanLoop

  /** rawRef: a column as it stands in the text; an unqualified table has no schema. */
  datatype Ref = Ref(schema: string, table: string, column: string)

  datatype Join = Join(left: Ref, right: Ref)

  datatype PredOp = Equality | Range | LikePrefix | LikeInfix | Containment | FullText | VectorDistance

  datatype Predicate = Predicate(ref: Ref, op: PredOp)

  datatype Findings = Findings(joins: seq<Join>, preds: seq<Predicate>) {
    function Then(more: Findings): Findings {
      Findings(joins + more.joins, preds + more.preds)
    }
  }

  const NOTHING := Findings([], [])

  /** The word and operator tables of the package. */
  datatype Tables = Tables(
    comparison: set<string>,
    containment: set<string>,
    vectorDistance: set<string>,
    clauseStoppers: set<string>)

  const SQL := Tables(
    {"<", ">", "<=", ">=", "<>", "!="},
    {"@>", "<@", "?", "?|", "?&"},
    {"<->", "<=>", "<#>"},
    {"on", "using", "where", "group", "order",
     "limit", "offset", "having", "union", "intersect",
     "except", "returning", "join", "inner", "left",
     "right", "full", "cross", "outer", "natural",
     "lateral", "as", "into", "for", "window",
     "tablesample", "set", "values", "select", "from"})

  predicate IsSymbol(ts: seq<Token>, i: int, text: string) {
    0 <= i < |ts| && ts[i].kind == Symbol && ts[i].text == text
  }

  predicate IsName(ts: seq<Token>, i: int) {
    0 <= i < |ts| && ts[i].kind == Ident
  }

  predicate IsWord(ts: seq<Token>, i: int, text: string) {
    IsName(ts, i) && ts[i].text == text
  }

  // --- references -----------------------------------------------------------------

  datatype Parts = Parts(names: seq<string>, next: nat)

  /** readDottedName; `first` until a name has been read. */
  function DottedName(tb: Tables, ts: seq<Token>, i: nat, first: bool): (r: Parts)
    requires i <= |ts|
    ensures i <= r.next <= |ts|
    ensures r.names != [] ==> r.next > i
    decreases |ts| - i
  {
    if !IsName(ts, i) then Parts([], i)
    else if first && ts[i].text in tb.clauseStoppers then Parts([], i)
    else if IsSymbol(ts, i + 1, ".") then
      var rest := DottedName(tb, ts, i + 2, false);
      Parts([ts[i].text] + rest.names, rest.next)
    else Parts([ts[i].text], i + 1)
  }

  /** The names of the dotted name whose last token is at i: the walk of refEndingAt. */
  function NamesEndingAt(ts: seq<Token>, i: int): seq<string>
    requires i < |ts|
    decreases i
  {
    if !IsName(ts, i) then []
    else if IsSymbol(ts, i - 1, ".") then NamesEndingAt(ts, i - 2) + [ts[i].text]
    else [ts[i].text]
  }

  function RefFromParts(names: seq<string>): Option<Ref> {
    if |names| == 2 then Some(Ref("", names[0], names[1]))
    else if |names| == 3 then Some(Ref(names[0], names[1], names[2]))
    else None
  }

  function RefEndingAt(ts: seq<Token>, i: int): Option<Ref>
    requires i < |ts|
  {
    RefFromParts(NamesEndingAt(ts, i))
  }

  function RefStartingAt(tb: Tables, ts: seq<Token>, i: nat): Option<Ref>
    requires i <= |ts|
  {
    RefFromParts(DottedName(tb, ts, i, true).names)
  }

  type Aliases = map<string, Ref>

  function Resolve(ref: Ref, aliases: Aliases): Ref {
    if ref.schema != "" then ref
    else if Lower(ref.table) in aliases then
      var target := aliases[Lower(ref.table)];
      Ref(target.schema, target.table, ref.column)
    else ref
  }

  // --- the FROM list ----------------------------------------------------------------

  function TableRef(names: seq<string>): Ref
    requires names != []
  {
    if |names| >= 2 then Ref(names[|names| - 2], names[|names| - 1], "") else Ref("", names[0], "")
  }

  datatype Alias = Alias(name: string, next: nat)

  function ReadAlias(tb: Tables, ts: seq<Token>, i: nat): (r: Alias)
    requires i <= |ts|
    ensures i <= r.next <= |ts|
  {
    var j := if IsWord(ts, i, "as") then i + 1 else i;
    if IsName(ts, j) && ts[j].text !in tb.clauseStoppers then Alias(ts[j].text, j + 1) else Alias("", j)
  }

  predicate OpensSubquery(ts: seq<Token>, i: nat) {
    IsWord(ts, i + 1, "select") || IsWord(ts, i + 1, "values") || IsWord(ts, i + 1, "with")
  }

  /** skipParens: just past the parenthesis that brings the depth back to zero, or the end. */
  function SkipParens(ts: seq<Token>, i: nat, depth: int): (next: nat)
    requires i <= |ts|
    ensures i <= next <= |ts|
    ensures i < |ts| ==> next > i
    decreases |ts| - i
  {
    if i == |ts| then i
    else if IsSymbol(ts, i, "(") then SkipParens(ts, i + 1, depth + 1)
    else if IsSymbol(ts, i, ")") then if depth == 1 then i + 1 else SkipParens(ts, i + 1, depth - 1)
    else SkipParens(ts, i + 1, depth)
  }

  /** An alias is entered as it reads; the bare name refers to itself unless it is taken. */
  function Enter(aliases: Aliases, ref: Ref, name: string): Aliases {
    var named := if name != "" then aliases[Lower(name) := ref] else aliases;
    if Lower(ref.table) in named then named else named[Lower(ref.table) := ref]
  }

  datatype Collected = Collected(aliases: Aliases, next: nat)

  /** collectAliases from index i; `next` is where the scan goes on. */
  function Collect(tb: Tables, ts: seq<Token>, i: nat, aliases: Aliases): (r: Collected)
    requires i <= |ts|
    ensures i <= r.next <= |ts|
    decreases |ts| - i, 1
  {
    if IsSymbol(ts, i, "(") then
      if OpensSubquery(ts, i) then
        CollectMore(tb, ts, i, ReadAlias(tb, ts, SkipParens(ts, i, 0)).next, aliases)
      else Collect(tb, ts, i + 1, aliases)
    else
      var parts := DottedName(tb, ts, i, true);
      if parts.names == [] then Collected(aliases, i)
      else
        var alias := ReadAlias(tb, ts, parts.next);
        CollectMore(tb, ts, i, alias.next, Enter(aliases, TableRef(parts.names), alias.name))
  }

  /** A comma continues the FROM list; anything else ends it. */
  function CollectMore(tb: Tables, ts: seq<Token>, i: nat, next: nat, aliases: Aliases): (r: Collected)
    requires i < next <= |ts|
    ensures i < r.next <= |ts|
    decreases |ts| - i, 0
  {
    if IsSymbol(ts, next, ",") then Collect(tb, ts, next + 1, aliases) else Collected(aliases, next)
  }

  // --- the scan -----------------------------------------------------------------------

  function LikeOperator(ts: seq<Token>, i: nat): PredOp {
    if i < |ts| && ts[i].kind == Str && HasPrefix(ts[i].text, "%") then LikeInfix else LikePrefix
  }

  /** What the scan can see from a token: the reference before it, what follows it, the FROM list it may open. */
  datatype View = View(left: Option<Ref>, right: Option<Ref>, like: PredOp, from: Collected)

  function Around(tb: Tables, ts: seq<Token>, i: nat, aliases: Aliases): View
    requires i < |ts|
  {
    View(RefEndingAt(ts, i - 1), RefStartingAt(tb, ts, i + 1), LikeOperator(ts, i + 1), Collect(tb, ts, i + 1, aliases))
  }

  /** A predicate of class op on the reference before the operator, if there is one. */
  function PredicateOn(left: Option<Ref>, aliases: Aliases, op: PredOp): Findings {
    match left
    case Some(ref) => Findings([], [Predicate(Resolve(ref, aliases), op)])
    case None => NOTHING
  }

  function EqualityOf(v: View, aliases: Aliases): Findings {
    match (v.left, v.right)
    case (Some(left), Some(right)) => Findings([Join(Resolve(left, aliases), Resolve(right, aliases))], [])
    case (_, _) => PredicateOn(v.left, aliases, Equality)
  }

  datatype Turn = Turn(found: Findings, aliases: Aliases, next: nat)

  function VisitToken(tb: Tables, t: Token, v: View, i: nat, aliases: Aliases): Turn {
    if t.kind == Symbol then
      if t.text == ";" then Turn(NOTHING, map[], i + 1)
      else if t.text == "=" then Turn(EqualityOf(v, aliases), aliases, i + 1)
      else if t.text in tb.comparison then Turn(PredicateOn(v.left, aliases, Range), aliases, i + 1)
      else if t.text in tb.containment then Turn(PredicateOn(v.left, aliases, Containment), aliases, i + 1)
      else if t.text == "@@" then Turn(PredicateOn(v.left, aliases, FullText), aliases, i + 1)
      else if t.text in tb.vectorDistance then Turn(PredicateOn(v.left, aliases, VectorDistance), aliases, i + 1)
      else Turn(NOTHING, aliases, i + 1)
    else if t.kind == Ident then
      if t.text == "from" || t.text == "join" then Turn(NOTHING, v.from.aliases, v.from.next)
      else if t.text == "like" || t.text == "ilike" then Turn(PredicateOn(v.left, aliases, v.like), aliases, i + 1)
      else Turn(NOTHING, aliases, i + 1)
    else Turn(NOTHING, aliases, i + 1)
  }

  /** One turn of the loop of extract. */
  function Visit(tb: Tables, ts: seq<Token>, i: nat, aliases: Aliases): (r: Turn)
    requires i < |ts|
    ensures i < r.next <= |ts|
  {
    VisitToken(tb, ts[i], Around(tb, ts, i, aliases), i, aliases)
  }

  /** What the scan still finds from index i on. */
  function ExtractFrom(tb: Tables, ts: seq<Token>, i: nat, aliases: Aliases): Findings
    requires i <= |ts|
    decreases |ts| - i
  {
    if i == |ts| then NOTHING
    else
      var t := Visit(tb, ts, i, aliases);
      t.found.Then(ExtractFrom(tb, ts, t.next, t.aliases))
  }

  function ExtractTokens(tb: Tables, ts: seq<Token>): Findings {
    ExtractFrom(tb, ts, 0, map[])
  }
}
