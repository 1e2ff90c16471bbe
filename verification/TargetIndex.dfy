/**
  The affix index of internal/infer/generate.go: a map from every form of every
  table name to the tables answering to it, standing in for a scan of all tables;
  and the lookup that goes through it.
 */
module TargetIndex {
  import opened Text
  import opened Profile
  import opened TableForms
  import opened Model
  import opened Counting
  import opened Sorting

  datatype Schema = Schema(name: string, tables: seq<Table>)

  datatype IndexedTarget = IndexedTarget(table: Table, origin: Origin)

  type Index = map<string, seq<IndexedTarget>>

  function Get(index: Index, value: string): seq<IndexedTarget> {
    if value in index then index[value] else []
  }

  function Flatten(schemas: seq<Schema>): seq<Table> {
    if schemas == [] then []
    else Flatten(schemas[..|schemas| - 1]) + schemas[|schemas| - 1].tables
  }

  function AnswerOf(p: Profile, value: string): Table -> seq<IndexedTarget> {
    (t: Table) => Answer(FormsOf(p, t.name), t, value)
  }

  /** The tables having a form with the value, in order, each with the form's origin. */
  function Answering(p: Profile, tables: seq<Table>, value: string): seq<IndexedTarget> {
    FlatMap(tables, AnswerOf(p, value))
  }

  function Answer(forms: seq<Form>, t: Table, value: string): seq<IndexedTarget> {
    match Find(forms, value)
    case Some(form) => [IndexedTarget(t, form.origin)]
    case None => []
  }

  ghost predicate IsIndexOf(index: Index, p: Profile, tables: seq<Table>) {
    forall value :: Get(index, value) == Answering(p, tables, value)
  }

  ghost function AnsweringOf(p: Profile, tables: seq<Table>): string -> seq<IndexedTarget> {
    value => Answering(p, tables, value)
  }

  /** These forms of the table are in the index, on top of what was there before. */
  ghost predicate PartlyIndexed(index: Index, before: string -> seq<IndexedTarget>, t: Table, forms: seq<Form>) {
    forall value :: Get(index, value) == before(value) + Answer(forms, t, value)
  }

  lemma FormEntered(index: Index, before: string -> seq<IndexedTarget>, t: Table, forms: seq<Form>, k: nat)
    requires k < |forms| && Proper(forms)
    requires PartlyIndexed(index, before, t, forms[..k])
    ensures PartlyIndexed(index[forms[k].value := Get(index, forms[k].value) + [IndexedTarget(t, forms[k].origin)]],
                          before, t, forms[..k + 1])
  {
    var f := forms[k];
    var index' := index[f.value := Get(index, f.value) + [IndexedTarget(t, f.origin)]];
    assert forms[..k + 1] == forms[..k] + [f];
    assert Find(forms[..k], f.value).None? by {
      FindIsMembership(forms[..k], f.value);
    }
    forall value ensures Get(index', value) == before(value) + Answer(forms[..k + 1], t, value) {
      assert Get(index, value) == before(value) + Answer(forms[..k], t, value);
      FindAppend(forms[..k], f, value);
    }
  }

  lemma TableEntered(index: Index, p: Profile, done: seq<Table>, t: Table)
    requires PartlyIndexed(index, AnsweringOf(p, done), t, FormsOf(p, t.name))
    ensures IsIndexOf(index, p, done + [t])
  {
    assert (done + [t])[..|done|] == done;
  }

  /** The innermost loop of buildTargetIndex: every form of one table. */
  method IndexTable(p: Profile, before: Index, t: Table, ghost done: seq<Table>) returns (index: Index)
    requires IsIndexOf(before, p, done)
    ensures IsIndexOf(index, p, done + [t])
  {
    index := before;
    var forms := DeriveForms(p, t.name);
    FormsAreProper(p, t.name);
    for k := 0 to |forms|
      invariant PartlyIndexed(index, AnsweringOf(p, done), t, forms[..k])
    {
      FormEntered(index, AnsweringOf(p, done), t, forms, k);
      index := index[forms[k].value := Get(index, forms[k].value) + [IndexedTarget(t, forms[k].origin)]];
    }
    assert forms[..|forms|] == forms;
    TableEntered(index, p, done, t);
  }

  method IndexTables(p: Profile, before: Index, tables: seq<Table>, ghost done: seq<Table>) returns (index: Index)
    requires IsIndexOf(before, p, done)
    ensures IsIndexOf(index, p, done + tables)
  {
    index := before;
    assert done + tables[..0] == done;
    for j := 0 to |tables|
      invariant IsIndexOf(index, p, done + tables[..j])
    {
      index := IndexTable(p, index, tables[j], done + tables[..j]);
      assert done + tables[..j] + [tables[j]] == done + tables[..j + 1];
    }
    assert tables[..|tables|] == tables;
  }

  /** buildTargetIndex. */
  method BuildTargetIndex(p: Profile, schemas: seq<Schema>) returns (index: Index)
    ensures IsIndexOf(index, p, Flatten(schemas))
  {
    index := map[];
    for i := 0 to |schemas|
      invariant IsIndexOf(index, p, Flatten(schemas[..i]))
    {
      assert schemas[..i + 1][..i] == schemas[..i];
      index := IndexTables(p, index, schemas[i].tables, Flatten(schemas[..i]));
    }
    assert schemas[..|schemas|] == schemas;
  }

  // --- the index equals the scan -----------------------------------------------------------

  function ScanOf(p: Profile, entity: string): Table -> seq<IndexedTarget> {
    (t: Table) => Found(t, Match(p, entity, t.name))
  }

  function Found(t: Table, form: Option<Form>): seq<IndexedTarget> {
    if form.Some? then [IndexedTarget(t, form.value.origin)] else []
  }

  /** What a scan of the tables with Profile.Match finds. */
  function Scan(p: Profile, tables: seq<Table>, entity: string): seq<IndexedTarget> {
    FlatMap(tables, ScanOf(p, entity))
  }

  lemma AnswerIsFound(p: Profile, t: Table, entity: string)
    requires entity != "" && Normal(entity) == entity
    ensures AnswerOf(p, entity)(t) == ScanOf(p, entity)(t)
  {
  }

  /** At an entity, the index holds what the scan would find, in the scan's order. */
  lemma IndexIsScan(index: Index, p: Profile, tables: seq<Table>, entity: string)
    requires IsIndexOf(index, p, tables)
    requires entity != "" && Normal(entity) == entity
    ensures Get(index, entity) == Scan(p, tables, entity)
  {
    forall t | t in tables ensures AnswerOf(p, entity)(t) == ScanOf(p, entity)(t) {
      AnswerIsFound(p, t, entity);
    }
    FlatMapSame(tables, AnswerOf(p, entity), ScanOf(p, entity));
  }

  /** A table as a scan finds it, by the strongest way its name comes to be the entity. */
  function StrongestOf(p: Profile, entity: string): Table -> seq<IndexedTarget> {
    (t: Table) =>
      match Strongest(p, entity, Normal(t.name))
      case Some(origin) => [IndexedTarget(t, origin)]
      case None => []
  }

  lemma FoundByStrongest(p: Profile, t: Table, entity: string)
    requires entity != "" && Normal(entity) == entity
    ensures ScanOf(p, entity)(t) == StrongestOf(p, entity)(t)
  {
    MatchIsStrongest(p, entity, t.name);
  }

  /** Every table is found by the strongest way its name comes to be the entity. */
  lemma ScanFindsStrongest(p: Profile, tables: seq<Table>, entity: string)
    requires entity != "" && Normal(entity) == entity
    ensures Scan(p, tables, entity) == FlatMap(tables, StrongestOf(p, entity))
  {
    forall t | t in tables ensures ScanOf(p, entity)(t) == StrongestOf(p, entity)(t) {
      FoundByStrongest(p, t, entity);
    }
    FlatMapSame(tables, ScanOf(p, entity), StrongestOf(p, entity));
  }

  // --- the lookup ------------------------------------------------------------------------------

  function Refs(its: seq<IndexedTarget>): seq<string> {
    seq(|its|, i requires 0 <= i < |its| => its[i].table.Ref())
  }

  function TableRefs(tables: seq<Table>): seq<string> {
    seq(|tables|, i requires 0 <= i < |tables| => tables[i].Ref())
  }

  /** The entry is the first of its table among those of its strength. */
  ghost predicate ComesFirst(its: seq<IndexedTarget>, it: IndexedTarget) {
    exists i :: 0 <= i < |its| && its[i] == it &&
      forall j | 0 <= j < i && its[j].table.Ref() == it.table.Ref() :: its[j].origin.Rank() > it.origin.Rank()
  }

  ghost predicate AllComeFirst(best: map<string, IndexedTarget>, its: seq<IndexedTarget>) {
    forall k | k in best :: ComesFirst(its, best[k])
  }

  /** best holds, for every table ref of the list, an entry of the strongest origin there is for it. */
  ghost predicate IsBest(best: map<string, IndexedTarget>, its: seq<IndexedTarget>) {
    && (forall k :: k in best <==> k in Refs(its))
    && (forall k | k in best :: best[k] in its && best[k].table.Ref() == k)
    && (forall it | it in its :: it.table.Ref() in best && best[it.table.Ref()].origin.Rank() <= it.origin.Rank())
  }

  /** Whether the entry takes the place of what is kept for its table. */
  predicate Replaces(best: map<string, IndexedTarget>, key: string, it: IndexedTarget) {
    key !in best || it.origin.Rank() < best[key].origin.Rank()
  }

  lemma RefsSnoc(its: seq<IndexedTarget>, it: IndexedTarget)
    ensures Refs(its + [it]) == Refs(its) + [it.table.Ref()]
  {
  }

  lemma BestSnoc(best: map<string, IndexedTarget>, its: seq<IndexedTarget>, it: IndexedTarget, key: string)
    requires IsBest(best, its) && key == it.table.Ref()
    ensures Replaces(best, key, it) ==> IsBest(best[key := it], its + [it])
    ensures !Replaces(best, key, it) ==> IsBest(best, its + [it])
  {
    RefsSnoc(its, it);
  }

  lemma FirstsSnoc(best: map<string, IndexedTarget>, its: seq<IndexedTarget>, it: IndexedTarget, key: string)
    requires IsBest(best, its) && AllComeFirst(best, its) && key == it.table.Ref()
    ensures AllComeFirst(if Replaces(best, key, it) then best[key := it] else best, its + [it])
  {
    forall k | k in best ensures ComesFirst(its + [it], best[k]) {
      FirstStays(its, best[k], it);
    }
    if Replaces(best, key, it) { NewComesFirst(best, its, it, key); }
  }

  lemma NewComesFirst(best: map<string, IndexedTarget>, its: seq<IndexedTarget>, it: IndexedTarget, key: string)
    requires IsBest(best, its) && key == it.table.Ref() && Replaces(best, key, it)
    ensures ComesFirst(its + [it], it)
  {
    var more := its + [it];
    forall j | 0 <= j < |its| && more[j].table.Ref() == key ensures more[j].origin.Rank() > it.origin.Rank() {
      assert more[j] == its[j] && its[j] in its;
    }
    assert more[|its|] == it;
  }

  lemma FirstStays(its: seq<IndexedTarget>, x: IndexedTarget, more: IndexedTarget)
    requires ComesFirst(its, x)
    ensures ComesFirst(its + [more], x)
  {
    var i :| 0 <= i < |its| && its[i] == x &&
      forall j | 0 <= j < i && its[j].table.Ref() == x.table.Ref() :: its[j].origin.Rank() > x.origin.Rank();
    assert (its + [more])[i] == x;
    assert forall j | 0 <= j < i :: (its + [more])[j] == its[j];
  }

  lemma SeenTwice(its: seq<IndexedTarget>, i: nat, key: string)
    requires i < |its| && key == its[i].table.Ref() && key in Refs(its[..i])
    ensures !Distinct(Refs(its))
  {
    var k :| 0 <= k < i && Refs(its[..i])[k] == key;
    assert Refs(its)[k] == Refs(its)[i];
  }

  lemma CollapseStep(best: map<string, IndexedTarget>, its: seq<IndexedTarget>, i: nat, key: string)
    requires i < |its| && IsBest(best, its[..i]) && key == its[i].table.Ref()
    ensures IsBest(if Replaces(best, key, its[i]) then best[key := its[i]] else best, its[..i + 1])
    ensures AllComeFirst(best, its[..i]) ==>
      AllComeFirst(if Replaces(best, key, its[i]) then best[key := its[i]] else best, its[..i + 1])
    ensures key in best ==> !Distinct(Refs(its))
  {
    assert its[..i + 1] == its[..i] + [its[i]];
    BestSnoc(best, its[..i], its[i], key);
    if AllComeFirst(best, its[..i]) { FirstsSnoc(best, its[..i], its[i], key); }
    if key in best { SeenTwice(its, i, key); }
  }

  /** The collapse at the start of resolveByAffix. */
  method CollapseBest(its: seq<IndexedTarget>) returns (best: map<string, IndexedTarget>, ghost replaced: nat)
    ensures IsBest(best, its) && AllComeFirst(best, its)
    ensures Distinct(Refs(its)) ==> replaced == 0
  {
    best, replaced := map[], 0;
    for i := 0 to |its|
      invariant IsBest(best, its[..i]) && AllComeFirst(best, its[..i])
      invariant Distinct(Refs(its)) ==> replaced == 0
    {
      var key := its[i].table.Ref();
      CollapseStep(best, its, i, key);
      if key in best {
        replaced := replaced + 1;
      }
      if Replaces(best, key, its[i]) {
        best := best[key := its[i]];
      }
    }
    assert its[..|its|] == its;
  }

  lemma AnswerShape(forms: seq<Form>, t: Table, value: string)
    ensures var here := Answer(forms, t, value); here == [] || (|here| == 1 && here[0].table == t)
  {
  }

  function TableRefOf(): Table -> string { (t: Table) => t.Ref() }

  function EntryRefOf(): IndexedTarget -> string { (it: IndexedTarget) => it.table.Ref() }

  lemma DistinctEntries(its: seq<IndexedTarget>)
    requires DistinctBy(its, EntryRefOf())
    ensures Distinct(Refs(its))
  {
    forall i, j | 0 <= i < j < |its| ensures Refs(its)[i] != Refs(its)[j] {
      assert EntryRefOf()(its[i]) != EntryRefOf()(its[j]);
    }
  }

  lemma DistinctTables(tables: seq<Table>)
    requires Distinct(TableRefs(tables))
    ensures DistinctBy(tables, TableRefOf())
  {
    forall i, j | 0 <= i < j < |tables| ensures TableRefOf()(tables[i]) != TableRefOf()(tables[j]) {
      assert TableRefs(tables)[i] != TableRefs(tables)[j];
    }
  }

  lemma AnsweringDistinct(p: Profile, tables: seq<Table>, value: string)
    requires Distinct(TableRefs(tables))
    ensures Distinct(Refs(Answering(p, tables, value)))
  {
    var f := AnswerOf(p, value);
    forall t | t in tables ensures f(t) == [] || (|f(t)| == 1 && EntryRefOf()(f(t)[0]) == TableRefOf()(t)) {
      AnswerShape(FormsOf(p, t.name), t, value);
    }
    DistinctTables(tables);
    FlatMapApart(tables, f, TableRefOf(), EntryRefOf());
    DistinctEntries(Answering(p, tables, value));
  }

  lemma OnlyEntry(best: map<string, IndexedTarget>, its: seq<IndexedTarget>, it: IndexedTarget)
    requires IsBest(best, its) && Distinct(Refs(its)) && it in its
    ensures best[it.table.Ref()] == it
  {
    var other := best[it.table.Ref()];
    var i :| 0 <= i < |its| && its[i] == it;
    var j :| 0 <= j < |its| && its[j] == other;
    assert Refs(its)[i] == Refs(its)[j];
  }

  /** With unique table names, the collapse keeps every entry and never has to choose. */
  lemma CollapseKeepsAll(index: Index, p: Profile, tables: seq<Table>, value: string, best: map<string, IndexedTarget>)
    requires IsIndexOf(index, p, tables) && Distinct(TableRefs(tables))
    requires IsBest(best, Get(index, value))
    ensures forall it | it in Get(index, value) :: it.table.Ref() in best && best[it.table.Ref()] == it
    ensures |best| == |Get(index, value)|
  {
    var its := Get(index, value);
    AnsweringDistinct(p, tables, value);
    forall it | it in its ensures best[it.table.Ref()] == it {
      OnlyEntry(best, its, it);
    }
    SetSize(Refs(its));
    assert best.Keys == SetOf(Refs(its));
  }

  // --- resolving to keys ---------------------------------------------------------------------

  datatype SkipReason = NoKey | ArityMismatch

  datatype KeyTarget = Usable(pk: Model.Column) | Skipped(reason: SkipReason) | Missing

  /** resolveKeyTarget: the table can anchor a single-column candidate. */
  function ResolveKeyTarget(t: Table): KeyTarget {
    if |t.primaryKey| > 1 then Skipped(ArityMismatch)
    else if |t.primaryKey| == 0 then Skipped(NoKey)
    else match t.FindColumn(t.primaryKey[0])
      case Some(pk) => Usable(pk)
      case None => Missing
  }

  /** Usable is a key of one column that exists; a table without a key, or with a key of several columns, is skipped. */
  lemma KeyTargetExactly(t: Table, pk: Model.Column)
    ensures ResolveKeyTarget(t) == Usable(pk) <==>
      exists name :: t.primaryKey == [name] && t.FindColumn(name) == Some(pk)
    ensures ResolveKeyTarget(t) == Skipped(NoKey) <==> t.primaryKey == []
    ensures ResolveKeyTarget(t) == Skipped(ArityMismatch) <==> |t.primaryKey| >= 2
  {
    if |t.primaryKey| == 1 { assert t.primaryKey == [t.primaryKey[0]]; }
  }

  datatype NameMatch = NameMatch(target: IndexedTarget, pk: Model.Column)

  function MatchRef(): NameMatch -> string { (m: NameMatch) => m.target.table.Ref() }

  datatype Skip = Skip(table: string, reason: SkipReason)

  /** The entry is a match or a skip, whichever its table's key makes it. */
  predicate Accounted(it: IndexedTarget, matches: seq<NameMatch>, skipped: seq<Skip>) {
    match ResolveKeyTarget(it.table)
    case Usable(pk) => NameMatch(it, pk) in matches
    case Skipped(reason) => Skip(it.table.Ref(), reason) in skipped
    case Missing => true
  }

  /** An entry with the skip's table and reason. */
  predicate SkippedFor(it: IndexedTarget, s: Skip) {
    it.table.Ref() == s.table && ResolveKeyTarget(it.table) == Skipped(s.reason)
  }

  method ResolveNames(best: map<string, IndexedTarget>, names: seq<string>)
    returns (matches: seq<NameMatch>, skipped: seq<Skip>)
    requires forall k | k in names :: k in best && best[k].table.Ref() == k
    requires Distinct(names)
    ensures forall k | k in names :: Accounted(best[k], matches, skipped)
    ensures forall m | m in matches ::
      exists k :: k in names && best[k] == m.target && ResolveKeyTarget(m.target.table) == Usable(m.pk)
    ensures forall s | s in skipped :: exists k :: k in names && SkippedFor(best[k], s)
    ensures DistinctBy(matches, MatchRef())
  {
    matches, skipped := [], [];
    for i := 0 to |names|
      invariant forall j | 0 <= j < i :: Accounted(best[names[j]], matches, skipped)
      invariant forall m | m in matches ::
        exists k :: k in names && best[k] == m.target && ResolveKeyTarget(m.target.table) == Usable(m.pk)
      invariant forall s | s in skipped :: exists k :: k in names && SkippedFor(best[k], s)
      invariant DistinctBy(matches, MatchRef())
      invariant forall m | m in matches :: MatchRef()(m) in names[..i]
    {
      var it := best[names[i]];
      assert names[..i + 1] == names[..i] + [names[i]];
      match ResolveKeyTarget(it.table)
      case Usable(pk) =>
        DistinctBySnoc(matches, NameMatch(it, pk), MatchRef());
        matches := matches + [NameMatch(it, pk)];
      case Skipped(reason) => skipped := skipped + [Skip(names[i], reason)];
      case Missing =>
    }
  }

  /** An entry for the table's name, and none for it has a stronger origin. */
  ghost predicate Represents(its: seq<IndexedTarget>, it: IndexedTarget, ref: string) {
    && it in its && it.table.Ref() == ref
    && forall other | other in its && other.table.Ref() == ref :: it.origin.Rank() <= other.origin.Rank()
  }

  /**
    resolveByAffix: every table name that answers is a match or a skip with its reason, by
    an entry of its strongest origin, and there are no other matches or skips. With unique
    names that is every entry.
   */
  method ResolveByAffix(its: seq<IndexedTarget>) returns (matches: seq<NameMatch>, skipped: seq<Skip>)
    ensures forall ref | ref in Refs(its) ::
      exists it :: Represents(its, it, ref) && Accounted(it, matches, skipped)
    ensures forall m | m in matches ::
      Represents(its, m.target, m.target.table.Ref()) && ResolveKeyTarget(m.target.table) == Usable(m.pk)
    ensures forall s | s in skipped :: exists it :: Represents(its, it, s.table) && SkippedFor(it, s)
    ensures DistinctBy(matches, MatchRef())
    ensures Distinct(Refs(its)) ==> forall it | it in its :: Accounted(it, matches, skipped)
  {
    var best, _ := CollapseBest(its);
    var names := SortedKeys(best);
    matches, skipped := ResolveNames(best, names);
    forall ref | ref in best ensures Represents(its, best[ref], ref) {
    }
    forall ref | ref in Refs(its) ensures Accounted(best[ref], matches, skipped) {
      assert ref in names;
    }
    forall s | s in skipped ensures exists it :: Represents(its, it, s.table) && SkippedFor(it, s) {
      var k :| k in names && SkippedFor(best[k], s);
      assert Represents(its, best[k], k);
    }
    if Distinct(Refs(its)) {
      forall it | it in its ensures Accounted(it, matches, skipped) {
        OnlyEntry(best, its, it);
      }
    }
  }

  /** The keys of the map in byte order: sort.Strings over a range of a map. */
  method SortedKeys(best: map<string, IndexedTarget>) returns (names: seq<string>)
    ensures forall k :: k in names <==> k in best
    ensures Sorted(names, ByString()) && Distinct(names)
  {
    var rest := best.Keys;
    var found: seq<string> := [];
    while rest != {}
      invariant rest <= best.Keys
      invariant forall k :: k in best <==> k in rest || k in found
      invariant Distinct(found) && forall k | k in found :: k !in rest
      decreases rest
    {
      var k :| k in rest;
      DistinctSnoc(found, k);
      found := found + [k];
      rest := rest - {k};
    }
    names := Sort(found, ByString());
    ByStringIsOrder();
    SortSorts(found, ByString());
    DistinctPart(names, found);
    forall k ensures k in names <==> k in found {
      assert k in names <==> k in multiset(names);
    }
  }
}
