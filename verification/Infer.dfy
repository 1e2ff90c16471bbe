/**
  Generate of internal/infer/generate.go: the single-column pass, the composite pass
  and the evidence into one list, and the cut that splits it.
 */
module Infer {
  import opened Model
  import opened Scoring
  import opened Counting
  import opened Pairs
  import opened Profile
  import opened TableForms
  import opened CompositeKeys
  import opened TargetIndex
  import opened Generation

  // --- the single-column pass ------------------------------------------------------------

  /** A candidate of an eligible column of the table, about one of the tables. */
  ghost predicate Refers(tables: seq<Table>, t: Table, c: Candidate) {
    exists col, n: Named :: col in t.columns && Eligible(t, col) && n.table in tables && IsSingle(t, col, n, c)
  }

  /** Some table has the entity among the forms of its name. */
  ghost predicate AnswersByForm(p: Profile, tables: seq<Table>, entity: string) {
    exists t :: t in tables && Find(FormsOf(p, t.name), entity).Some?
  }

  /** One of the forms of the table's name is the entity, and its origin earns the signal. */
  predicate NamesByForm(p: Profile, entity: string, n: Named) {
    match Find(FormsOf(p, n.table.name), entity)
    case Some(form) =>
      n.signal == if form.origin == Exact then Signal(ExactName, 0.30) else Signal(NormalizedName, 0.15)
    case None => false
  }

  /**
    A table the entity names: by a form of its name or, only if no table has such a form,
    by similarity; and with a key of one existing column to refer to.
   */
  ghost predicate IsNamedBy(o: Options, tables: seq<Table>, entity: string, n: Named) {
    && n.table in tables && ResolveKeyTarget(n.table) == KeyTarget.Usable(n.pk)
    && if AnswersByForm(o.profile, tables, entity) then NamesByForm(o.profile, entity, n)
       else NamesBySimilarity(o, entity, n)
  }

  /** The entry its table has under the entity. */
  predicate Answers(p: Profile, entity: string, it: IndexedTarget) {
    match Find(FormsOf(p, it.table.name), entity)
    case Some(form) => it.origin == form.origin
    case None => false
  }

  lemma AnswerIs(p: Profile, entity: string, t: Table, it: IndexedTarget)
    ensures it in AnswerOf(p, entity)(t) <==> it.table == t && Answers(p, entity, it)
  {
  }

  lemma AnsweringExactly(p: Profile, tables: seq<Table>, entity: string, it: IndexedTarget)
    ensures it in Answering(p, tables, entity) <==> it.table in tables && Answers(p, entity, it)
  {
    var f := AnswerOf(p, entity);
    FlatMapIsFrom(tables, f);
    if it in Answering(p, tables, entity) {
      var t :| t in tables && it in f(t);
      AnswerIs(p, entity, t, it);
    }
    AnswerIs(p, entity, it.table, it);
  }

  lemma AnswerIsByForm(p: Profile, tables: seq<Table>, entity: string, it: IndexedTarget)
    requires it in Answering(p, tables, entity)
    ensures AnswersByForm(p, tables, entity)
  {
    AnsweringExactly(p, tables, entity, it);
  }

  lemma FormIsAnswer(p: Profile, tables: seq<Table>, entity: string, t: Table)
    requires t in tables && Find(FormsOf(p, t.name), entity).Some?
    ensures IndexedTarget(t, Find(FormsOf(p, t.name), entity).value.origin) in Answering(p, tables, entity)
  {
    AnsweringExactly(p, tables, entity, IndexedTarget(t, Find(FormsOf(p, t.name), entity).value.origin));
  }

  lemma SomeAnswer(p: Profile, tables: seq<Table>, entity: string)
    ensures Answering(p, tables, entity) != [] <==> AnswersByForm(p, tables, entity)
  {
    var its := Answering(p, tables, entity);
    if its != [] {
      AnswerIsByForm(p, tables, entity, its[0]);
    }
    if AnswersByForm(p, tables, entity) {
      var t :| t in tables && Find(FormsOf(p, t.name), entity).Some?;
      FormIsAnswer(p, tables, entity, t);
    }
  }

  lemma FormsName(o: Options, tables: seq<Table>, entity: string, its: seq<IndexedTarget>,
                  matches: seq<NameMatch>, named: seq<Named>)
    requires its == Answering(o.profile, tables, entity) && its != []
    requires forall m | m in matches :: m.target in its && ResolveKeyTarget(m.target.table) == KeyTarget.Usable(m.pk)
    requires forall n | n in named :: exists m :: m in matches && FromOrigin(m) == n
    ensures forall n | n in named :: IsNamedBy(o, tables, entity, n)
  {
    SomeAnswer(o.profile, tables, entity);
    forall n | n in named ensures IsNamedBy(o, tables, entity, n) {
      var m :| m in matches && FromOrigin(m) == n;
      AnsweringExactly(o.profile, tables, entity, m.target);
    }
  }

  lemma FormsNameAll(o: Options, tables: seq<Table>, entity: string, its: seq<IndexedTarget>,
                     matches: seq<NameMatch>, skipped: seq<Skip>, named: seq<Named>)
    requires its == Answering(o.profile, tables, entity) && its != []
    requires forall it | it in its :: Accounted(it, matches, skipped)
    requires forall m | m in matches :: FromOrigin(m) in named
    ensures forall n | IsNamedBy(o, tables, entity, n) :: n in named
  {
    SomeAnswer(o.profile, tables, entity);
    forall n: Named | IsNamedBy(o, tables, entity, n) ensures n in named {
      var it := IndexedTarget(n.table, Find(FormsOf(o.profile, n.table.name), entity).value.origin);
      AnsweringExactly(o.profile, tables, entity, it);
      assert it in its && Accounted(it, matches, skipped);
      assert FromOrigin(NameMatch(it, n.pk)) == n;
    }
  }

  lemma RefsApart(tables: seq<Table>)
    requires DistinctBy(tables, RefOf())
    ensures Distinct(TableRefs(tables))
  {
    forall i, j | 0 <= i < j < |tables| ensures TableRefs(tables)[i] != TableRefs(tables)[j] {
      assert RefOf()(tables[i]) != RefOf()(tables[j]);
    }
  }

  /** The tables that the entity names; all of them, where tables are told apart by their refs. */
  method FindNamed(o: Options, index: TargetIndex.Index, tables: seq<Table>, entity: string) returns (named: seq<Named>)
    requires IsIndexOf(index, o.profile, tables)
    ensures forall n | n in named :: IsNamed(n) && IsNamedBy(o, tables, entity, n)
    ensures DistinctBy(tables, RefOf()) ==>
      DistinctBy(named, NamedRefOf()) && forall n | IsNamedBy(o, tables, entity, n) :: n in named
    ensures !AnswersByForm(o.profile, tables, entity) ==>
      named == Collect(AboveOf(o, tables, entity), HasKey(), SimilarNamed())
  {
    var indexed := Get(index, entity);
    SomeAnswer(o.profile, tables, entity);
    if indexed != [] {
      var matches, skipped := ResolveByAffix(indexed);
      named := NameByForm(matches);
      FormNames(matches);
      FormsName(o, tables, entity, indexed, matches, named);
      if DistinctBy(tables, RefOf()) {
        RefsApart(tables);
        AnsweringDistinct(o.profile, tables, entity);
        FormsNameAll(o, tables, entity, indexed, matches, skipped, named);
      }
    } else {
      var similar, _ := ResolveBySimilarity(o, tables, entity);
      named := similar;
      SimilarityNames(o, tables, entity);
    }
  }

  /** The entity names another table as well. */
  ghost predicate HasCompany(o: Options, tables: seq<Table>, entity: string, n: Named) {
    exists m: Named :: IsNamedBy(o, tables, entity, m) && m.table.Ref() != n.table.Ref()
  }

  /** The candidate of a column and a table its entity names, if the key's type takes the column's. */
  ghost predicate Makes(o: Options, tables: seq<Table>, t: Table, col: Model.Column, n: Named, c: Candidate) {
    var entity := EntityName(o.profile, col.name);
    && entity != "" && IsNamedBy(o, tables, entity, n)
    && CompareTypes(col.baseType, n.pk.baseType) != Incompatible
    && c == CandidateOf(o, n, t, col, entity, HasCompany(o, tables, entity, n))
  }

  ghost predicate OfColumn(o: Options, tables: seq<Table>, t: Table, col: Model.Column, c: Candidate) {
    Eligible(t, col) && exists n: Named :: Makes(o, tables, t, col, n, c)
  }

  lemma CompanyCounted(o: Options, tables: seq<Table>, entity: string, named: seq<Named>, n: Named)
    requires forall m: Named :: m in named <==> IsNamedBy(o, tables, entity, m)
    requires DistinctBy(named, NamedRefOf()) && n in named
    ensures |named| > 1 <==> HasCompany(o, tables, entity, n)
  {
    var i :| 0 <= i < |named| && named[i] == n;
    if |named| > 1 {
      var j := if i == 0 then 1 else 0;
      assert NamedRefOf()(named[i]) != NamedRefOf()(named[j]);
      assert IsNamedBy(o, tables, entity, named[j]);
    }
    if HasCompany(o, tables, entity, n) {
      var m: Named :| IsNamedBy(o, tables, entity, m) && m.table.Ref() != n.table.Ref();
      var j :| 0 <= j < |named| && named[j] == m;
      assert i != j;
    }
  }

  lemma MadeExactly(o: Options, tables: seq<Table>, t: Table, col: Model.Column, named: seq<Named>, out: seq<Candidate>)
    requires Eligible(t, col)
    requires var entity := EntityName(o.profile, col.name);
             && entity != ""
             && (forall m: Named :: m in named <==> IsNamedBy(o, tables, entity, m))
             && out == Collect(named, FitsIn(col), Maker(o, t, col, entity, |named| > 1))
    requires DistinctBy(named, NamedRefOf())
    ensures forall c :: c in out <==> OfColumn(o, tables, t, col, c)
  {
    var entity := EntityName(o.profile, col.name);
    var fits, make := FitsIn(col), Maker(o, t, col, entity, |named| > 1);
    CollectExactly(named, fits, make);
    forall n | n in named ensures make(n) == CandidateOf(o, n, t, col, entity, HasCompany(o, tables, entity, n)) {
      CompanyCounted(o, tables, entity, named, n);
    }
    forall c | c in out ensures OfColumn(o, tables, t, col, c) {
      var n :| n in named && fits(n) && make(n) == c;
      assert Makes(o, tables, t, col, n, c);
    }
    forall c | OfColumn(o, tables, t, col, c) ensures c in out {
      var n: Named :| Makes(o, tables, t, col, n, c);
      assert n in named && fits(n) && make(n) == c;
    }
  }

  /** generateFor. */
  method GenerateFor(o: Options, index: TargetIndex.Index, tables: seq<Table>, t: Table, col: Model.Column)
    returns (out: seq<Candidate>)
    requires IsIndexOf(index, o.profile, tables) && Eligible(t, col)
    ensures forall c | c in out :: exists n: Named :: n.table in tables && IsSingle(t, col, n, c)
    ensures DistinctBy(tables, RefOf()) ==>
      DistinctPairs(out) && forall c :: c in out <==> OfColumn(o, tables, t, col, c)
  {
    var entity := DeriveEntityName(o.profile, col.name);
    if entity == "" {
      return [];
    }
    var named := FindNamed(o, index, tables, entity);
    out := FinalizeMatches(o, named, t, col, entity);
    CandidatesSay(o, named, t, col, entity);
    if DistinctBy(tables, RefOf()) {
      MadeExactly(o, tables, t, col, named, out);
    }
  }

  function ColumnNameOf(): Model.Column -> string { (c: Model.Column) => c.name }

  /** The child is one of these columns. */
  ghost predicate ColumnAmong(t: Table, cols: seq<Model.Column>, c: Candidate) {
    exists col :: col in cols && c.child == SingleKey(t.schema, t.name, col.name)
  }

  lemma ColumnsApart(t: Table, i: nat, before: seq<Candidate>, more: seq<Candidate>)
    requires i < |t.columns| && DistinctBy(t.columns, ColumnNameOf())
    requires forall c | c in before :: ColumnAmong(t, t.columns[..i], c)
    requires forall c | c in more :: c.child == SingleKey(t.schema, t.name, t.columns[i].name)
    ensures forall x, y | x in before && y in more :: x.child != y.child
  {
    forall x, y | x in before && y in more ensures x.child != y.child {
      var col :| col in t.columns[..i] && x.child == SingleKey(t.schema, t.name, col.name);
      var j :| 0 <= j < i && t.columns[j] == col;
      assert ColumnNameOf()(t.columns[j]) != ColumnNameOf()(t.columns[i]);
      assert x.child.columns[0] == col.name;
      assert y.child.columns[0] == t.columns[i].name;
    }
  }

  ghost predicate OfColumns(o: Options, tables: seq<Table>, t: Table, cols: seq<Model.Column>, c: Candidate) {
    exists col :: col in cols && OfColumn(o, tables, t, col, c)
  }

  lemma OfColumnsMore(o: Options, tables: seq<Table>, t: Table, before: seq<Model.Column>, col: Model.Column,
                      c: Candidate)
    ensures OfColumns(o, tables, t, before + [col], c) <==>
      OfColumns(o, tables, t, before, c) || OfColumn(o, tables, t, col, c)
  {
    if OfColumns(o, tables, t, before, c) {
      var x :| x in before && OfColumn(o, tables, t, x, c);
      assert x in before + [col];
    }
    assert col in before + [col];
  }

  /** What the first columns of a table have to have given. */
  ghost predicate ColumnsDone(o: Options, tables: seq<Table>, t: Table, cols: seq<Model.Column>, cs: seq<Candidate>) {
    && (forall c | c in cs :: Refers(tables, t, c) && ColumnAmong(t, cols, c))
    && (DistinctBy(tables, RefOf()) ==> forall c :: c in cs <==> OfColumns(o, tables, t, cols, c))
    && (DistinctBy(tables, RefOf()) && DistinctBy(t.columns, ColumnNameOf()) ==> DistinctPairs(cs))
  }

  lemma OneMoreColumn(o: Options, tables: seq<Table>, t: Table, i: nat, cs: seq<Candidate>, more: seq<Candidate>)
    requires i < |t.columns| && ColumnsDone(o, tables, t, t.columns[..i], cs)
    requires more == [] || Eligible(t, t.columns[i])
    requires forall c | c in more :: exists n: Named :: n.table in tables && IsSingle(t, t.columns[i], n, c)
    requires DistinctBy(tables, RefOf()) ==>
      DistinctPairs(more) && forall c :: c in more <==> OfColumn(o, tables, t, t.columns[i], c)
    ensures ColumnsDone(o, tables, t, t.columns[..i + 1], cs + more)
  {
    var cols := t.columns;
    assert cols[..i + 1] == cols[..i] + [cols[i]];
    forall c | c in cs ensures ColumnAmong(t, cols[..i + 1], c) {
      var col :| col in cols[..i] && c.child == SingleKey(t.schema, t.name, col.name);
      assert col in cols[..i + 1];
    }
    forall c | c in more ensures Refers(tables, t, c) && ColumnAmong(t, cols[..i + 1], c) {
      var n: Named :| n.table in tables && IsSingle(t, cols[i], n, c);
      assert cols[i] in cols[..i + 1] && cols[i] in cols;
    }
    if DistinctBy(tables, RefOf()) {
      forall c ensures c in cs + more <==> OfColumns(o, tables, t, cols[..i + 1], c) {
        OfColumnsMore(o, tables, t, cols[..i], cols[i], c);
      }
    }
    if DistinctBy(tables, RefOf()) && DistinctBy(cols, ColumnNameOf()) {
      ColumnsApart(t, i, cs, more);
      PairsConcat(cs, more);
    }
  }

  method GenerateColumns(o: Options, index: TargetIndex.Index, tables: seq<Table>, t: Table)
    returns (out: seq<Candidate>)
    requires IsIndexOf(index, o.profile, tables)
    ensures ColumnsDone(o, tables, t, t.columns, out)
  {
    out := [];
    for i := 0 to |t.columns|
      invariant ColumnsDone(o, tables, t, t.columns[..i], out)
    {
      var more: seq<Candidate> := [];
      if Eligible(t, t.columns[i]) {
        more := GenerateFor(o, index, tables, t, t.columns[i]);
      }
      OneMoreColumn(o, tables, t, i, out, more);
      out := out + more;
    }
    assert t.columns[..|t.columns|] == t.columns;
  }

  /** Tables told apart by their refs, columns by their names. */
  ghost predicate ProperCatalog(tables: seq<Table>) {
    DistinctBy(tables, RefOf()) && forall t | t in tables :: DistinctBy(t.columns, ColumnNameOf())
  }

  /** A single-column candidate of one of the tables. */
  ghost predicate IsFound(o: Options, tables: seq<Table>, done: seq<Table>, c: Candidate) {
    exists t :: t in done && OfColumns(o, tables, t, t.columns, c)
  }

  lemma FoundMore(o: Options, tables: seq<Table>, before: seq<Table>, t: Table, c: Candidate)
    ensures IsFound(o, tables, before + [t], c) <==>
      IsFound(o, tables, before, c) || OfColumns(o, tables, t, t.columns, c)
  {
    if IsFound(o, tables, before, c) {
      var x :| x in before && OfColumns(o, tables, x, x.columns, c);
      assert x in before + [t];
    }
    assert t in before + [t];
  }

  ghost predicate TablesDone(o: Options, tables: seq<Table>, done: seq<Table>, cs: seq<Candidate>) {
    && (forall c | c in cs :: exists t :: t in done && Refers(tables, t, c))
    && (DistinctBy(tables, RefOf()) ==> forall c :: c in cs <==> IsFound(o, tables, done, c))
    && (ProperCatalog(tables) ==> DistinctPairs(cs))
  }

  lemma ReferringChild(tables: seq<Table>, t: Table, c: Candidate)
    requires Refers(tables, t, c)
    ensures c.child.TableRef() == t.Ref() && |c.child.columns| == 1 && IsGenerated(c)
  {
  }

  lemma OneMoreTable(o: Options, tables: seq<Table>, i: nat, cs: seq<Candidate>, more: seq<Candidate>)
    requires i < |tables|
    requires TablesDone(o, tables, tables[..i], cs) && ColumnsDone(o, tables, tables[i], tables[i].columns, more)
    ensures TablesDone(o, tables, tables[..i + 1], cs + more)
  {
    assert tables[..i + 1] == tables[..i] + [tables[i]];
    forall c | c in cs ensures exists t :: t in tables[..i + 1] && Refers(tables, t, c) {
      var t :| t in tables[..i] && Refers(tables, t, c);
      assert t in tables[..i + 1];
    }
    forall c | c in more ensures exists t :: t in tables[..i + 1] && Refers(tables, t, c) {
      assert tables[i] in tables[..i + 1];
    }
    if DistinctBy(tables, RefOf()) {
      forall c ensures c in cs + more <==> IsFound(o, tables, tables[..i + 1], c) {
        FoundMore(o, tables, tables[..i], tables[i], c);
      }
    }
    if ProperCatalog(tables) {
      assert tables[i] in tables;
      forall x, y | x in cs && y in more ensures x.child != y.child {
        var t :| t in tables[..i] && Refers(tables, t, x);
        var j :| 0 <= j < i && tables[j] == t;
        assert RefOf()(tables[j]) != RefOf()(tables[i]);
        ReferringChild(tables, t, x);
        ReferringChild(tables, tables[i], y);
      }
      PairsConcat(cs, more);
    }
  }

  /**
    The single-column loops of Generate. What comes out is about eligible columns only;
    with unique table refs it is the candidates of all columns and all tables they name.
   */
  method GenerateSingles(o: Options, index: TargetIndex.Index, tables: seq<Table>) returns (out: seq<Candidate>)
    requires IsIndexOf(index, o.profile, tables)
    ensures forall c | c in out :: exists t :: t in tables && Refers(tables, t, c)
    ensures DistinctBy(tables, RefOf()) ==> forall c :: c in out <==> IsFound(o, tables, tables, c)
    ensures ProperCatalog(tables) ==> DistinctPairs(out)
  {
    out := [];
    for i := 0 to |tables|
      invariant TablesDone(o, tables, tables[..i], out)
    {
      var more := GenerateColumns(o, index, tables, tables[i]);
      OneMoreTable(o, tables, i, out, more);
      out := out + more;
    }
    assert tables[..|tables|] == tables;
  }
}
