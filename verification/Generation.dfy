/**
  Single-column candidates, internal/infer/generate.go: a column's entity name is looked
  up among the tables, by form or else by similarity, and each table found becomes a
  candidate if its key's type takes the column's.
 */
module Generation {
  import opened Text
  import opened Model
  import opened Scoring
  import opened Counting
  import opened Pairs
  import opened Profile
  import opened Sorting
  import opened TableForms
  import opened CompositeKeys
  import opened TargetIndex

  /** What the catalog and the user settle beforehand; dice is the trigram measure. */
  datatype Options = Options(
    profile: Profile,
    dice: (string, string) -> real,
    minSimilarity: real,
    isSmall: Table -> bool)

  /** A table that answered a column's entity name, with the name signal it earns. */
  datatype Named = Named(table: Table, pk: Model.Column, signal: Signal)

  function NamedRefOf(): Named -> string { (n: Named) => n.table.Ref() }

  predicate IsNameKind(k: SignalKind) { k == ExactName || k == NormalizedName || k == NameSimilarity }

  /** Named through its single-column key, and by a name signal. */
  ghost predicate IsNamed(n: Named) {
    ResolveKeyTarget(n.table) == KeyTarget.Usable(n.pk) && IsNameKind(n.signal.kind)
  }

  // --- by form ---------------------------------------------------------------------------

  /** An exact name earns more than one that had to be normalized. */
  function OriginSignal(origin: Origin): Signal {
    if origin == Exact then Signal(ExactName, EXACT_NAME) else Signal(NormalizedName, NORMALIZED_NAME)
  }

  function FromOrigin(m: NameMatch): Named { Named(m.target.table, m.pk, OriginSignal(m.target.origin)) }

  function AnyMatch(): NameMatch -> bool { (m: NameMatch) => true }

  function OriginNamed(): NameMatch -> Named { (m: NameMatch) => FromOrigin(m) }

  /** The matches of resolveByAffix, each with the signal its origin earns. */
  method NameByForm(matches: seq<NameMatch>) returns (named: seq<Named>)
    ensures named == Collect(matches, AnyMatch(), OriginNamed())
  {
    named := [];
    for i := 0 to |matches|
      invariant named == Collect(matches[..i], AnyMatch(), OriginNamed())
    {
      assert matches[..i + 1] == matches[..i] + [matches[i]];
      CollectSnoc(matches[..i], matches[i], AnyMatch(), OriginNamed());
      named := named + [FromOrigin(matches[i])];
    }
    assert matches[..|matches|] == matches;
  }

  lemma FormNames(matches: seq<NameMatch>)
    requires DistinctBy(matches, MatchRef())
    requires forall m | m in matches :: ResolveKeyTarget(m.target.table) == KeyTarget.Usable(m.pk)
    ensures var named := Collect(matches, AnyMatch(), OriginNamed());
      && DistinctBy(named, NamedRefOf())
      && (forall n | n in named :: IsNamed(n) && exists m :: m in matches && FromOrigin(m) == n)
      && (forall m | m in matches :: FromOrigin(m) in named)
  {
    CollectExactly(matches, AnyMatch(), OriginNamed());
    CollectApart(matches, AnyMatch(), OriginNamed(), MatchRef(), NamedRefOf());
  }

  // --- by similarity -----------------------------------------------------------------------

  datatype Similar = Similar(table: Table, similarity: real)

  function SimilarRefOf(): Similar -> string { (s: Similar) => s.table.Ref() }

  /** The strongest first, equals by name. */
  function BySimilarity(): (Similar, Similar) -> bool {
    (a: Similar, b: Similar) =>
      a.similarity > b.similarity || (a.similarity == b.similarity && StringLe(a.table.name, b.table.name))
  }

  function IsAbove(o: Options, entity: string): Table -> bool {
    (t: Table) => o.dice(entity, t.name) >= o.minSimilarity
  }

  function Measured(o: Options, entity: string): Table -> Similar {
    (t: Table) => Similar(t, o.dice(entity, t.name))
  }

  function HasKey(): Similar -> bool { (s: Similar) => ResolveKeyTarget(s.table).Usable? }

  function SimilarNamed(): Similar -> Named {
    (s: Similar) =>
      match ResolveKeyTarget(s.table)
      case Usable(pk) => Named(s.table, pk, Signal(NameSimilarity, NAME_SIMILARITY_MAX * s.similarity))
      case _ => Named(s.table, Column("", "", false, ""), Signal(NameSimilarity, 0.0))
  }

  function AboveOf(o: Options, tables: seq<Table>, entity: string): seq<Similar> {
    Sort(Collect(tables, IsAbove(o, entity), Measured(o, entity)), BySimilarity())
  }

  /** The tables above the cutoff, the most similar first. */
  method TablesAbove(o: Options, tables: seq<Table>, entity: string) returns (above: seq<Similar>)
    ensures above == AboveOf(o, tables, entity)
  {
    above := [];
    for i := 0 to |tables|
      invariant above == Collect(tables[..i], IsAbove(o, entity), Measured(o, entity))
    {
      assert tables[..i + 1] == tables[..i] + [tables[i]];
      CollectSnoc(tables[..i], tables[i], IsAbove(o, entity), Measured(o, entity));
      var similarity := o.dice(entity, tables[i].name);
      if similarity >= o.minSimilarity {
        above := above + [Similar(tables[i], similarity)];
      }
    }
    assert tables[..|tables|] == tables;
    above := Sort(above, BySimilarity());
  }

  /** resolveBySimilarity. */
  method ResolveBySimilarity(o: Options, tables: seq<Table>, entity: string)
    returns (named: seq<Named>, skipped: seq<Skip>)
    ensures named == Collect(AboveOf(o, tables, entity), HasKey(), SimilarNamed())
  {
    var above := TablesAbove(o, tables, entity);
    named, skipped := [], [];
    for i := 0 to |above|
      invariant named == Collect(above[..i], HasKey(), SimilarNamed())
    {
      var s := above[i];
      assert above[..i + 1] == above[..i] + [s];
      CollectSnoc(above[..i], s, HasKey(), SimilarNamed());
      match ResolveKeyTarget(s.table)
      case Usable(pk) =>
        named := named + [Named(s.table, pk, Signal(NameSimilarity, NAME_SIMILARITY_MAX * s.similarity))];
      case Skipped(reason) => skipped := skipped + [Skip(s.table.Ref(), reason)];
      case Missing =>
    }
    assert above[..|above|] == above;
  }

  lemma AboveExactly(o: Options, tables: seq<Table>, entity: string)
    ensures forall s :: s in AboveOf(o, tables, entity) <==>
      s.table in tables && s.similarity == o.dice(entity, s.table.name) && s.similarity >= o.minSimilarity
    ensures DistinctBy(tables, RefOf()) ==> DistinctBy(AboveOf(o, tables, entity), SimilarRefOf())
  {
    var found := Collect(tables, IsAbove(o, entity), Measured(o, entity));
    CollectExactly(tables, IsAbove(o, entity), Measured(o, entity));
    SortPermutes(found, BySimilarity());
    var above := AboveOf(o, tables, entity);
    assert forall s :: s in above <==> s in multiset(above);
    assert forall s :: s in above <==> s in found;
    forall s: Similar | s in found
      ensures s.table in tables && s.similarity == o.dice(entity, s.table.name) && s.similarity >= o.minSimilarity
    {
      var t :| t in tables && IsAbove(o, entity)(t) && Measured(o, entity)(t) == s;
    }
    forall s: Similar | s.table in tables && s.similarity == o.dice(entity, s.table.name)
      && s.similarity >= o.minSimilarity
      ensures s in found
    {
      assert IsAbove(o, entity)(s.table) && Measured(o, entity)(s.table) == s;
    }
    if DistinctBy(tables, RefOf()) {
      CollectApart(tables, IsAbove(o, entity), Measured(o, entity), RefOf(), SimilarRefOf());
      DistinctByPart(AboveOf(o, tables, entity), found, SimilarRefOf());
    }
  }

  lemma BySimilarityIsOrder()
    ensures TotalPreorder(BySimilarity())
  {
    forall a: Similar, b: Similar ensures BySimilarity()(a, b) || BySimilarity()(b, a) {
      StringLeTotal(a.table.name, b.table.name);
    }
    forall a: Similar, b: Similar, c: Similar | BySimilarity()(a, b) && BySimilarity()(b, c)
      ensures BySimilarity()(a, c)
    {
      if a.similarity == b.similarity == c.similarity {
        StringLeTransitive(a.table.name, b.table.name, c.table.name);
      }
    }
  }

  /** The most similar table comes first, and of equally similar ones the first by name. */
  lemma AboveIsInOrder(o: Options, tables: seq<Table>, entity: string)
    ensures var above := AboveOf(o, tables, entity);
      forall i, j | 0 <= i < j < |above| ::
        above[i].similarity >= above[j].similarity
        && (above[i].similarity == above[j].similarity ==> StringLe(above[i].table.name, above[j].table.name))
  {
    BySimilarityIsOrder();
    SortSorts(Collect(tables, IsAbove(o, entity), Measured(o, entity)), BySimilarity());
  }

  lemma KeyedExactly(above: seq<Similar>)
    ensures forall n | n in Collect(above, HasKey(), SimilarNamed()) ::
      ResolveKeyTarget(n.table) == KeyTarget.Usable(n.pk) && exists s :: s in above && SimilarNamed()(s) == n
    ensures forall s | s in above && ResolveKeyTarget(s.table).Usable? ::
      SimilarNamed()(s) in Collect(above, HasKey(), SimilarNamed())
    ensures DistinctBy(above, SimilarRefOf()) ==> DistinctBy(Collect(above, HasKey(), SimilarNamed()), NamedRefOf())
  {
    CollectExactly(above, HasKey(), SimilarNamed());
    if DistinctBy(above, SimilarRefOf()) {
      CollectApart(above, HasKey(), SimilarNamed(), SimilarRefOf(), NamedRefOf());
    }
  }

  /** Above the cutoff, with the signal the similarity earns. */
  predicate NamesBySimilarity(o: Options, entity: string, n: Named) {
    var similarity := o.dice(entity, n.table.name);
    similarity >= o.minSimilarity && n.signal == Signal(NameSimilarity, 0.12 * similarity)
  }

  /** The fallback names each table at most once, and exactly those above the cutoff that can be referred to. */
  lemma SimilarityNames(o: Options, tables: seq<Table>, entity: string)
    ensures var named := Collect(AboveOf(o, tables, entity), HasKey(), SimilarNamed());
      && (forall n :: n in named <==>
            n.table in tables && ResolveKeyTarget(n.table) == KeyTarget.Usable(n.pk) && NamesBySimilarity(o, entity, n))
      && (DistinctBy(tables, RefOf()) ==> DistinctBy(named, NamedRefOf()))
  {
    var above := AboveOf(o, tables, entity);
    AboveExactly(o, tables, entity);
    KeyedExactly(above);
    forall n: Named | n.table in tables && ResolveKeyTarget(n.table) == KeyTarget.Usable(n.pk)
      && NamesBySimilarity(o, entity, n)
      ensures n in Collect(above, HasKey(), SimilarNamed())
    {
      var s := Similar(n.table, o.dice(entity, n.table.name));
      assert s in above && SimilarNamed()(s) == n;
    }
  }

  // --- signals --------------------------------------------------------------------------------

  /** buildSignals; generic: a generic name pointing at a table known to be small. */
  function BuildSignals(name: Signal, fit: TypeMatch, ambiguous: bool, indexed: bool, mentioned: bool, notNull: bool,
                        generic: bool): seq<Signal> {
    [name, FitSignal(fit), CompanySignal(ambiguous)]
    + ColumnSignals(indexed, mentioned, notNull)
    + When(generic, Signal(GenericDomain, GENERIC_DOMAIN))
  }

  /** Every kind of signal a single-column candidate can carry, and when it does. */
  lemma BuiltSignalsSay(name: Signal, fit: TypeMatch, ambiguous: bool, indexed: bool, mentioned: bool, notNull: bool,
                        generic: bool, k: SignalKind)
    ensures Has(BuildSignals(name, fit, ambiguous, indexed, mentioned, notNull, generic), k) <==>
      || k == name.kind
      || k == (if fit == Identical then IdenticalType else CompatibleType)
      || k == (if ambiguous then AmbiguousTarget else UniqueTarget)
      || (k == ChildIndexed && indexed) || (k == CommentMention && mentioned) || (k == NotNull && notNull)
      || (k == GenericDomain && generic)
  {
    var front := [name, FitSignal(fit), CompanySignal(ambiguous)];
    var middle := ColumnSignals(indexed, mentioned, notNull);
    var last := Signal(GenericDomain, GENERIC_DOMAIN);
    HasConcat(front + middle, When(generic, last), k);
    HasConcat(front, middle, k);
    ColumnSignalsSay(indexed, mentioned, notNull, k);
    WhenSays(generic, last, k);
    assert front[0] == name && front[1] == FitSignal(fit) && front[2] == CompanySignal(ambiguous);
  }

  /** What they add up to, with the generic-name penalty and without. */
  lemma BuiltSignalsWeigh(name: Signal, fit: TypeMatch, ambiguous: bool, indexed: bool, mentioned: bool, notNull: bool,
                          generic: bool)
    requires name.kind != GenericDomain
    ensures var signals := BuildSignals(name, fit, ambiguous, indexed, mentioned, notNull, generic);
            var total := name.weight + FitWorth(fit) + CompanyWorth(ambiguous)
                         + Worth(indexed, 0.15) + Worth(mentioned, 0.12) + Worth(notNull, 0.05);
      Sum(signals, {}) == total + Worth(generic, -0.30) && Sum(signals, {GenericDomain}) == total
  {
    BuiltFrontWeighs(name, fit, ambiguous, indexed, mentioned, notNull, {});
    BuiltFrontWeighs(name, fit, ambiguous, indexed, mentioned, notNull, {GenericDomain});
    var front := [name, FitSignal(fit), CompanySignal(ambiguous)] + ColumnSignals(indexed, mentioned, notNull);
    var last := Signal(GenericDomain, GENERIC_DOMAIN);
    WhenWeighs(generic, last, {});
    WhenWeighs(generic, last, {GenericDomain});
    SumConcat(front, When(generic, last), {});
    SumConcat(front, When(generic, last), {GenericDomain});
  }

  lemma BuiltFrontWeighs(name: Signal, fit: TypeMatch, ambiguous: bool, indexed: bool, mentioned: bool, notNull: bool,
                         without: set<SignalKind>)
    requires name.kind != GenericDomain && without <= {GenericDomain}
    ensures Sum([name, FitSignal(fit), CompanySignal(ambiguous)] + ColumnSignals(indexed, mentioned, notNull), without)
         == name.weight + FitWorth(fit) + CompanyWorth(ambiguous)
            + Worth(indexed, 0.15) + Worth(mentioned, 0.12) + Worth(notNull, 0.05)
  {
    var pair := [FitSignal(fit), CompanySignal(ambiguous)];
    assert [name, FitSignal(fit), CompanySignal(ambiguous)] == [name] + pair;
    SumConcat([name] + pair, ColumnSignals(indexed, mentioned, notNull), without);
    SumConcat([name], pair, without);
    PairWeighs(fit, ambiguous, without);
    ColumnSignalsWeigh(indexed, mentioned, notNull, without);
  }

  lemma BuiltSignalsArePenalized(name: Signal, fit: TypeMatch, ambiguous: bool, indexed: bool, mentioned: bool,
                                 notNull: bool, generic: bool)
    requires IsNameKind(name.kind)
    ensures GenericPenalized(BuildSignals(name, fit, ambiguous, indexed, mentioned, notNull, generic))
    ensures NoJoins(BuildSignals(name, fit, ambiguous, indexed, mentioned, notNull, generic))
  {
    var front := [name, FitSignal(fit), CompanySignal(ambiguous)] + ColumnSignals(indexed, mentioned, notNull);
    var off := BuildSignals(name, fit, ambiguous, indexed, mentioned, notNull, false);
    assert off == front;
    BuiltSignalsSay(name, fit, ambiguous, indexed, mentioned, notNull, false, GenericDomain);
    NoneIsPenalized(front);
    forall k | IsJoinKind(k) ensures !Has(BuildSignals(name, fit, ambiguous, indexed, mentioned, notNull, generic), k) {
      BuiltSignalsSay(name, fit, ambiguous, indexed, mentioned, notNull, generic, k);
    }
  }

  /** isGeneric. */
  predicate IsGeneric(entity: string, p: Profile) {
    exists g :: g in p.genericEntities && EqualFold(g, entity)
  }

  // --- candidates -------------------------------------------------------------------------------

  function ParentOf(n: Named): KeyRef { SingleKey(n.table.schema, n.table.name, n.pk.name) }

  predicate Fits(col: Model.Column, n: Named) { CompareTypes(col.baseType, n.pk.baseType) != Incompatible }

  function CandidateOf(o: Options, n: Named, t: Table, col: Model.Column, entity: string, ambiguous: bool): Candidate {
    var signals := BuildSignals(
      n.signal, CompareTypes(col.baseType, n.pk.baseType), ambiguous,
      IndexLeads(t.indexes, [col.name]), Mentions(col.comment, entity) || Mentions(t.comment, entity), !col.nullable,
      IsGeneric(entity, o.profile) && o.isSmall(n.table));
    Candidate(SingleKey(t.schema, t.name, col.name), ParentOf(n), signals, Score(signals), false, Unvalidated)
  }

  /** The score of a candidate, from the tables: its name, its types, its company, and what the column has to show. */
  lemma CandidateScores(o: Options, n: Named, t: Table, col: Model.Column, entity: string, ambiguous: bool)
    requires n.signal.kind != GenericDomain
    ensures var c := CandidateOf(o, n, t, col, entity, ambiguous);
            var total := n.signal.weight + FitWorth(CompareTypes(col.baseType, n.pk.baseType)) + CompanyWorth(ambiguous)
                         + Worth(IndexLeads(t.indexes, [col.name]), 0.15)
                         + Worth(Mentions(col.comment, entity) || Mentions(t.comment, entity), 0.12)
                         + Worth(!col.nullable, 0.05);
      && IsClamped(c.metaScore, total + Worth(IsGeneric(entity, o.profile) && o.isSmall(n.table), -0.30))
      && IsClamped(CutScore(c.signals), total)
  {
    var c := CandidateOf(o, n, t, col, entity, ambiguous);
    BuiltSignalsWeigh(
      n.signal, CompareTypes(col.baseType, n.pk.baseType), ambiguous,
      IndexLeads(t.indexes, [col.name]), Mentions(col.comment, entity) || Mentions(t.comment, entity), !col.nullable,
      IsGeneric(entity, o.profile) && o.isSmall(n.table));
    ScoresAreClamped(c.signals);
  }

  function FitsIn(col: Model.Column): Named -> bool { (n: Named) => Fits(col, n) }

  function Maker(o: Options, t: Table, col: Model.Column, entity: string, ambiguous: bool): Named -> Candidate {
    (n: Named) => CandidateOf(o, n, t, col, entity, ambiguous)
  }

  method MakeCandidate(o: Options, n: Named, t: Table, col: Model.Column, entity: string, ambiguous: bool)
    returns (c: Option<Candidate>)
    ensures c == if FitsIn(col)(n) then Some(Maker(o, t, col, entity, ambiguous)(n)) else None
  {
    var fit := CompareTypes(col.baseType, n.pk.baseType);
    if fit == Incompatible {
      return None;
    }
    var signals := BuildSignals(
      n.signal, fit, ambiguous,
      IndexLeads(t.indexes, [col.name]), Mentions(col.comment, entity) || Mentions(t.comment, entity), !col.nullable,
      IsGeneric(entity, o.profile) && o.isSmall(n.table));
    var total := Total(signals, {});
    return Some(Candidate(SingleKey(t.schema, t.name, col.name), ParentOf(n), signals, Saturate(total), false,
                          Unvalidated));
  }

  /**
    finalizeMatches: one candidate per table found whose key takes the column's type, in
    order; every table found counts as company, also one whose type does not fit.
   */
  method FinalizeMatches(o: Options, ns: seq<Named>, t: Table, col: Model.Column, entity: string)
    returns (out: seq<Candidate>)
    ensures out == Collect(ns, FitsIn(col), Maker(o, t, col, entity, |ns| > 1))
  {
    ghost var fits, make := FitsIn(col), Maker(o, t, col, entity, |ns| > 1);
    out := [];
    for i := 0 to |ns|
      invariant out == Collect(ns[..i], fits, make)
    {
      CollectNext(ns, i, fits, make);
      var c := MakeCandidate(o, ns[i], t, col, entity, |ns| > 1);
      if c.Some? {
        out := out + [c.value];
      }
    }
    assert ns[..|ns|] == ns;
  }

  lemma CandidateIsGenerated(o: Options, n: Named, t: Table, col: Model.Column, entity: string, ambiguous: bool)
    requires IsNamed(n)
    ensures IsGenerated(CandidateOf(o, n, t, col, entity, ambiguous))
  {
    BuiltSignalsArePenalized(
      n.signal, CompareTypes(col.baseType, n.pk.baseType), ambiguous,
      IndexLeads(t.indexes, [col.name]), Mentions(col.comment, entity) || Mentions(t.comment, entity), !col.nullable,
      IsGeneric(entity, o.profile) && o.isSmall(n.table));
    NoJoinsIsOnce(CandidateOf(o, n, t, col, entity, ambiguous).signals);
  }

  /** A candidate of this column: an ordinary key of another table whose type takes the column's. */
  ghost predicate IsSingle(t: Table, col: Model.Column, n: Named, c: Candidate) {
    && IsGenerated(c) && c.child == SingleKey(t.schema, t.name, col.name)
    && c.parent == ParentOf(n) && ResolveKeyTarget(n.table) == KeyTarget.Usable(n.pk)
    && CompareTypes(col.baseType, n.pk.baseType) != Incompatible
  }

  lemma MadeIsSingle(o: Options, n: Named, t: Table, col: Model.Column, entity: string, ambiguous: bool)
    requires IsNamed(n) && Fits(col, n)
    ensures IsSingle(t, col, n, Maker(o, t, col, entity, ambiguous)(n))
  {
    CandidateIsGenerated(o, n, t, col, entity, ambiguous);
  }

  /** One candidate for every table named that fits, and no other. */
  lemma CandidatesAreSingle(o: Options, ns: seq<Named>, t: Table, col: Model.Column, entity: string, ambiguous: bool)
    requires forall n | n in ns :: IsNamed(n)
    ensures var out := Collect(ns, FitsIn(col), Maker(o, t, col, entity, ambiguous));
      && (forall c | c in out :: exists n :: n in ns && IsSingle(t, col, n, c))
      && (forall n | n in ns && Fits(col, n) :: exists c :: c in out && IsSingle(t, col, n, c))
  {
    var fits, make := FitsIn(col), Maker(o, t, col, entity, ambiguous);
    var out := Collect(ns, fits, make);
    CollectExactly(ns, fits, make);
    forall n | n in ns && Fits(col, n) ensures make(n) in out && IsSingle(t, col, n, make(n)) {
      MadeIsSingle(o, n, t, col, entity, ambiguous);
      assert fits(n);
    }
    forall c | c in out ensures exists n :: n in ns && IsSingle(t, col, n, c) {
      var n :| n in ns && fits(n) && make(n) == c;
    }
  }

  lemma CandidatesSay(o: Options, ns: seq<Named>, t: Table, col: Model.Column, entity: string)
    requires forall n | n in ns :: IsNamed(n)
    ensures var out := Collect(ns, FitsIn(col), Maker(o, t, col, entity, |ns| > 1));
      && (forall c | c in out :: exists n :: n in ns && IsSingle(t, col, n, c))
      && (forall n | n in ns && CompareTypes(col.baseType, n.pk.baseType) != Incompatible ::
            exists c :: c in out && IsSingle(t, col, n, c))
      && (DistinctBy(ns, NamedRefOf()) ==> DistinctPairs(out))
  {
    CandidatesAreSingle(o, ns, t, col, entity, |ns| > 1);
    if DistinctBy(ns, NamedRefOf()) {
      CandidatesApart(ns, FitsIn(col), Maker(o, t, col, entity, |ns| > 1));
    }
  }

  lemma CandidatesApart(ns: seq<Named>, fits: Named -> bool, make: Named -> Candidate)
    requires DistinctBy(ns, NamedRefOf()) && forall n | n in ns :: ParentRefOf()(make(n)) == NamedRefOf()(n)
    ensures DistinctPairs(Collect(ns, fits, make))
  {
    CollectApart(ns, fits, make, NamedRefOf(), ParentRefOf());
    ParentsApart(Collect(ns, fits, make));
  }
}
