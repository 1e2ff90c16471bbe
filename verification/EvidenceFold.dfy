/**
  Folding join evidence into the candidates, internal/infer/evidence.go: a list that is
  only appended to and strengthened in place, and the map that mirrors it.
 */
module EvidenceFold {
  import opened Text
  import opened Model
  import opened Scoring
  import opened CompositeKeys
  import opened Evidence

  type Tables = map<string, Table>

  // --- what the evidence states ----------------------------------------------------------------

  /** How a pair of keys is written down: candidates are looked up by it. */
  type Render = (KeyRef, KeyRef) -> string

  /** A kind of join evidence for a rendered pair. */
  type Fact = (string, SignalKind)

  predicate IsSingleKey(t: Table, column: string) { |t.primaryKey| == 1 && EqualFold(t.primaryKey[0], column) }

  /** The equality makes the child's column a hypothesis about the parent's key. */
  ghost predicate AnchorsSingle(tables: Tables, child: ColumnRef, parent: ColumnRef) {
    && parent.TableRef() in tables && child.TableRef() in tables
    && IsSingleKey(tables[parent.TableRef()], parent.column)
    && IsUsable(tables[child.TableRef()], tables[parent.TableRef()], [child.column])
  }

  function Single(r: ColumnRef): KeyRef { SingleKey(r.schema, r.table, r.column) }

  ghost function SingleFacts(render: Render, tables: Tables, source: JoinSource, child: ColumnRef,
                             parent: ColumnRef): set<Fact> {
    if AnchorsSingle(tables, child, parent)
    then {(render(Single(child), Single(parent)), SignalFor(source))}
    else {}
  }

  /** The child columns the group gives for the parent's whole key. */
  ghost function CompositeNames(tables: Tables, joins: seq<JoinEvidence>, parentRef: string,
                                childRef: string): Option<seq<string>> {
    if parentRef !in tables || childRef !in tables || |tables[parentRef].primaryKey| < 2 then None
    else match MappingOf(joins, parentRef, childRef)
      case None => None
      case Some(m) =>
        match NamesFrom(m, tables[parentRef].primaryKey)
        case None => None
        case Some(names) => if IsUsable(tables[childRef], tables[parentRef], names) then Some(names) else None
  }

  function KeyOn(t: Table, names: seq<string>): KeyRef { KeyRef(t.schema, t.name, names) }

  ghost function CompositeFacts(render: Render, tables: Tables, g: EvidenceGroup, parentRef: string,
                                childRef: string): set<Fact> {
    match CompositeNames(tables, g.joins, parentRef, childRef)
    case None => {}
    case Some(names) =>
      {(render(KeyOn(tables[childRef], names), KeyOn(tables[parentRef], tables[parentRef].primaryKey)),
        SignalFor(g.source))}
  }

  ghost function JoinFacts(render: Render, tables: Tables, joins: seq<JoinEvidence>): set<Fact> {
    if joins == [] then {}
    else
      var ev := joins[|joins| - 1];
      JoinFacts(render, tables, joins[..|joins| - 1])
      + SingleFacts(render, tables, ev.source, ev.left, ev.right) +
        SingleFacts(render, tables, ev.source, ev.right, ev.left)
  }

  ghost function BothWays(render: Render, tables: Tables, g: EvidenceGroup): set<Fact> {
    if g.left == g.right then {}
    else CompositeFacts(render, tables, g, g.left, g.right) + CompositeFacts(render, tables, g, g.right, g.left)
  }

  /** Everything the groups state. */
  ghost function AllFacts(render: Render, tables: Tables, groups: seq<EvidenceGroup>): set<Fact> {
    if groups == [] then {}
    else
      var g := groups[|groups| - 1];
      AllFacts(render, tables, groups[..|groups| - 1]) + BothWays(render, tables, g) +
        JoinFacts(render, tables, g.joins)
  }

  /** The equality states the fact, its one side being the parent's key and the other the child's column. */
  ghost predicate StatesSingle(render: Render, tables: Tables, ev: JoinEvidence, f: Fact) {
    && f.1 == SignalFor(ev.source)
    && ((AnchorsSingle(tables, ev.left, ev.right) && f.0 == render(Single(ev.left), Single(ev.right)))
        || (AnchorsSingle(tables, ev.right, ev.left) && f.0 == render(Single(ev.right), Single(ev.left))))
  }

  /** The group states the fact: it gives a usable child column of its own for every position of a key of several. */
  ghost predicate StatesKey(render: Render, tables: Tables, g: EvidenceGroup, parentRef: string, childRef: string,
                            f: Fact) {
    && parentRef in tables && childRef in tables && |tables[parentRef].primaryKey| >= 2
    && f.1 == SignalFor(g.source)
    && exists m, names ::
         && MappingOf(g.joins, parentRef, childRef) == Some(m)
         && NamesFrom(m, tables[parentRef].primaryKey) == Some(names)
         && IsUsable(tables[childRef], tables[parentRef], names)
         && f.0 == render(KeyOn(tables[childRef], names), KeyOn(tables[parentRef], tables[parentRef].primaryKey))
  }

  /** A group of two tables may state a key either way round, and every one of its equalities may state a column. */
  ghost predicate GroupStates(render: Render, tables: Tables, g: EvidenceGroup, f: Fact) {
    || (g.left != g.right && StatesKey(render, tables, g, g.left, g.right, f))
    || (g.left != g.right && StatesKey(render, tables, g, g.right, g.left, f))
    || exists ev :: ev in g.joins && StatesSingle(render, tables, ev, f)
  }

  lemma CompositeFactsExactly(render: Render, tables: Tables, g: EvidenceGroup, parentRef: string, childRef: string,
                              f: Fact)
    ensures f in CompositeFacts(render, tables, g, parentRef, childRef)
       <==> StatesKey(render, tables, g, parentRef, childRef, f)
  {
  }

  lemma SingleFactsExactly(render: Render, tables: Tables, ev: JoinEvidence, f: Fact)
    ensures StatesSingle(render, tables, ev, f) <==>
      || f in SingleFacts(render, tables, ev.source, ev.left, ev.right)
      || f in SingleFacts(render, tables, ev.source, ev.right, ev.left)
  {
    assert f == (f.0, f.1);
  }

  lemma {:induction false} JoinFactsExactly(render: Render, tables: Tables, joins: seq<JoinEvidence>, f: Fact)
    ensures f in JoinFacts(render, tables, joins) <==> exists ev :: ev in joins && StatesSingle(render, tables, ev, f)
  {
    if joins != [] {
      var n := |joins| - 1;
      JoinFactsExactly(render, tables, joins[..n], f);
      SingleFactsExactly(render, tables, joins[n], f);
      assert joins == joins[..n] + [joins[n]];
    }
  }

  lemma GroupFactsExactly(render: Render, tables: Tables, g: EvidenceGroup, f: Fact)
    ensures GroupStates(render, tables, g, f) <==>
      f in BothWays(render, tables, g) || f in JoinFacts(render, tables, g.joins)
  {
    CompositeFactsExactly(render, tables, g, g.left, g.right, f);
    CompositeFactsExactly(render, tables, g, g.right, g.left, f);
    JoinFactsExactly(render, tables, g.joins, f);
  }

  /** The facts are exactly what the groups state. */
  lemma {:induction false} FactsExactly(render: Render, tables: Tables, groups: seq<EvidenceGroup>, f: Fact)
    ensures f in AllFacts(render, tables, groups) <==> exists g :: g in groups && GroupStates(render, tables, g, f)
  {
    if groups != [] {
      var n := |groups| - 1;
      var g := groups[n];
      FactsExactly(render, tables, groups[..n], f);
      assert groups == groups[..n] + [g];
      GroupFactsExactly(render, tables, g, f);
    }
  }

  // --- what the list says ---------------------------------------------------------------------------

  function At(render: Render, c: Candidate): string { render(c.child, c.parent) }

  ghost predicate Says(render: Render, cs: seq<Candidate>, f: Fact) {
    exists i :: 0 <= i < |cs| && At(render, cs[i]) == f.0 && cs[i].HasSignal(f.1)
  }

  ghost predicate Names(render: Render, cs: seq<Candidate>, key: string) {
    exists i :: 0 <= i < |cs| && At(render, cs[i]) == key
  }

  ghost predicate NoPairTwice(render: Render, cs: seq<Candidate>) {
    forall i, j | 0 <= i < j < |cs| :: At(render, cs[i]) != At(render, cs[j])
  }

  /** Join signals, each of the weight of its kind. */
  ghost predicate OnlyJoins(signals: seq<Signal>) {
    forall s | s in signals :: IsJoinKind(s.kind) && s.weight == JoinWeight(s.kind)
  }

  ghost predicate AllSound(cs: seq<Candidate>) { forall i | 0 <= i < |cs| :: IsSound(cs[i]) }

  /** The same hypothesis, with join signals of their weights added at the end. */
  ghost predicate Strengthens(a: Candidate, b: Candidate) {
    && b.Identity() == a.Identity() && b.validated == a.validated && b.verdict == a.verdict
    && a.signals <= b.signals && OnlyJoins(b.signals[|a.signals|..])
  }

  // --- what only evidence has found --------------------------------------------------------------

  function Fresh(child: KeyRef, parent: KeyRef, kind: SignalKind, rest: seq<Signal>): Candidate {
    var signals := [Signal(kind, JoinWeight(kind))] + rest;
    Candidate(child, parent, signals, Score(signals), false, Unvalidated)
  }

  /** The signals of a candidate only evidence has found, besides the join. */
  function EvidenceSignals(arity: seq<Signal>, fit: TypeMatch, indexed: bool, notNull: bool): seq<Signal> {
    arity + [FitSignal(fit)] + ColumnSignals(indexed, false, notNull)
  }

  function AritySignals(n: nat): seq<Signal> { When(n >= 2, Signal(CompositeArity, ArityWeight(n))) }

  /** What the tables say of these columns as a reference to the parent's key: arity, types, index and nulls. */
  ghost function RestOf(c: Table, p: Table, names: seq<string>): seq<Signal>
    requires IsUsable(c, p, names)
  {
    var cs, ps := ColumnsOf(c, names).value, ColumnsOf(p, p.primaryKey).value;
    EvidenceSignals(AritySignals(|names|), if AllIdentical(cs, ps) then Identical else Compatible,
                    IndexLeads(c.indexes, names), AllNotNull(cs))
  }

  ghost predicate WellKeyed(tables: Tables) { forall r | r in tables :: tables[r].Ref() == r }

  /**
    Born of evidence: a hypothesis about a whole key of a known table, in columns the child
    can offer, with one join and what the tables say of it; nobody has validated it.
   */
  ghost predicate Born(tables: Tables, b: Candidate) {
    exists c, p, kind :: BornOn(tables, c, p, kind, b)
  }

  ghost predicate BornOn(tables: Tables, c: string, p: string, kind: SignalKind, b: Candidate) {
    && c in tables && p in tables && IsJoinKind(kind)
    && FoundedOn(tables[c], tables[p], b.child, b.parent)
    && (WellKeyed(tables) ==> b.child.TableRef() == c && b.parent.TableRef() == p)
    && b == Fresh(b.child, b.parent, kind, RestOf(tables[c], tables[p], b.child.columns))
  }

  ghost predicate FoundedOn(c: Table, p: Table, child: KeyRef, parent: KeyRef) {
    && |child.columns| == |parent.columns| == |p.primaryKey| >= 1
    && (forall i | 0 <= i < |p.primaryKey| :: EqualFold(parent.columns[i], p.primaryKey[i]))
    && IsUsable(c, p, child.columns) && DistinctFolded(child.columns)
  }

  // --- one list after another -----------------------------------------------------------------------

  ghost predicate Grows(before: seq<Candidate>, after: seq<Candidate>) {
    |before| <= |after| && forall i | 0 <= i < |before| :: Strengthens(before[i], after[i])
  }

  ghost predicate About(facts: set<Fact>, key: string) { exists f :: f in facts && f.0 == key }

  ghost predicate SaysMore(render: Render, before: seq<Candidate>, after: seq<Candidate>, facts: set<Fact>) {
    && (forall f: Fact | IsJoinKind(f.1) :: Says(render, after, f) <==> Says(render, before, f) || f in facts)
    && (forall key :: Names(render, after, key) <==> Names(render, before, key) || About(facts, key))
  }

  ghost predicate StaysSound(render: Render, before: seq<Candidate>, after: seq<Candidate>) {
    (AllSound(before) ==> AllSound(after)) && (NoPairTwice(render, before) ==> NoPairTwice(render, after))
  }

  ghost predicate Stems(ok: Candidate -> bool, c: Candidate) { exists b :: ok(b) && Strengthens(b, c) }

  /** Every new candidate is one that may be added, with no more than join signals on top. */
  ghost predicate AddsOnly(ok: Candidate -> bool, before: seq<Candidate>, after: seq<Candidate>) {
    forall i | |before| <= i < |after| :: Stems(ok, after[i])
  }

  /** after is before with exactly these facts folded in. */
  ghost predicate Absorbs(render: Render, ok: Candidate -> bool, before: seq<Candidate>, after: seq<Candidate>,
                          facts: set<Fact>) {
    && Grows(before, after) && SaysMore(render, before, after, facts)
    && StaysSound(render, before, after) && AddsOnly(ok, before, after)
  }

  lemma StrengthensTwice(a: Candidate, b: Candidate, c: Candidate)
    requires Strengthens(a, b) && Strengthens(b, c)
    ensures Strengthens(a, c)
  {
    assert c.signals[|a.signals|..] == b.signals[|a.signals|..] + c.signals[|b.signals|..];
  }

  lemma StrengthensItself(a: Candidate)
    ensures Strengthens(a, a)
  {
    assert a.signals[|a.signals|..] == [];
  }

  lemma GrowsTwice(a: seq<Candidate>, b: seq<Candidate>, c: seq<Candidate>)
    requires Grows(a, b) && Grows(b, c)
    ensures Grows(a, c)
  {
    forall i | 0 <= i < |a| ensures Strengthens(a[i], c[i]) {
      StrengthensTwice(a[i], b[i], c[i]);
    }
  }

  lemma SaysMoreTwice(render: Render, a: seq<Candidate>, b: seq<Candidate>, c: seq<Candidate>, f: set<Fact>,
                      g: set<Fact>)
    requires SaysMore(render, a, b, f) && SaysMore(render, b, c, g)
    ensures SaysMore(render, a, c, f + g)
  {
  }

  lemma AddsOnlyTwice(ok: Candidate -> bool, a: seq<Candidate>, b: seq<Candidate>, c: seq<Candidate>)
    requires AddsOnly(ok, a, b) && AddsOnly(ok, b, c) && Grows(b, c)
    ensures AddsOnly(ok, a, c)
  {
    forall i | |a| <= i < |c| ensures Stems(ok, c[i]) {
      if i < |b| {
        var d :| ok(d) && Strengthens(d, b[i]);
        StrengthensTwice(d, b[i], c[i]);
      }
    }
  }

  lemma AbsorbsTwice(render: Render, ok: Candidate -> bool, a: seq<Candidate>, b: seq<Candidate>,
                     c: seq<Candidate>, f: set<Fact>, g: set<Fact>)
    requires Absorbs(render, ok, a, b, f) && Absorbs(render, ok, b, c, g)
    ensures Absorbs(render, ok, a, c, f + g)
  {
    GrowsTwice(a, b, c);
    SaysMoreTwice(render, a, b, c, f, g);
    AddsOnlyTwice(ok, a, b, c);
  }

  lemma AbsorbsNothing(render: Render, ok: Candidate -> bool, a: seq<Candidate>)
    ensures Absorbs(render, ok, a, a, {})
  {
    forall i | 0 <= i < |a| ensures Strengthens(a[i], a[i]) {
      StrengthensItself(a[i]);
    }
  }

  // --- one fact -----------------------------------------------------------------------------------------

  /** The candidate after one more join of that kind: a kind it has already counts no further. */
  function Strengthened(c: Candidate, kind: SignalKind): Candidate {
    if c.HasSignal(kind) then c
    else
      var signals := c.signals + [Signal(kind, JoinWeight(kind))];
      c.(signals := signals, metaScore := Score(signals))
  }

  lemma HasOne(s: Signal, k: SignalKind)
    ensures Has([s], k) <==> s.kind == k
  {
    assert [s][0] == s;
  }

  lemma JoinsOnceSnoc(signals: seq<Signal>, s: Signal)
    requires JoinsOnce(signals) && !Has(signals, s.kind)
    ensures JoinsOnce(signals + [s])
  {
    var more := signals + [s];
    assert forall i | 0 <= i < |signals| :: more[i] == signals[i];
  }

  lemma StrengthenedSays(c: Candidate, kind: SignalKind)
    requires IsJoinKind(kind)
    ensures Strengthens(c, Strengthened(c, kind))
    ensures IsSound(c) ==> IsSound(Strengthened(c, kind))
    ensures forall k :: Strengthened(c, kind).HasSignal(k) <==> c.HasSignal(k) || k == kind
  {
    if Has(c.signals, kind) {
      StrengthensItself(c);
    } else {
      var s := Signal(kind, JoinWeight(kind));
      assert (c.signals + [s])[|c.signals|..] == [s];
      forall k ensures Has(c.signals + [s], k) <==> Has(c.signals, k) || k == kind {
        HasConcat(c.signals, [s], k);
        HasOne(s, k);
      }
      if JoinsOnce(c.signals) { JoinsOnceSnoc(c.signals, s); }
    }
  }

  lemma FreshSays(child: KeyRef, parent: KeyRef, kind: SignalKind, rest: seq<Signal>)
    requires IsJoinKind(kind) && NoJoins(rest) && GenericPenalized(rest)
    ensures var c := Fresh(child, parent, kind, rest);
      IsSound(c) && forall k | IsJoinKind(k) :: c.HasSignal(k) <==> k == kind
  {
    var s := Signal(kind, JoinWeight(kind));
    forall k | IsJoinKind(k) ensures Has([s] + rest, k) <==> k == kind {
      HasConcat([s], rest, k);
      HasOne(s, k);
    }
    forall i | 0 <= i < |rest| ensures !IsJoinKind(rest[i].kind) {
      assert Has(rest, rest[i].kind);
    }
    assert forall i | 0 < i < |[s] + rest| :: ([s] + rest)[i] == rest[i - 1];
  }

  /** A position whose candidate is replaced by one about the same pair. */
  lemma NamesAfterUpdate(render: Render, cs: seq<Candidate>, i: nat, d: Candidate)
    requires i < |cs| && d.Identity() == cs[i].Identity()
    ensures forall key :: Names(render, cs[i := d], key) <==> Names(render, cs, key)
    ensures NoPairTwice(render, cs) ==> NoPairTwice(render, cs[i := d])
  {
    var after := cs[i := d];
    assert forall j | 0 <= j < |cs| :: At(render, after[j]) == At(render, cs[j]);
    forall key ensures Names(render, after, key) <==> Names(render, cs, key) {
      if Names(render, cs, key) {
        var j :| 0 <= j < |cs| && At(render, cs[j]) == key;
        assert At(render, after[j]) == key;
      }
    }
  }

  lemma SaysAfterUpdate(render: Render, cs: seq<Candidate>, i: nat, d: Candidate, kind: SignalKind)
    requires i < |cs| && d.Identity() == cs[i].Identity()
    requires forall k :: d.HasSignal(k) <==> cs[i].HasSignal(k) || k == kind
    ensures forall f: Fact :: Says(render, cs[i := d], f) <==> Says(render, cs, f) || f == (At(render, cs[i]), kind)
  {
    forall f: Fact ensures Says(render, cs[i := d], f) <==> Says(render, cs, f) || f == (At(render, cs[i]), kind) {
      SaysOneUpdated(render, cs, i, d, kind, f);
    }
  }

  lemma SaysOneUpdated(render: Render, cs: seq<Candidate>, i: nat, d: Candidate, kind: SignalKind, f: Fact)
    requires i < |cs| && d.Identity() == cs[i].Identity()
    requires d.HasSignal(f.1) <==> cs[i].HasSignal(f.1) || f.1 == kind
    ensures Says(render, cs[i := d], f) <==> Says(render, cs, f) || f == (At(render, cs[i]), kind)
  {
    var after := cs[i := d];
    assert forall j | 0 <= j < |cs| :: At(render, after[j]) == At(render, cs[j]);
    if Says(render, cs, f) {
      var j :| 0 <= j < |cs| && At(render, cs[j]) == f.0 && cs[j].HasSignal(f.1);
      assert At(render, after[j]) == f.0 && after[j].HasSignal(f.1);
    }
    if f == (At(render, cs[i]), kind) {
      assert At(render, after[i]) == f.0 && after[i].HasSignal(f.1);
    }
  }

  lemma OneFact(f: Fact, key: string)
    ensures About({f}, key) <==> f.0 == key
  {
    assert f in {f};
  }

  lemma StrengtheningAbsorbs(render: Render, ok: Candidate -> bool, cs: seq<Candidate>, i: nat, kind: SignalKind)
    requires i < |cs| && IsJoinKind(kind)
    ensures Absorbs(render, ok, cs, cs[i := Strengthened(cs[i], kind)], {(At(render, cs[i]), kind)})
  {
    var d := Strengthened(cs[i], kind);
    StrengthenedSays(cs[i], kind);
    NamesAfterUpdate(render, cs, i, d);
    SaysAfterUpdate(render, cs, i, d, kind);
    forall j | 0 <= j < |cs| ensures Strengthens(cs[j], cs[i := d][j]) {
      StrengthensItself(cs[j]);
    }
    assert Names(render, cs, At(render, cs[i]));
    forall key ensures About({(At(render, cs[i]), kind)}, key) <==> key == At(render, cs[i]) {
      OneFact((At(render, cs[i]), kind), key);
    }
  }

  lemma NamesAfterAppend(render: Render, cs: seq<Candidate>, d: Candidate)
    ensures forall key :: Names(render, cs + [d], key) <==> Names(render, cs, key) || key == At(render, d)
    ensures NoPairTwice(render, cs) && !Names(render, cs, At(render, d)) ==> NoPairTwice(render, cs + [d])
  {
    var after := cs + [d];
    assert after[|cs|] == d;
    assert forall j | 0 <= j < |cs| :: after[j] == cs[j];
    forall key ensures Names(render, after, key) <==> Names(render, cs, key) || key == At(render, d) {
      if Names(render, cs, key) {
        var j :| 0 <= j < |cs| && At(render, cs[j]) == key;
        assert At(render, after[j]) == key;
      }
    }
  }

  lemma SaysAfterAppend(render: Render, cs: seq<Candidate>, d: Candidate, kind: SignalKind)
    requires forall k | IsJoinKind(k) :: d.HasSignal(k) <==> k == kind
    requires IsJoinKind(kind)
    ensures forall f: Fact | IsJoinKind(f.1) ::
      Says(render, cs + [d], f) <==> Says(render, cs, f) || f == (At(render, d), kind)
  {
    var after := cs + [d];
    assert after[|cs|] == d;
    assert forall j | 0 <= j < |cs| :: after[j] == cs[j];
    forall f: Fact | IsJoinKind(f.1)
      ensures Says(render, after, f) <==> Says(render, cs, f) || f == (At(render, d), kind)
    {
      if Says(render, cs, f) {
        var j :| 0 <= j < |cs| && At(render, cs[j]) == f.0 && cs[j].HasSignal(f.1);
        assert At(render, after[j]) == f.0 && after[j].HasSignal(f.1);
      }
    }
  }

  lemma AppendingAbsorbs(render: Render, ok: Candidate -> bool, cs: seq<Candidate>, d: Candidate,
                         kind: SignalKind)
    requires IsJoinKind(kind) && IsSound(d) && ok(d)
    requires forall k | IsJoinKind(k) :: d.HasSignal(k) <==> k == kind
    requires !Names(render, cs, At(render, d))
    ensures Absorbs(render, ok, cs, cs + [d], {(At(render, d), kind)})
  {
    NamesAfterAppend(render, cs, d);
    SaysAfterAppend(render, cs, d, kind);
    StrengthensItself(d);
    forall j | 0 <= j < |cs| ensures Strengthens(cs[j], (cs + [d])[j]) {
      StrengthensItself(cs[j]);
    }
    forall key ensures About({(At(render, d), kind)}, key) <==> key == At(render, d) {
      OneFact((At(render, d), kind), key);
    }
  }

  // --- the list and its map ---------------------------------------------------------------------------

  /** The map holds the rendered pairs of the list and nothing else, each at a position that has it. */
  ghost predicate Indexes(render: Render, existing: map<string, nat>, cs: seq<Candidate>) {
    && (forall k | k in existing :: existing[k] < |cs| && At(render, cs[existing[k]]) == k)
    && (forall i | 0 <= i < |cs| :: At(render, cs[i]) in existing)
  }

  lemma IndexedNames(render: Render, existing: map<string, nat>, cs: seq<Candidate>)
    requires Indexes(render, existing, cs)
    ensures forall key :: Names(render, cs, key) <==> key in existing
  {
  }

  /** With no pair twice, the map is the list seen backwards. */
  lemma IndexIsExact(render: Render, existing: map<string, nat>, cs: seq<Candidate>)
    requires Indexes(render, existing, cs) && NoPairTwice(render, cs)
    ensures forall i | 0 <= i < |cs| :: existing[At(render, cs[i])] == i
  {
  }

  class Result {
    const render: Render
    var candidates: seq<Candidate>
    var existing: map<string, nat>

    ghost predicate Valid()
      reads this
    {
      Indexes(render, existing, candidates)
    }

    /** candidateIndex. */
    constructor (render: Render, cs: seq<Candidate>)
      ensures Valid() && candidates == cs && this.render == render
    {
      var index: map<string, nat> := map[];
      for i := 0 to |cs|
        invariant Indexes(render, index, cs[..i])
      {
        IndexSnoc(render, index, cs[..i], cs[i]);
        assert cs[..i + 1] == cs[..i] + [cs[i]];
        index := index[render(cs[i].child, cs[i].parent) := i];
      }
      assert cs[..|cs|] == cs;
      this.render, candidates, existing := render, cs, index;
    }

    /** The end both applyCompositeOriented and applyOriented come to. */
    method Credit(ghost ok: Candidate -> bool, key: string, child: KeyRef, parent: KeyRef, kind: SignalKind,
                  rest: seq<Signal>)
      requires Valid() && key == render(child, parent)
      requires IsJoinKind(kind) && NoJoins(rest) && GenericPenalized(rest) && ok(Fresh(child, parent, kind, rest))
      modifies this
      ensures Valid()
      ensures Absorbs(render, ok, old(candidates), candidates, {(key, kind)})
      ensures !Names(render, old(candidates), key) ==>
        candidates == old(candidates) + [Fresh(child, parent, kind, rest)]
      ensures Names(render, old(candidates), key) ==>
        exists i :: 0 <= i < |old(candidates)| && At(render, old(candidates)[i]) == key
          && candidates == old(candidates)[i := Strengthened(old(candidates)[i], kind)]
    {
      IndexedNames(render, existing, candidates);
      if key in existing {
        var i := existing[key];
        StrengtheningAbsorbs(render, ok, candidates, i, kind);
        IndexUpdate(render, existing, candidates, i, Strengthened(candidates[i], kind));
        if !candidates[i].HasSignal(kind) {
          var c := candidates[i].(signals := candidates[i].signals + [Signal(kind, JoinWeight(kind))]);
          var d := Rescore(c);
          candidates := candidates[i := d];
        } else {
          assert candidates[i := candidates[i]] == candidates;
        }
        return;
      }
      FreshSays(child, parent, kind, rest);
      AppendingAbsorbs(render, ok, candidates, Fresh(child, parent, kind, rest), kind);
      IndexSnoc(render, existing, candidates, Fresh(child, parent, kind, rest));
      var signals := [Signal(kind, JoinWeight(kind))] + rest;
      var total := Total(signals, {});
      existing := existing[key := |candidates|];
      candidates := candidates + [Candidate(child, parent, signals, Saturate(total), false, Unvalidated)];
    }
  }

  lemma IndexSnoc(render: Render, existing: map<string, nat>, cs: seq<Candidate>, d: Candidate)
    requires Indexes(render, existing, cs)
    ensures Indexes(render, existing[At(render, d) := |cs|], cs + [d])
  {
    var after := cs + [d];
    assert after[|cs|] == d;
    assert forall j | 0 <= j < |cs| :: after[j] == cs[j];
  }

  lemma IndexUpdate(render: Render, existing: map<string, nat>, cs: seq<Candidate>, i: nat, d: Candidate)
    requires Indexes(render, existing, cs) && i < |cs| && d.Identity() == cs[i].Identity()
    ensures Indexes(render, existing, cs[i := d])
  {
    assert forall j | 0 <= j < |cs| :: At(render, cs[i := d][j]) == At(render, cs[j]);
  }
}
