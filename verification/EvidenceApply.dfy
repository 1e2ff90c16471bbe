/**
  The passes of internal/infer/evidence.go over the groups: each offers a pair of keys
  to the list when the tables carry it, and the list ends up saying exactly what the
  evidence states.
 */
module EvidenceApply {
  import opened Text
  import opened Model
  import opened Scoring
  import opened CompositeKeys
  import opened Evidence
  import opened EvidenceFold

  function PairRender(): Render { (child: KeyRef, parent: KeyRef) => PairKey(child.String(), parent.String()) }

  ghost function BornIn(tables: Tables): Candidate -> bool { (b: Candidate) => Born(tables, b) }

  // --- arity one -----------------------------------------------------------------------------

  lemma OneColumn(t: Table, n: string)
    ensures ColumnsOf(t, [n]) == match t.FindColumn(n) case Some(c) => Some([c]) case None => None
  {
    assert [n][..0] == [];
    var none: seq<Column> := [];
    assert ColumnsOf(t, []) == Some(none);
    match t.FindColumn(n)
    case None =>
    case Some(c) => assert none + [c] == [c];
  }

  lemma OneKeyColumn(t: Table, n: string)
    requires IsSingleKey(t, n)
    ensures ColumnsOf(t, t.primaryKey) == match t.FindColumn(n) case Some(c) => Some([c]) case None => None
  {
    assert t.primaryKey == [t.primaryKey[0]];
    OneColumn(t, t.primaryKey[0]);
    FirstNamedFolds(t.columns, t.primaryKey[0], n);
  }

  lemma SingleUsable(c: Table, p: Table, child: string, parent: string)
    requires IsSingleKey(p, parent)
    ensures IsUsable(c, p, [child]) <==>
      && c.FindColumn(child).Some? && Eligible(c, c.FindColumn(child).value)
      && p.FindColumn(parent).Some?
      && CompareTypes(c.FindColumn(child).value.baseType, p.FindColumn(parent).value.baseType) != Incompatible
  {
    OneColumn(c, child);
    OneKeyColumn(p, parent);
    if c.FindColumn(child).Some? {
      assert ColumnsOf(c, [child]).value[0] == c.FindColumn(child).value;
    }
  }

  lemma SingleBorn(tables: Tables, child: ColumnRef, parent: ColumnRef, kind: SignalKind)
    requires AnchorsSingle(tables, child, parent) && IsJoinKind(kind)
    ensures Born(tables, Fresh(Single(child), Single(parent), kind, SingleRest(tables, child, parent)))
  {
    var c, p := tables[child.TableRef()], tables[parent.TableRef()];
    assert FoundedOn(c, p, Single(child), Single(parent));
    assert BornOn(tables, child.TableRef(), parent.TableRef(), kind,
                  Fresh(Single(child), Single(parent), kind, SingleRest(tables, child, parent)));
  }

  ghost function SingleRest(tables: Tables, child: ColumnRef, parent: ColumnRef): seq<Signal>
    requires AnchorsSingle(tables, child, parent)
  {
    RestOf(tables[child.TableRef()], tables[parent.TableRef()], [child.column])
  }

  lemma LeadsFold(indexes: seq<Index>, a: string, b: string)
    requires EqualFold(a, b)
    ensures IndexLeads(indexes, [a]) == IndexLeads(indexes, [b])
  {
    if x :| x in indexes && |x.columns| >= 1 && EqualFold(x.columns[0], a) {
      assert forall i | 0 <= i < |[b]| :: EqualFold(x.columns[i], [b][i]);
    }
    if x :| x in indexes && |x.columns| >= 1 && EqualFold(x.columns[0], b) {
      assert forall i | 0 <= i < |[a]| :: EqualFold(x.columns[i], [a][i]);
    }
    assert IndexLeads(indexes, [a]) ==> exists x :: x in indexes && |x.columns| >= 1 && EqualFold(x.columns[0], [a][0]);
    assert IndexLeads(indexes, [b]) ==> exists x :: x in indexes && |x.columns| >= 1 && EqualFold(x.columns[0], [b][0]);
  }

  /** What the tables say of a single column, in terms of the column and the key's column. */
  lemma SingleRestIs(tables: Tables, child: ColumnRef, parent: ColumnRef)
    requires AnchorsSingle(tables, child, parent)
    ensures var c, p := tables[child.TableRef()], tables[parent.TableRef()];
            var col, pk := c.FindColumn(child.column), p.FindColumn(parent.column);
      && col.Some? && pk.Some?
      && SingleRest(tables, child, parent) ==
           EvidenceSignals([], CompareTypes(col.value.baseType, pk.value.baseType),
                           IndexLeads(c.indexes, [col.value.name]), !col.value.nullable)
  {
    var c, p := tables[child.TableRef()], tables[parent.TableRef()];
    SingleUsable(c, p, child.column, parent.column);
    OneColumn(c, child.column);
    OneKeyColumn(p, parent.column);
    var col, pk := c.FindColumn(child.column).value, p.FindColumn(parent.column).value;
    var cs, ps := ColumnsOf(c, [child.column]).value, ColumnsOf(p, p.primaryKey).value;
    assert cs == [col] && ps == [pk];
    assert AllIdentical(cs, ps) <==> CompareTypes(cs[0].baseType, ps[0].baseType) == Identical;
    assert col in cs;
    LeadsFold(c.indexes, child.column, col.name);
  }

  lemma EvidenceSignalsNoJoins(arity: seq<Signal>, fit: TypeMatch, indexed: bool, notNull: bool)
    requires NoJoins(arity) && !Has(arity, GenericDomain)
    ensures NoJoins(EvidenceSignals(arity, fit, indexed, notNull))
    ensures GenericPenalized(EvidenceSignals(arity, fit, indexed, notNull))
  {
    forall k | IsJoinKind(k) || k == GenericDomain ensures !Has(EvidenceSignals(arity, fit, indexed, notNull), k) {
      HasConcat(arity + [FitSignal(fit)], ColumnSignals(indexed, false, notNull), k);
      HasConcat(arity, [FitSignal(fit)], k);
      HasOne(FitSignal(fit), k);
      ColumnSignalsSay(indexed, false, notNull, k);
    }
    NoneIsPenalized(EvidenceSignals(arity, fit, indexed, notNull));
  }

  /** The checks of applyOriented, and what the pair would carry. */
  method ReadSingle(tables: Tables, child: ColumnRef, parent: ColumnRef) returns (rest: Option<seq<Signal>>)
    ensures rest.Some? <==> AnchorsSingle(tables, child, parent)
    ensures rest.Some? ==> rest.value == SingleRest(tables, child, parent)
    ensures rest.Some? ==> NoJoins(rest.value) && GenericPenalized(rest.value)
  {
    if parent.TableRef() !in tables || !IsSingleKey(tables[parent.TableRef()], parent.column) {
      return None;
    }
    if child.TableRef() !in tables {
      return None;
    }
    var c, p := tables[child.TableRef()], tables[parent.TableRef()];
    SingleUsable(c, p, child.column, parent.column);
    var col := c.FindColumn(child.column);
    if col.None? || !Eligible(c, col.value) {
      return None;
    }
    var pk := p.FindColumn(parent.column);
    if pk.None? {
      return None;
    }
    var fit := CompareTypes(col.value.baseType, pk.value.baseType);
    if fit == Incompatible {
      return None;
    }
    SingleRestIs(tables, child, parent);
    EvidenceSignalsNoJoins([], fit, IndexLeads(c.indexes, [col.value.name]), !col.value.nullable);
    return Some(EvidenceSignals([], fit, IndexLeads(c.indexes, [col.value.name]), !col.value.nullable));
  }

  method ApplyOriented(res: Result, tables: Tables, source: JoinSource, child: ColumnRef, parent: ColumnRef)
    requires res.Valid() && res.render == PairRender()
    modifies res
    ensures res.Valid()
    ensures Absorbs(res.render, BornIn(tables), old(res.candidates), res.candidates,
                    SingleFacts(res.render, tables, source, child, parent))
  {
    var rest := ReadSingle(tables, child, parent);
    if rest.None? {
      AbsorbsNothing(res.render, BornIn(tables), res.candidates);
      return;
    }
    SingleBorn(tables, child, parent, SignalFor(source));
    var key := PairKey(child.String(), parent.String());
    assert key == res.render(Single(child), Single(parent));
    res.Credit(BornIn(tables), key, Single(child), Single(parent), SignalFor(source), rest.value);
  }

  /** The tables say nothing of joins. */
  lemma RestNoJoins(c: Table, p: Table, names: seq<string>)
    requires IsUsable(c, p, names)
    ensures NoJoins(RestOf(c, p, names))
  {
    var cs, ps := ColumnsOf(c, names).value, ColumnsOf(p, p.primaryKey).value;
    forall k ensures Has(AritySignals(|names|), k) <==> |names| >= 2 && k == CompositeArity {
      WhenSays(|names| >= 2, Signal(CompositeArity, ArityWeight(|names|)), k);
    }
    EvidenceSignalsNoJoins(AritySignals(|names|), if AllIdentical(cs, ps) then Identical else Compatible,
                           IndexLeads(c.indexes, names), AllNotNull(cs));
  }

  /** Both orientations of every equality of a group. */
  method ApplyJoins(res: Result, tables: Tables, joins: seq<JoinEvidence>)
    requires res.Valid() && res.render == PairRender()
    modifies res
    ensures res.Valid()
    ensures Absorbs(res.render, BornIn(tables), old(res.candidates), res.candidates,
                    JoinFacts(res.render, tables, joins))
  {
    ghost var before, ok := res.candidates, BornIn(tables);
    AbsorbsNothing(res.render, ok, before);
    for i := 0 to |joins|
      invariant res.Valid()
      invariant Absorbs(res.render, ok, before, res.candidates, JoinFacts(res.render, tables, joins[..i]))
    {
      var ev := joins[i];
      assert joins[..i + 1][..i] == joins[..i];
      ghost var start := res.candidates;
      ApplyOriented(res, tables, ev.source, ev.left, ev.right);
      ghost var middle := res.candidates;
      AbsorbsTwice(res.render, ok, before, start, middle,
                   JoinFacts(res.render, tables, joins[..i]),
                   SingleFacts(res.render, tables, ev.source, ev.left, ev.right));
      ApplyOriented(res, tables, ev.source, ev.right, ev.left);
      AbsorbsTwice(res.render, ok, before, middle, res.candidates,
                   JoinFacts(res.render, tables, joins[..i]) +
                     SingleFacts(res.render, tables, ev.source, ev.left, ev.right),
                   SingleFacts(res.render, tables, ev.source, ev.right, ev.left));
    }
    assert joins[..|joins|] == joins;
  }

  // --- arity two and more ---------------------------------------------------------------------

  lemma CompositeFounded(tables: Tables, joins: seq<JoinEvidence>, parentRef: string, childRef: string)
    requires CompositeNames(tables, joins, parentRef, childRef).Some?
    ensures var names := CompositeNames(tables, joins, parentRef, childRef).value;
            var c, p := tables[childRef], tables[parentRef];
      FoundedOn(c, p, KeyOn(c, names), KeyOn(p, p.primaryKey))
  {
    var names := CompositeNames(tables, joins, parentRef, childRef).value;
    NamesFromExactly(MappingOf(joins, parentRef, childRef).value, tables[parentRef].primaryKey);
  }

  ghost function CompositeRest(tables: Tables, joins: seq<JoinEvidence>, parentRef: string,
                               childRef: string): seq<Signal>
    requires CompositeNames(tables, joins, parentRef, childRef).Some?
  {
    RestOf(tables[childRef], tables[parentRef], CompositeNames(tables, joins, parentRef, childRef).value)
  }

  lemma CompositeBorn(tables: Tables, joins: seq<JoinEvidence>, parentRef: string, childRef: string, kind: SignalKind)
    requires CompositeNames(tables, joins, parentRef, childRef).Some? && IsJoinKind(kind)
    ensures var names := CompositeNames(tables, joins, parentRef, childRef).value;
            var c, p := tables[childRef], tables[parentRef];
      Born(tables, Fresh(KeyOn(c, names), KeyOn(p, p.primaryKey), kind,
                         CompositeRest(tables, joins, parentRef, childRef)))
  {
    var names := CompositeNames(tables, joins, parentRef, childRef).value;
    var c, p := tables[childRef], tables[parentRef];
    CompositeFounded(tables, joins, parentRef, childRef);
    assert BornOn(tables, childRef, parentRef, kind,
                  Fresh(KeyOn(c, names), KeyOn(p, p.primaryKey), kind, RestOf(c, p, names)));
  }

  datatype Hypothesis = Hypothesis(names: seq<string>, rest: seq<Signal>)

  /** The checks of applyCompositeOriented: every position of the key, or no anchor at all. */
  method ReadComposite(tables: Tables, joins: seq<JoinEvidence>, parentRef: string, childRef: string)
    returns (h: Option<Hypothesis>)
    ensures h.Some? <==> CompositeNames(tables, joins, parentRef, childRef).Some?
    ensures h.Some? ==> CompositeNames(tables, joins, parentRef, childRef) == Some(h.value.names)
    ensures h.Some? ==> h.value.rest == CompositeRest(tables, joins, parentRef, childRef)
    ensures h.Some? ==> NoJoins(h.value.rest) && GenericPenalized(h.value.rest)
  {
    if parentRef !in tables || |tables[parentRef].primaryKey| < 2 || childRef !in tables {
      return None;
    }
    var c, p := tables[childRef], tables[parentRef];
    var mapping := KeyMapping(joins, parentRef, childRef);
    if mapping.None? {
      return None;
    }
    var names := ChildNames(mapping.value, p.primaryKey);
    if names.None? {
      return None;
    }
    var usable := Usable(c, p, names.value);
    if !usable {
      return None;
    }
    var cs := KeyColumns(c, names.value);
    var ps := KeyColumns(p, p.primaryKey);
    var fit := CompareKeys(cs.value, ps.value);
    var arity := Signal(CompositeArity, ArityWeight(|cs.value|));
    forall k ensures Has([arity], k) <==> k == CompositeArity { HasOne(arity, k); }
    EvidenceSignalsNoJoins([arity], fit, IndexLeads(c.indexes, names.value), AllNotNull(cs.value));
    return Some(Hypothesis(names.value,
                           EvidenceSignals([arity], fit, IndexLeads(c.indexes, names.value), AllNotNull(cs.value))));
  }

  method ApplyCompositeOriented(res: Result, tables: Tables, g: EvidenceGroup, parentRef: string, childRef: string)
    requires res.Valid() && res.render == PairRender()
    modifies res
    ensures res.Valid()
    ensures Absorbs(res.render, BornIn(tables), old(res.candidates), res.candidates,
                    CompositeFacts(res.render, tables, g, parentRef, childRef))
  {
    var h := ReadComposite(tables, g.joins, parentRef, childRef);
    if h.None? {
      AbsorbsNothing(res.render, BornIn(tables), res.candidates);
      return;
    }
    CompositeBorn(tables, g.joins, parentRef, childRef, SignalFor(g.source));
    var child, parent := KeyOn(tables[childRef], h.value.names), KeyOn(tables[parentRef], tables[parentRef].primaryKey);
    var key := PairKey(child.String(), parent.String());
    assert key == res.render(child, parent);
    res.Credit(BornIn(tables), key, child, parent, SignalFor(g.source), h.value.rest);
  }

  method ApplyCompositeEvidence(res: Result, tables: Tables, g: EvidenceGroup)
    requires res.Valid() && res.render == PairRender()
    modifies res
    ensures res.Valid()
    ensures Absorbs(res.render, BornIn(tables), old(res.candidates), res.candidates, BothWays(res.render, tables, g))
  {
    if g.left == g.right {
      AbsorbsNothing(res.render, BornIn(tables), res.candidates);
      return;
    }
    ghost var before := res.candidates;
    ApplyCompositeOriented(res, tables, g, g.left, g.right);
    ghost var middle := res.candidates;
    ApplyCompositeOriented(res, tables, g, g.right, g.left);
    AbsorbsTwice(res.render, BornIn(tables), before, middle, res.candidates,
                 CompositeFacts(res.render, tables, g, g.left, g.right),
                 CompositeFacts(res.render, tables, g, g.right, g.left));
  }

  // --- everything -----------------------------------------------------------------------------

  method ApplyGroups(res: Result, tables: Tables, groups: seq<EvidenceGroup>)
    requires res.Valid() && res.render == PairRender()
    modifies res
    ensures res.Valid()
    ensures Absorbs(res.render, BornIn(tables), old(res.candidates), res.candidates,
                    AllFacts(res.render, tables, groups))
  {
    ghost var before, ok := res.candidates, BornIn(tables);
    AbsorbsNothing(res.render, ok, before);
    for i := 0 to |groups|
      invariant res.Valid()
      invariant Absorbs(res.render, ok, before, res.candidates, AllFacts(res.render, tables, groups[..i]))
    {
      var g := groups[i];
      assert groups[..i + 1][..i] == groups[..i];
      ghost var start := res.candidates;
      ApplyCompositeEvidence(res, tables, g);
      ghost var middle := res.candidates;
      AbsorbsTwice(res.render, ok, before, start, middle, AllFacts(res.render, tables, groups[..i]),
                   BothWays(res.render, tables, g));
      ApplyJoins(res, tables, g.joins);
      AbsorbsTwice(res.render, ok, before, middle, res.candidates,
                   AllFacts(res.render, tables, groups[..i]) + BothWays(res.render, tables, g),
                   JoinFacts(res.render, tables, g.joins));
    }
    assert groups[..|groups|] == groups;
  }

  /**
    applyEvidence: the list grows by, and says, exactly what the evidence states; it
    keeps every candidate at its place, no pair comes to be there twice, and no kind of
    evidence counts twice for a pair.
   */
  method ApplyEvidence(candidates: seq<Candidate>, tables: Tables, evidence: seq<JoinEvidence>)
    returns (out: seq<Candidate>, groups: seq<EvidenceGroup>)
    ensures AreGroups(groups, evidence, GroupKey()) && multiset(AllJoins(groups)) == multiset(evidence)
    ensures Absorbs(PairRender(), BornIn(tables), candidates, out, AllFacts(PairRender(), tables, groups))
  {
    if evidence == [] {
      AbsorbsNothing(PairRender(), BornIn(tables), candidates);
      return candidates, [];
    }
    var found := GroupEvidence(evidence, GroupKey());
    var res := new Result(PairRender(), candidates);
    ApplyGroups(res, tables, found);
    return res.candidates, found;
  }
}
