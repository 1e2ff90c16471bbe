/**
  The query of internal/validate/query.go as relational semantics: the scanned
  key tuples, their GROUP BY, the marking of each group against the parent, and
  the seven aggregates over the marked groups.

  The spec is per row: what each number counts in the child table itself.
 */
module ValidationQuery {
  import opened Relational
  import opened Counting

  /** The numbers of a validation. */
  datatype Counts = Counts(
    sampledRows: nat,
    partialNullRows: nat,
    distinctVals: nat,
    notNullRows: nat,
    orphanVals: nat,
    orphanRows: nat,
    maxRowsPerValue: nat)

  /** num_nulls(...) BETWEEN 1 AND arity - 1. */
  function NullsBetween(arity: nat): Row -> bool { r => 1 <= NumNulls(r) <= arity - 1 }

  function Anything(): Row -> bool { r => true }

  /** NOT matched, for the groups of child_vals. */
  function Unmatched(parents: seq<Row>, arity: nat): Row -> bool
    requires forall p | p in parents :: |p| == arity
  {
    r => |r| == arity && !Exists(parents, r)
  }

  /** SELECT v1, ..., vn, count(*) FROM scanned WHERE num_nulls(...) = 0 GROUP BY 1, ..., n. */
  ghost predicate IsChildVals(scanned: seq<Row>, groups: seq<Group<Row>>) {
    IsGrouping(Filter(scanned, IsNullFree()), groups)
  }

  function ChildVals(scanned: seq<Row>): seq<Group<Row>> {
    GroupBy(Filter(scanned, IsNullFree()))
  }

  /** The final SELECT, over the groups the server answered. */
  function Aggregate(scanned: seq<Row>, parents: seq<Row>, groups: seq<Group<Row>>, arity: nat): Counts
    requires forall p | p in parents :: |p| == arity
  {
    Counts(
      |scanned|,
      CountIf(scanned, NullsBetween(arity)),
      |groups|,
      SumIf(groups, Anything()),
      CountIf(Keys(groups), Unmatched(parents, arity)),
      SumIf(groups, Unmatched(parents, arity)),
      MaxN(groups))
  }

  // --- the spec, row by row ------------------------------------------------------

  /** A row with a null in part of the key and a value in the rest. */
  ghost predicate PartlyNull(r: Row) {
    (exists i :: 0 <= i < |r| && r[i].Null?) && (exists i :: 0 <= i < |r| && r[i].Val?)
  }

  ghost function IsPartlyNull(): Row -> bool { r => PartlyNull(r) }

  function IsOrphan(parents: seq<Row>): Row -> bool { r => Orphan(parents, r) }

  lemma {:induction false} NumNullsAll(r: Row)
    ensures NumNulls(r) == |r| <==> forall i | 0 <= i < |r| :: r[i].Null?
  {
    if r != [] {
      NumNullsAll(r[1..]);
      assert forall i | 1 <= i < |r| :: r[i] == r[1..][i - 1];
      assert forall i | 0 <= i < |r| - 1 :: r[1..][i] == r[i + 1];
    }
  }

  lemma PartialByCount(r: Row)
    ensures PartlyNull(r) <==> 1 <= NumNulls(r) <= |r| - 1
  {
    NumNullsAll(r);
  }

  lemma UnmatchedIsOrphan(parents: seq<Row>, r: Row)
    requires NullFree(r) && forall p | p in parents :: |p| == |r|
    ensures Exists(parents, r) <==> !Orphan(parents, r)
  {
    ExistsIsMembership(parents, r);
  }

  lemma CountPartial(scanned: seq<Row>, arity: nat)
    requires forall r | r in scanned :: |r| == arity
    ensures CountIf(scanned, NullsBetween(arity)) == CountIf(scanned, IsPartlyNull())
  {
    forall r | r in scanned ensures NullsBetween(arity)(r) == IsPartlyNull()(r) {
      PartialByCount(r);
    }
    CountSame(scanned, NullsBetween(arity), IsPartlyNull());
  }

  lemma CountNotNull(scanned: seq<Row>, groups: seq<Group<Row>>)
    requires IsChildVals(scanned, groups)
    ensures SumIf(groups, Anything()) == CountIf(scanned, IsNullFree())
    ensures |groups| == |Such(scanned, IsNullFree())|
  {
    var checked := Filter(scanned, IsNullFree());
    GroupSum(checked, groups, Anything());
    CountFiltered(scanned, IsNullFree(), Anything(), IsNullFree());
    GroupCount(checked, groups);
    assert SetOf(checked) == Such(scanned, IsNullFree());
  }

  lemma CountOrphans(scanned: seq<Row>, parents: seq<Row>, groups: seq<Group<Row>>, arity: nat)
    requires forall r | r in scanned :: |r| == arity
    requires forall p | p in parents :: |p| == arity
    requires IsChildVals(scanned, groups)
    ensures SumIf(groups, Unmatched(parents, arity)) == CountIf(scanned, IsOrphan(parents))
    ensures CountIf(Keys(groups), Unmatched(parents, arity)) == |Such(scanned, IsOrphan(parents))|
  {
    var checked := Filter(scanned, IsNullFree());
    forall r | r in checked ensures Unmatched(parents, arity)(r) == IsOrphan(parents)(r) {
      UnmatchedIsOrphan(parents, r);
    }
    GroupSum(checked, groups, Unmatched(parents, arity));
    CountSame(checked, Unmatched(parents, arity), IsOrphan(parents));
    CountFiltered(scanned, IsNullFree(), IsOrphan(parents), IsOrphan(parents));
    GroupCountIf(checked, groups, Unmatched(parents, arity));
    assert Such(checked, Unmatched(parents, arity)) == Such(scanned, IsOrphan(parents));
  }

  /**
    The grouped query refines the per-row spec, whatever order the server answers
    the groups in, at every arity.
   */
  lemma QueryCountsRows(scanned: seq<Row>, parents: seq<Row>, groups: seq<Group<Row>>, arity: nat)
    requires forall r | r in scanned :: |r| == arity
    requires forall p | p in parents :: |p| == arity
    requires IsChildVals(scanned, groups)
    ensures var c := Aggregate(scanned, parents, groups, arity);
      && c.sampledRows == |scanned|
      && c.partialNullRows == CountIf(scanned, IsPartlyNull())
      && c.notNullRows == CountIf(scanned, IsNullFree())
      && c.orphanRows == CountIf(scanned, IsOrphan(parents))
      && c.distinctVals == |Such(scanned, IsNullFree())|
      && c.orphanVals == |Such(scanned, IsOrphan(parents))|
  {
    CountPartial(scanned, arity);
    CountNotNull(scanned, groups);
    CountOrphans(scanned, parents, groups, arity);
  }

  lemma LargestMultiplicity(scanned: seq<Row>, groups: seq<Group<Row>>)
    requires IsChildVals(scanned, groups)
    ensures forall r | r in scanned && NullFree(r) :: Multiplicity(scanned, r) <= MaxN(groups)
    ensures groups != [] ==> exists r :: r in scanned && NullFree(r) && Multiplicity(scanned, r) == MaxN(groups)
  {
    var checked := Filter(scanned, IsNullFree());
    forall r | r in scanned && NullFree(r)
      ensures r in checked && Multiplicity(checked, r) == Multiplicity(scanned, r)
    {
      MultiplicityFiltered(scanned, IsNullFree(), r);
    }
    forall r | r in scanned && NullFree(r)
      ensures Multiplicity(scanned, r) <= MaxN(groups)
    {
      assert r in Keys(groups);
      var i :| 0 <= i < |groups| && Keys(groups)[i] == r;
      assert groups[i] in groups;
    }
    if groups != [] {
      var i := MaxAttained(groups);
      assert groups[i] in groups;
      assert groups[i].key in checked;
    }
  }

  /** max_rows_per_value is the largest multiplicity, and with distinct_vals it bounds not_null_rows. */
  lemma MaxRowsPerValue(scanned: seq<Row>, parents: seq<Row>, groups: seq<Group<Row>>, arity: nat)
    requires forall p | p in parents :: |p| == arity
    requires IsChildVals(scanned, groups)
    ensures var c := Aggregate(scanned, parents, groups, arity);
      && c.notNullRows <= c.maxRowsPerValue * c.distinctVals
      && (forall r | r in scanned && NullFree(r) :: Multiplicity(scanned, r) <= c.maxRowsPerValue)
      && (c.distinctVals > 0 ==>
            exists r :: r in scanned && NullFree(r) && Multiplicity(scanned, r) == c.maxRowsPerValue)
  {
    MaxCovers(groups, MaxN(groups), Anything());
    LargestMultiplicity(scanned, groups);
  }

  /** No orphan rows exactly when no orphan values, though neither number implies the other's size. */
  lemma OrphanCountsAgree(scanned: seq<Row>, parents: seq<Row>, groups: seq<Group<Row>>, arity: nat)
    requires forall r | r in scanned :: |r| == arity
    requires forall p | p in parents :: |p| == arity
    requires IsChildVals(scanned, groups)
    ensures var c := Aggregate(scanned, parents, groups, arity);
      && c.orphanVals <= c.orphanRows <= c.notNullRows
      && (c.orphanRows == 0 <==> c.orphanVals == 0)
      && (c.orphanRows == 0 <==> forall r | r in scanned :: !Orphan(parents, r))
  {
    QueryCountsRows(scanned, parents, groups, arity);
    CountZero(scanned, IsOrphan(parents));
    var orphans := Filter(scanned, IsOrphan(parents));
    SetSize(orphans);
    assert SetOf(orphans) == Such(scanned, IsOrphan(parents));
    CountFiltered(scanned, IsOrphan(parents), Anything(), IsOrphan(parents));
    CountAll(orphans);
    CountImplies(scanned, IsOrphan(parents), IsNullFree());
    if orphans == [] {
      assert Such(scanned, IsOrphan(parents)) == {};
    } else {
      assert orphans[0] in Such(scanned, IsOrphan(parents));
      assert orphans[0] in orphans;
    }
  }

  lemma {:induction false} CountAll(s: seq<Row>)
    ensures CountIf(s, Anything()) == |s|
  {
    if s != [] { CountAll(s[1..]); }
  }

  lemma {:induction false} CountImplies(s: seq<Row>, p: Row -> bool, q: Row -> bool)
    requires forall r | r in s :: p(r) ==> q(r)
    ensures CountIf(s, p) <= CountIf(s, q)
  {
    if s != [] {
      assert s == [s[0]] + s[1..];
      CountImplies(s[1..], p, q);
    }
  }

  /** A single-column key has no partly null rows. */
  lemma ArityOneHasNoPartialNulls(scanned: seq<Row>, parents: seq<Row>, groups: seq<Group<Row>>)
    requires forall p | p in parents :: |p| == 1
    ensures Aggregate(scanned, parents, groups, 1).partialNullRows == 0
  {
    CountZero(scanned, NullsBetween(1));
  }

  // --- a pair of tables --------------------------------------------------------------

  /** What the query answers on a pair, given which rows of the child were read. */
  function Measure(read: Table, p: Pair): Counts
    requires WellFormedPair(p) && WellFormed(read) && read.width == p.child.width
  {
    var scanned := Select(read, p.childKey);
    Aggregate(scanned, Select(p.parent, p.parentKey), ChildVals(scanned), |p.childKey|)
  }

  /** Every order of the groups gives the same numbers. */
  lemma OrderDoesNotMatter(scanned: seq<Row>, parents: seq<Row>, g1: seq<Group<Row>>, g2: seq<Group<Row>>, arity: nat)
    requires forall r | r in scanned :: |r| == arity
    requires forall p | p in parents :: |p| == arity
    requires IsChildVals(scanned, g1) && IsChildVals(scanned, g2)
    ensures Aggregate(scanned, parents, g1, arity) == Aggregate(scanned, parents, g2, arity)
  {
    QueryCountsRows(scanned, parents, g1, arity);
    QueryCountsRows(scanned, parents, g2, arity);
    MaxRowsPerValue(scanned, parents, g1, arity);
    MaxRowsPerValue(scanned, parents, g2, arity);
  }

  /** On a full read, no orphans is the MATCH SIMPLE constraint. */
  lemma NoOrphansIsMatchSimple(p: Pair)
    requires WellFormedPair(p)
    ensures Measure(p.child, p).orphanRows == 0 <==> MatchSimple(p)
  {
    var scanned, parents := Select(p.child, p.childKey), Select(p.parent, p.parentKey);
    GroupByGroups(Filter(scanned, IsNullFree()));
    OrphanCountsAgree(scanned, parents, ChildVals(scanned), |p.childKey|);
    MatchSimpleByProjection(p);
  }

  // --- sampling ------------------------------------------------------------------------

  /** A sample: some of the rows, each at most as often as the table has it. */
  ghost predicate SampleOf(sample: Table, t: Table) {
    sample.width == t.width && multiset(sample.rows) <= multiset(t.rows)
  }

  /** The table without its row i. */
  function Dropped(t: Table, i: nat): Table
    requires i < |t.rows|
  {
    t.(rows := t.rows[..i] + t.rows[i + 1..])
  }

  lemma SelectDrop(t: Table, k: Key, i: nat)
    requires WellFormed(t) && KeyOf(k, t) && i < |t.rows|
    ensures WellFormed(Dropped(t, i))
    ensures multiset(Select(t, k)) == multiset(Select(Dropped(t, i), k)) + multiset{Project(t.rows[i], k)}
  {
    SelectParts(t, k, i);
    MultisetDrop(Select(t, k), i);
  }

  lemma SelectParts(t: Table, k: Key, i: nat)
    requires WellFormed(t) && KeyOf(k, t) && i < |t.rows| && WellFormed(Dropped(t, i))
    ensures Select(t, k)[..i] + Select(t, k)[i + 1..] == Select(Dropped(t, i), k)
  {
  }

  /** The first row of a sample, and what is left of both without it. */
  lemma SampleStep(sample: Table, t: Table) returns (i: nat)
    requires SampleOf(sample, t) && sample.rows != []
    ensures i < |t.rows| && t.rows[i] == sample.rows[0]
    ensures SampleOf(Dropped(sample, 0), Dropped(t, i))
  {
    var x := sample.rows[0];
    assert x in multiset(sample.rows);
    i :| 0 <= i < |t.rows| && t.rows[i] == x;
    MultisetDrop(t.rows, i);
    MultisetDrop(sample.rows, 0);
    MultisetCancel(multiset(Dropped(sample, 0).rows), multiset(Dropped(t, i).rows), x);
  }

  lemma {:induction false} SelectSample(sample: Table, t: Table, k: Key)
    requires WellFormed(t) && KeyOf(k, t) && SampleOf(sample, t) && WellFormed(sample)
    ensures multiset(Select(sample, k)) <= multiset(Select(t, k))
    decreases |sample.rows|
  {
    if sample.rows == [] {
      assert Select(sample, k) == [];
    } else {
      var i := SampleStep(sample, t);
      SelectDrop(t, k, i);
      SelectDrop(sample, k, 0);
      SelectSample(Dropped(sample, 0), Dropped(t, i), k);
      MultisetGrow(multiset(Select(Dropped(sample, 0), k)), multiset(Select(Dropped(t, i), k)), Project(t.rows[i], k));
    }
  }

  /** A sample never overstates: not the orphans, not their values, not what it looked at. */
  lemma SampleUnderstates(sample: Table, p: Pair)
    requires WellFormedPair(p) && WellFormed(sample) && SampleOf(sample, p.child)
    ensures var part, whole := Measure(sample, p), Measure(p.child, p);
      && part.orphanRows <= whole.orphanRows
      && part.orphanVals <= whole.orphanVals
      && part.notNullRows <= whole.notNullRows
      && part.distinctVals <= whole.distinctVals
      && part.partialNullRows <= whole.partialNullRows
  {
    var some, all := Select(sample, p.childKey), Select(p.child, p.childKey);
    var parents := Select(p.parent, p.parentKey);
    SelectSample(sample, p.child, p.childKey);
    GroupByGroups(Filter(some, IsNullFree()));
    GroupByGroups(Filter(all, IsNullFree()));
    QueryCountsRows(some, parents, ChildVals(some), |p.childKey|);
    QueryCountsRows(all, parents, ChildVals(all), |p.childKey|);
    CountMonotone(some, all, IsOrphan(parents));
    CountMonotone(some, all, IsNullFree());
    CountMonotone(some, all, IsPartlyNull());
    SubMultisetElements(some, all);
    SubsetSize(Such(some, IsOrphan(parents)), Such(all, IsOrphan(parents)));
    SubsetSize(Such(some, IsNullFree()), Such(all, IsNullFree()));
  }
}
