/**
  When a rejection by the prefilter is right: it compares estimates of columns and
  rows, and claims something about key tuples.

  The comment at internal/stats/stats.go:199-204 says that a tuple is at least as
  varied as its most varied column. That holds without partly null rows, and
  `SoundExactly` says for which child tables the rejection can be trusted.
 */
module PrefilterSoundness {
  import opened Text
  import opened Counting
  import opened Relational
  import opened ValidationQuery
  import opened Prefilter
  import Model
  import Verdict

  function NotNullAt(i: nat): Row -> bool { (r: Row) => i < |r| && r[i] != Null }

  /** The different non-null values of column i of the key. */
  ghost function ColumnValues(scanned: seq<Row>, i: nat): set<Cell>
    requires forall r | r in scanned :: i < |r|
  {
    set r | r in scanned && NotNullAt(i)(r) :: r[i]
  }

  ghost predicate NoPartialNulls(scanned: seq<Row>) {
    forall r | r in scanned :: !PartlyNull(r)
  }

  /** An image is no larger than what it is an image of. */
  lemma {:induction false} ColumnOfTuples(tuples: set<Row>, i: nat)
    requires forall r | r in tuples :: i < |r|
    ensures |set r | r in tuples :: r[i]| <= |tuples|
  {
    var image := set r | r in tuples :: r[i];
    if tuples == {} {
      assert image == {};
    } else {
      var x :| x in tuples;
      var rest := tuples - {x};
      ColumnOfTuples(rest, i);
      var image' := set r | r in rest :: r[i];
      assert image == image' + {x[i]};
    }
  }

  /** Without partly null rows, a tuple is at least as varied as any of its columns. */
  lemma TuplesVaryMost(scanned: seq<Row>, i: nat)
    requires forall r | r in scanned :: i < |r|
    requires NoPartialNulls(scanned)
    ensures |ColumnValues(scanned, i)| <= |Such(scanned, IsNullFree())|
  {
    var tuples := Such(scanned, IsNullFree());
    forall r | r in scanned && NotNullAt(i)(r) ensures r in tuples {
      assert !PartlyNull(r);
    }
    ColumnOfTuples(tuples, i);
    assert ColumnValues(scanned, i) == set r | r in tuples :: r[i];
  }

  /** A parent that covers every tuple has at least as many rows as there are tuples. */
  lemma TuplesFitParents(scanned: seq<Row>, parents: seq<Row>)
    requires forall r | r in scanned :: !Orphan(parents, r)
    ensures |Such(scanned, IsNullFree())| <= |parents|
  {
    SubsetSize(Such(scanned, IsNullFree()), SetOf(parents));
    SetSize(parents);
  }

  // --- estimates that err on the safe side ----------------------------------------------

  /** No column is said to vary more than it does, and the parent is not said to be smaller than it is. */
  ghost predicate EstimatesAreSafe(c: Model.Candidate, rows: map<string, int>,
                                   columns: map<Model.ColumnRef, ColumnStats>, p: Pair)
    requires WellFormedPair(p)
  {
    && |c.child.columns| == |p.childKey|
    && (c.parent.TableRef() in rows ==> rows[c.parent.TableRef()] >= |p.parent.rows|)
    && (c.child.TableRef() in rows ==>
          forall i | 0 <= i < |p.childKey| ::
            var n := ColumnEstimate(columns, c.child.ColumnRefs()[i], rows[c.child.TableRef()]);
            n.Some? ==> n.value <= |ColumnValues(Select(p.child, p.childKey), i)|)
  }

  /** Behind a rejection is a column that varies more than the parent has rows. */
  lemma RejectingColumn(c: Model.Candidate, rows: map<string, int>, columns: map<Model.ColumnRef, ColumnStats>,
                        factor: real, r: (Model.Candidate, Outcome), p: Pair) returns (i: nat)
    requires WellFormedPair(p) && EstimatesAreSafe(c, rows, columns, p)
    requires IsEvaluated(c, rows, columns, factor, r) && r.1 == Reject
    ensures i < |p.childKey| && |ColumnValues(Select(p.child, p.childKey), i)| > |p.parent.rows|
  {
    var refs := c.child.ColumnRefs();
    var distinct: Option<int> :|
      && (c.child.TableRef() in rows ==> IsFloor(refs, rows[c.child.TableRef()], columns, distinct))
      && (c.child.TableRef() !in rows ==> distinct == None)
      && r == Evaluated(c, distinct, RowEstimate(rows, c.parent.TableRef()), RangeDisjoint(c, columns), factor);
    assert distinct.Some? && distinct.value > |p.parent.rows|;
    var ref :| ref in refs && ColumnEstimate(columns, ref, rows[c.child.TableRef()]) == distinct;
    i :| 0 <= i < |refs| && refs[i] == ref;
  }

  /** Where a column varies more than the parent has rows, and no row is exempt in part, some row has no parent. */
  lemma OverfullHasOrphan(p: Pair, i: nat)
    requires WellFormedPair(p) && i < |p.childKey|
    requires NoPartialNulls(Select(p.child, p.childKey))
    requires |ColumnValues(Select(p.child, p.childKey), i)| > |p.parent.rows|
    ensures !MatchSimple(p)
  {
    var scanned, parents := Select(p.child, p.childKey), Select(p.parent, p.parentKey);
    TuplesVaryMost(scanned, i);
    MatchSimpleByProjection(p);
    if MatchSimple(p) {
      TuplesFitParents(scanned, parents);
    }
  }

  /**
    Every candidate the prefilter rejects, whatever the factor, has an orphan: a full
    validation could not confirm it.
   */
  lemma RejectedHasOrphan(c: Model.Candidate, rows: map<string, int>, columns: map<Model.ColumnRef, ColumnStats>,
                          factor: real, r: (Model.Candidate, Outcome), p: Pair, opts: Verdict.Options)
    requires WellFormedPair(p) && EstimatesAreSafe(c, rows, columns, p)
    requires NoPartialNulls(Select(p.child, p.childKey))
    requires IsEvaluated(c, rows, columns, factor, r) && r.1 == Reject
    ensures !MatchSimple(p)
    ensures Verdict.Decide(Verdict.Validate(p.child, Verdict.Full, p), opts) != Model.Confirmed
  {
    var i := RejectingColumn(c, rows, columns, factor, r, p);
    OverfullHasOrphan(p, i);
    Verdict.ConfirmedExactly(p.child, Verdict.Full, p, opts);
  }

  lemma ArityOneHasNoneNull(p: Pair)
    requires WellFormedPair(p) && |p.childKey| == 1
    ensures NoPartialNulls(Select(p.child, p.childKey))
  {
  }

  // --- exactly when ----------------------------------------------------------------------

  /** With exact statistics, what the floor is: the distinct count of the most varied column. */
  ghost predicate MostVaried(scanned: seq<Row>, arity: nat, m: nat)
    requires forall r | r in scanned :: |r| == arity
  {
    && (forall i | 0 <= i < arity :: |ColumnValues(scanned, i)| <= m)
    && (exists i :: 0 <= i < arity && |ColumnValues(scanned, i)| == m)
  }

  /** With exact statistics, no parent that covers this child is ever rejected for it. */
  ghost predicate Trustworthy(child: Table, key: Key, m: nat, factor: real)
    requires WellFormed(child) && KeyOf(key, child)
  {
    forall parent, parentKey {:trigger WellFormedPair(Pair(child, key, parent, parentKey))} ::
      && WellFormedPair(Pair(child, key, parent, parentKey))
      && Rejects(m, |parent.rows|, factor)
      ==> !MatchSimple(Pair(child, key, parent, parentKey))
  }

  /** A parent holding each tuple once: the smallest that covers the child. */
  function SmallestParent(scanned: seq<Row>, arity: nat): Table {
    Table(arity, Keys(ChildVals(scanned)))
  }

  function Positions(arity: nat): Key { seq(arity, i => i) }

  lemma SmallestParentCovers(child: Table, key: Key)
    requires WellFormed(child) && KeyOf(key, child)
    ensures var scanned := Select(child, key);
            var p := Pair(child, key, SmallestParent(scanned, |key|), Positions(|key|));
      WellFormedPair(p) && MatchSimple(p) && |p.parent.rows| == |Such(scanned, IsNullFree())|
  {
    var scanned := Select(child, key);
    var checked := Filter(scanned, IsNullFree());
    var groups := ChildVals(scanned);
    var parent, parentKey := SmallestParent(scanned, |key|), Positions(|key|);
    var p := Pair(child, key, parent, parentKey);
    GroupByGroups(checked);
    KeysBelong(checked, groups);
    forall r | r in parent.rows ensures |r| == |key| {
      assert r in SetOf(Keys(groups));
      assert r in checked;
    }
    var ps := Select(parent, parentKey);
    forall i | 0 <= i < |ps| ensures ps[i] == parent.rows[i] {
      assert ps[i] == Project(parent.rows[i], parentKey);
    }
    assert ps == parent.rows;
    MatchSimpleByProjection(p);
    GroupCount(checked, groups);
    assert SetOf(checked) == Such(scanned, IsNullFree());
  }

  /** m stays within d, or within the factor times d. */
  predicate Within(m: nat, d: nat, factor: real) {
    m <= d || m as real <= factor * d as real
  }

  lemma Scale(factor: real, x: real, y: real)
    requires factor > 0.0 && x <= y
    ensures factor * x <= factor * y
  {
    var z := y - x;
    assert z >= 0.0;
    if z == 0.0 {
    } else {
      assert factor * z > 0.0;
      assert y == x + z;
      assert factor * y == factor * x + factor * z;
    }
  }

  lemma WithinIsKept(m: nat, d: nat, n: nat, factor: real)
    requires factor > 0.0 && d <= n && Within(m, d, factor)
    ensures !Rejects(m, n, factor)
  {
    Scale(factor, d as real, n as real);
  }

  lemma BeyondIsRejected(m: nat, d: nat, factor: real)
    requires !Within(m, d, factor)
    ensures Rejects(m, d, factor)
  {
  }

  lemma CoveringParentIsKept(p: Pair, m: nat, factor: real)
    requires WellFormedPair(p) && MatchSimple(p) && factor > 0.0
    requires Within(m, |Such(Select(p.child, p.childKey), IsNullFree())|, factor)
    ensures !Rejects(m, |p.parent.rows|, factor)
  {
    var scanned := Select(p.child, p.childKey);
    MatchSimpleByProjection(p);
    TuplesFitParents(scanned, Select(p.parent, p.parentKey));
    WithinIsKept(m, |Such(scanned, IsNullFree())|, |p.parent.rows|, factor);
  }

  lemma SmallestParentIsRejected(child: Table, key: Key, m: nat, factor: real)
    requires WellFormed(child) && KeyOf(key, child)
    requires !Within(m, |Such(Select(child, key), IsNullFree())|, factor)
    ensures !Trustworthy(child, key, m, factor)
  {
    SmallestParentCovers(child, key);
    var p := Pair(child, key, SmallestParent(Select(child, key), |key|), Positions(|key|));
    BeyondIsRejected(m, |p.parent.rows|, factor);
    assert WellFormedPair(p) && MatchSimple(p);
  }

  /**
    For which child tables a rejection can be trusted: those whose most varied column
    stays within the number of tuples, or within the factor times that number.
   */
  lemma SoundExactly(child: Table, key: Key, m: nat, factor: real)
    requires WellFormed(child) && KeyOf(key, child) && factor > 0.0
    requires MostVaried(Select(child, key), |key|, m)
    ensures Trustworthy(child, key, m, factor)
       <==> Within(m, |Such(Select(child, key), IsNullFree())|, factor)
  {
    if Within(m, |Such(Select(child, key), IsNullFree())|, factor) {
      forall parent, parentKey | WellFormedPair(Pair(child, key, parent, parentKey))
        && Rejects(m, |parent.rows|, factor)
        ensures !MatchSimple(Pair(child, key, parent, parentKey))
      {
        if MatchSimple(Pair(child, key, parent, parentKey)) {
          CoveringParentIsKept(Pair(child, key, parent, parentKey), m, factor);
        }
      }
    } else {
      SmallestParentIsRejected(child, key, m, factor);
    }
  }

  /** The claim of the comment, exactly: no partly null rows is enough for it. */
  lemma NoPartialNullsIsEnough(child: Table, key: Key, m: nat, factor: real)
    requires WellFormed(child) && KeyOf(key, child) && factor > 0.0
    requires MostVaried(Select(child, key), |key|, m)
    requires NoPartialNulls(Select(child, key))
    ensures Trustworthy(child, key, m, factor)
  {
    var scanned := Select(child, key);
    var i :| 0 <= i < |key| && |ColumnValues(scanned, i)| == m;
    TuplesVaryMost(scanned, i);
    SoundExactly(child, key, m, factor);
  }

  // --- with exact statistics, rejection by the numbers of the tables ----------------------------

  /** Statistics say what the tables hold: how many rows, and how many different values per column of the child. */
  ghost predicate StatsAreExact(c: Model.Candidate, rows: map<string, int>,
                                columns: map<Model.ColumnRef, ColumnStats>, p: Pair)
    requires WellFormedPair(p)
  {
    && |c.child.columns| == |p.childKey|
    && c.child.TableRef() in rows && rows[c.child.TableRef()] == |p.child.rows|
    && c.parent.TableRef() in rows && rows[c.parent.TableRef()] == |p.parent.rows|
    && forall i | 0 <= i < |p.childKey| ::
         RecordsColumn(columns, c.child.ColumnRefs()[i], |ColumnValues(Select(p.child, p.childKey), i)|, |p.child.rows|)
  }

  ghost predicate RecordsColumn(columns: map<Model.ColumnRef, ColumnStats>, ref: Model.ColumnRef, d: nat, n: nat) {
    if d > 0 then ref in columns && Records(columns[ref], d, n)
    else ref !in columns || !columns[ref].present || columns[ref].nDistinct == 0.0
  }

  lemma ColumnIsEstimated(columns: map<Model.ColumnRef, ColumnStats>, ref: Model.ColumnRef, d: nat, n: nat)
    requires RecordsColumn(columns, ref, d, n)
    ensures ColumnEstimate(columns, ref, n) == if d > 0 then Some(d) else None
  {
    if d > 0 { RecordedIsEstimated(columns[ref], d, n); }
  }

  /** A floor over known numbers of values is the largest of them, unless all are zero. */
  lemma FloorOf(refs: seq<Model.ColumnRef>, n: int, columns: map<Model.ColumnRef, ColumnStats>, best: Option<int>,
                d: nat -> nat, m: nat)
    requires IsFloor(refs, n, columns, best)
    requires forall i | 0 <= i < |refs| :: ColumnEstimate(columns, refs[i], n) == if d(i) > 0 then Some(d(i)) else None
    requires (forall i | 0 <= i < |refs| :: d(i) <= m) && exists i :: 0 <= i < |refs| && d(i) == m
    ensures best == if m > 0 then Some(m) else None
  {
    var i :| 0 <= i < |refs| && d(i) == m;
    assert refs[i] in refs;
    if best.Some? {
      var ref :| ref in refs && ColumnEstimate(columns, ref, n) == best;
      var j :| 0 <= j < |refs| && refs[j] == ref;
    }
  }

  ghost function Variety(scanned: seq<Row>, arity: nat): nat -> nat
    requires forall r | r in scanned :: |r| == arity
  {
    (i: nat) => if i < arity then |ColumnValues(scanned, i)| else 0
  }

  lemma VarietyIsMost(scanned: seq<Row>, arity: nat, m: nat)
    requires (forall r | r in scanned :: |r| == arity) && MostVaried(scanned, arity, m)
    ensures forall i | 0 <= i < arity :: Variety(scanned, arity)(i) <= m
    ensures exists i :: 0 <= i < arity && Variety(scanned, arity)(i) == m
  {
    var i :| 0 <= i < arity && |ColumnValues(scanned, i)| == m;
    assert Variety(scanned, arity)(i) == m;
  }

  lemma FloorIsMostVaried(c: Model.Candidate, rows: map<string, int>, columns: map<Model.ColumnRef, ColumnStats>,
                          p: Pair, m: nat, best: Option<int>)
    requires WellFormedPair(p) && StatsAreExact(c, rows, columns, p)
    requires MostVaried(Select(p.child, p.childKey), |p.childKey|, m)
    requires IsFloor(c.child.ColumnRefs(), |p.child.rows|, columns, best)
    ensures best == if m > 0 then Some(m) else None
  {
    var refs, n, d := c.child.ColumnRefs(), |p.child.rows|, Variety(Select(p.child, p.childKey), |p.childKey|);
    forall i | 0 <= i < |refs| ensures ColumnEstimate(columns, refs[i], n) == if d(i) > 0 then Some(d(i)) else None {
      ColumnIsEstimated(columns, refs[i], d(i), n);
    }
    VarietyIsMost(Select(p.child, p.childKey), |p.childKey|, m);
    FloorOf(refs, n, columns, best, d, m);
  }

  /**
    With exact statistics, as counts or as shares: without any value there is no opinion, and
    a candidate is rejected exactly if the most varied column of the child exceeds the
    parent's rows, and the factor times them.
   */
  lemma RejectsByTheTables(c: Model.Candidate, rows: map<string, int>, columns: map<Model.ColumnRef, ColumnStats>,
                           factor: real, r: (Model.Candidate, Outcome), p: Pair, m: nat)
    requires WellFormedPair(p) && StatsAreExact(c, rows, columns, p)
    requires MostVaried(Select(p.child, p.childKey), |p.childKey|, m)
    requires IsEvaluated(c, rows, columns, factor, r)
    ensures r.1 == NoStats <==> m == 0
    ensures r.1 == Reject <==> m > |p.parent.rows| && m as real > factor * |p.parent.rows| as real
  {
    var best: Option<int> :|
      && IsFloor(c.child.ColumnRefs(), |p.child.rows|, columns, best)
      && r == Evaluated(c, best, RowEstimate(rows, c.parent.TableRef()), RangeDisjoint(c, columns), factor);
    FloorIsMostVaried(c, rows, columns, p, m, best);
  }

  /** Bounds that hold every value of a column. */
  ghost predicate Bounded(scanned: seq<Row>, i: nat, b: Bounds) {
    forall r: Row | r in scanned && i < |r| && r[i].Val? :: IsWithin(r[i].v as real, b)
  }

  /** Where bounds are disjoint, no tuple of the child has a parent. */
  lemma DisjointIsOrphaned(c: Model.Candidate, columns: map<Model.ColumnRef, ColumnStats>, p: Pair, i: nat, r: Row)
    requires WellFormedPair(p) && i < |p.childKey| == |c.child.columns| == |c.parent.columns|
    requires DisjointAt(c, columns, i)
    requires Bounded(Select(p.child, p.childKey), i, columns[c.child.ColumnRefs()[i]].bounds.value)
    requires Bounded(Select(p.parent, p.parentKey), i, columns[c.parent.ColumnRefs()[i]].bounds.value)
    requires r in Select(p.child, p.childKey) && NullFree(r)
    ensures Orphan(Select(p.parent, p.parentKey), r)
  {
    forall q: Row | q in Select(p.parent, p.parentKey) ensures q != r {
      assert q[i].Val? ==> IsWithin(q[i].v as real, columns[c.parent.ColumnRefs()[i]].bounds.value);
      assert r[i].Val? && IsWithin(r[i].v as real, columns[c.child.ColumnRefs()[i]].bounds.value);
    }
  }

  // --- a rejection that is wrong ------------------------------------------------------------

  const MISLED_CHILD := Table(2, [[Val(1), Null]])

  /** A child with one row, half null; a parent without rows. Nothing is violated. */
  const MISLED := Pair(MISLED_CHILD, [0, 1], Table(2, []), [0, 1])

  /** The candidate about them. */
  function MisledCandidate(): Model.Candidate {
    Model.Candidate(Model.KeyRef("s", "child", ["a", "b"]), Model.KeyRef("s", "parent", ["a", "b"]), [], 0.0, false,
                    Model.Unvalidated)
  }

  const MISLED_ROWS := map["s.child" := 1, "s.parent" := 0]

  const MISLED_COLUMNS := map[Model.ColumnRef("s", "child", "a") := ColumnStats(true, 1.0, None)]

  lemma MisledHolds()
    ensures WellFormedPair(MISLED) && MatchSimple(MISLED)
    ensures |ColumnValues(Select(MISLED_CHILD, [0, 1]), 0)| == 1
  {
    var row, key := [Val(1), Null], [0, 1];
    assert row[key[1]] == Null;
    var scanned := Select(MISLED_CHILD, key);
    assert scanned == [row] by {
      assert scanned[0] == Project(row, key) == row;
    }
    assert row in scanned;
    assert ColumnValues(scanned, 0) == {Val(1)};
  }

  lemma MisledColumns()
    ensures MisledCandidate().child.ColumnRefs()
         == [Model.ColumnRef("s", "child", "a"), Model.ColumnRef("s", "child", "b")]
    ensures ColumnEstimate(MISLED_COLUMNS, Model.ColumnRef("s", "child", "a"), 1) == Some(1)
    ensures ColumnEstimate(MISLED_COLUMNS, Model.ColumnRef("s", "child", "b"), 1) == None
  {
    assert "a"[0] != "b"[0];
    RecordedIsEstimated(ColumnStats(true, 1.0, None), 1, 1);
  }

  lemma MisledFloor()
    ensures MisledCandidate().child.TableRef() == "s.child" && MisledCandidate().parent.TableRef() == "s.parent"
    ensures IsFloor(MisledCandidate().child.ColumnRefs(), 1, MISLED_COLUMNS, Some(1))
  {
    MisledColumns();
  }

  lemma MisledIsRejected()
    ensures MISLED_ROWS["s.child"] == 1 && MISLED_ROWS["s.parent"] == 0
    ensures exists r ::
      IsEvaluated(MisledCandidate(), MISLED_ROWS, MISLED_COLUMNS, DEFAULT_REJECT_FACTOR, r) && r.1 == Reject
  {
    var c := MisledCandidate();
    assert "s.child"[2] != "s.parent"[2];
    MisledFloor();
    var distinct, parentRows := Some(1), RowEstimate(MISLED_ROWS, c.parent.TableRef());
    var r := Evaluated(c, distinct, parentRows, RangeDisjoint(c, MISLED_COLUMNS), DEFAULT_REJECT_FACTOR);
    assert IsEvaluated(c, MISLED_ROWS, MISLED_COLUMNS, DEFAULT_REJECT_FACTOR, r);
  }

  lemma MisledEstimates()
    ensures WellFormedPair(MISLED) && EstimatesAreSafe(MisledCandidate(), MISLED_ROWS, MISLED_COLUMNS, MISLED)
  {
    assert "s.child"[2] != "s.parent"[2];
    MisledHolds();
    MisledColumns();
    MisledFloor();
  }

  /**
    With partly null rows, evaluation on exact statistics rejects a candidate whose
    constraint holds: the row is exempt, and its one known value outnumbers the parent.
   */
  lemma PartialNullsMislead()
    ensures WellFormedPair(MISLED) && MatchSimple(MISLED)
    ensures EstimatesAreSafe(MisledCandidate(), MISLED_ROWS, MISLED_COLUMNS, MISLED)
    ensures exists r ::
      IsEvaluated(MisledCandidate(), MISLED_ROWS, MISLED_COLUMNS, DEFAULT_REJECT_FACTOR, r) && r.1 == Reject
  {
    MisledHolds();
    MisledEstimates();
    MisledIsRejected();
  }
}
