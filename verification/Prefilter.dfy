/**
  The statistical prefilter, internal/stats/stats.go: planner estimates kill a
  candidate before any row is read. Estimates are exact numbers where the source
  has floating point.
 */
module Prefilter {
  import opened Text
  import opened Model
  import opened Scoring

  const CARD_PENALTY := -0.40
  const RANGE_PENALTY := -0.30
  const DEFAULT_REJECT_FACTOR := 2.0

  function RejectFactor(option: real): (factor: real)
    ensures option > 0.0 ==> factor == option
    ensures option <= 0.0 ==> factor == 2.0
  {
    if option <= 0.0 then DEFAULT_REJECT_FACTOR else option
  }

  datatype Bounds = Bounds(low: real, high: real)

  /** nDistinct: positive is a count, negative a ratio of the row count, zero unknown. */
  datatype ColumnStats = ColumnStats(present: bool, nDistinct: real, bounds: Option<Bounds>)

  const NO_STATS := ColumnStats(false, 0.0, None)

  function Round(x: real): int { (x + 0.5).Floor }

  /** A negative ratio is a share of the rows. */
  function ShareOfRows(ratio: real, rows: int): real { -ratio * rows as real }

  function EstimatedDistinct(c: ColumnStats, rows: int): Option<int> {
    if !c.present || c.nDistinct == 0.0 then None
    else if c.nDistinct > 0.0 then Some(Round(c.nDistinct))
    else if rows <= 0 then None
    else Some(Round(ShareOfRows(c.nDistinct, rows)))
  }

  /** Statistics of a column with d different values in n rows: their count, or their share of the rows. */
  ghost predicate Records(st: ColumnStats, d: nat, n: int) {
    && st.present && d > 0
    && (st.nDistinct == d as real || (n > 0 && st.nDistinct == -(d as real / n as real)))
  }

  /** Either way of recording a count gives the count. */
  lemma RecordedIsEstimated(st: ColumnStats, d: nat, n: int)
    requires Records(st, d, n)
    ensures EstimatedDistinct(st, n) == Some(d)
  {
    if st.nDistinct != d as real {
      ShareOf(st.nDistinct, d, n);
    }
  }

  lemma ShareOf(x: real, d: nat, n: int)
    requires d > 0 && n > 0 && x == -(d as real / n as real)
    ensures x < 0.0 && ShareOfRows(x, n) == d as real
  {
    var share := d as real / n as real;
    assert share * n as real == d as real;
    assert share > 0.0;
    assert -x == share;
  }

  /** There is no estimate of a column that is absent, or said to be unknown, or said to be a share of no rows. */
  lemma UnestimatedExactly(st: ColumnStats, n: int)
    ensures EstimatedDistinct(st, n).None? <==> !st.present || st.nDistinct == 0.0 || (st.nDistinct < 0.0 && n <= 0)
  {
  }

  /** Any other estimate is the whole number nearest to the count, or to the share of the rows; halves go up. */
  lemma EstimateIsNearest(st: ColumnStats, n: int)
    requires EstimatedDistinct(st, n).Some?
    ensures var x := if st.nDistinct > 0.0 then st.nDistinct else -st.nDistinct * n as real;
      x - 0.5 < EstimatedDistinct(st, n).value as real <= x + 0.5
  {
  }

  /** Stats: what is known per column. */
  class Stats {
    var columns: map<ColumnRef, ColumnStats>

    constructor ()
      ensures columns == map[]
    {
      columns := map[];
    }

    function Get(ref: ColumnRef): ColumnStats
      reads this
    {
      if ref in columns then columns[ref] else NO_STATS
    }

    method Add(ref: ColumnRef, present: bool, nDistinct: real)
      modifies this
      ensures columns == old(columns)[ref := ColumnStats(present, nDistinct, old(Get(ref)).bounds)]
    {
      columns := columns[ref := Get(ref).(present := present, nDistinct := nDistinct)];
    }

    method AddBounds(ref: ColumnRef, low: real, high: real)
      modifies this
      ensures columns == old(columns)[ref := old(Get(ref)).(bounds := Some(Bounds(low, high)))]
    {
      columns := columns[ref := Get(ref).(bounds := Some(Bounds(low, high)))];
    }
  }

  // --- the floor under a key's distinct count ----------------------------------------

  function ColumnEstimate(columns: map<ColumnRef, ColumnStats>, ref: ColumnRef, rows: int): Option<int> {
    if ref in columns then EstimatedDistinct(columns[ref], rows) else None
  }

  /** best is the largest of the known estimates; none when no estimate is known. */
  ghost predicate IsFloor(refs: seq<ColumnRef>, rows: int, columns: map<ColumnRef, ColumnStats>, best: Option<int>) {
    && (best.None? <==> forall ref | ref in refs :: ColumnEstimate(columns, ref, rows).None?)
    && (best.Some? ==>
          && (exists ref :: ref in refs && ColumnEstimate(columns, ref, rows) == best)
          && (forall ref | ref in refs && ColumnEstimate(columns, ref, rows).Some? ::
                ColumnEstimate(columns, ref, rows).value <= best.value))
  }

  lemma FloorUnique(refs: seq<ColumnRef>, rows: int, columns: map<ColumnRef, ColumnStats>, a: Option<int>,
                    b: Option<int>)
    requires IsFloor(refs, rows, columns, a) && IsFloor(refs, rows, columns, b)
    ensures a == b
  {
  }

  lemma FloorExtends(refs: seq<ColumnRef>, ref: ColumnRef, rows: int, columns: map<ColumnRef, ColumnStats>,
                     best: Option<int>)
    requires IsFloor(refs, rows, columns, best)
    ensures var n := ColumnEstimate(columns, ref, rows);
      IsFloor(refs + [ref], rows, columns, if n.Some? && (best.None? || n.value > best.value) then n else best)
  {
    assert forall x :: x in refs + [ref] <==> x in refs || x == ref;
    if best.Some? {
      var x :| x in refs && ColumnEstimate(columns, x, rows) == best;
      assert x in refs + [ref];
    }
    assert ref in refs + [ref];
  }

  /** lowerBoundDistinct. */
  method LowerBoundDistinct(key: KeyRef, rows: int, st: Stats) returns (best: Option<int>)
    ensures IsFloor(key.ColumnRefs(), rows, st.columns, best)
  {
    best := None;
    var refs := key.ColumnRefs();
    for i := 0 to |refs|
      invariant IsFloor(refs[..i], rows, st.columns, best)
    {
      assert refs[..i + 1] == refs[..i] + [refs[i]];
      FloorExtends(refs[..i], refs[i], rows, st.columns, best);
      if refs[i] in st.columns {
        var n := EstimatedDistinct(st.columns[refs[i]], rows);
        if n.Some? && (best.None? || n.value > best.value) {
          best := n;
        }
      }
    }
    assert refs[..|refs|] == refs;
  }

  /** Position i of the key has endpoints that cannot overlap its counterpart. */
  predicate DisjointAt(c: Candidate, columns: map<ColumnRef, ColumnStats>, i: nat)
    requires i < |c.child.columns| && i < |c.parent.columns|
  {
    var child, parent := c.child.ColumnRefs()[i], c.parent.ColumnRefs()[i];
    && child in columns && columns[child].bounds.Some?
    && parent in columns && columns[parent].bounds.Some?
    && (columns[child].bounds.value.low > columns[parent].bounds.value.high ||
        columns[child].bounds.value.high < columns[parent].bounds.value.low)
  }

  /** Disjoint are bounds that no number lies within on both sides. */
  lemma DisjointExactly(c: Candidate, columns: map<ColumnRef, ColumnStats>, i: nat, child: Bounds, parent: Bounds)
    requires i < |c.child.columns| && i < |c.parent.columns|
    requires var a, b := c.child.ColumnRefs()[i], c.parent.ColumnRefs()[i];
             a in columns && columns[a].bounds == Some(child) && b in columns && columns[b].bounds == Some(parent)
    requires child.low <= child.high && parent.low <= parent.high
    ensures DisjointAt(c, columns, i) <==> !exists x: real :: IsWithin(x, child) && IsWithin(x, parent)
  {
    var x := if child.low >= parent.low then child.low else parent.low;
    if !DisjointAt(c, columns, i) { assert IsWithin(x, child) && IsWithin(x, parent); }
  }

  predicate IsWithin(x: real, b: Bounds) { b.low <= x <= b.high }

  predicate RangeDisjoint(c: Candidate, columns: map<ColumnRef, ColumnStats>) {
    exists i :: 0 <= i < |c.child.columns| && i < |c.parent.columns| && DisjointAt(c, columns, i)
  }

  /** Any position of the key will do, the first as well as the last. */
  lemma AnyPositionIsDisjoint(c: Candidate, columns: map<ColumnRef, ColumnStats>, n: nat)
    requires |c.child.columns| == |c.parent.columns| == n
    ensures !RangeDisjoint(c, columns) <==> forall i: nat :: i < n ==> !DisjointAt(c, columns, i)
  {
    if RangeDisjoint(c, columns) {
      var i :| 0 <= i < n && DisjointAt(c, columns, i);
    }
  }

  /** rangeDisjoint. */
  method FindDisjoint(c: Candidate, st: Stats) returns (found: bool)
    ensures found <==> RangeDisjoint(c, st.columns)
  {
    var childRefs, parentRefs := c.child.ColumnRefs(), c.parent.ColumnRefs();
    for i := 0 to |childRefs|
      invariant forall j | 0 <= j < i && j < |parentRefs| :: !DisjointAt(c, st.columns, j)
    {
      if i >= |parentRefs| {
        break;
      }
      var child, parent := st.Get(childRefs[i]), st.Get(parentRefs[i]);
      if child.bounds.Some? && parent.bounds.Some?
         && (child.bounds.value.low > parent.bounds.value.high || child.bounds.value.high < parent.bounds.value.low) {
        assert DisjointAt(c, st.columns, i);
        return true;
      }
    }
    return false;
  }

  // --- one candidate ------------------------------------------------------------------

  datatype Outcome = Keep | Reject | NoStats

  /** The child's distinct values exceed the parent's rows, and by more than the factor. */
  predicate Rejects(distinct: int, parentRows: int, factor: real) {
    distinct > parentRows && distinct as real > factor * parentRows as real
  }

  /** What a candidate comes to, given the floor under its distinct count and the parent's row estimate. */
  function Evaluated(c: Candidate, distinct: Option<int>, parentRows: Option<int>, disjoint: bool,
                     factor: real): (Candidate, Outcome) {
    if distinct.None? || parentRows.None? then
      (c.(signals := c.signals + [Signal(StatsUnavailable, 0.0)]), NoStats)
    else if Rejects(distinct.value, parentRows.value, factor) then
      var signals := c.signals + [Signal(CardViolation, CARD_PENALTY)];
      (c.(signals := signals, metaScore := Score(signals), verdict := Rejected), Reject)
    else
      var added := (if distinct.value > parentRows.value then [Signal(CardViolation, CARD_PENALTY)] else [])
                 + (if disjoint then [Signal(RangeViolation, RANGE_PENALTY)] else []);
      if added == [] then (c, Keep)
      else (c.(signals := c.signals + added, metaScore := Score(c.signals + added)), Keep)
  }

  function RowEstimate(rows: map<string, int>, table: string): Option<int> {
    if table in rows then Some(rows[table]) else None
  }

  /** What evaluateOne computes, in terms of the statistics. */
  ghost predicate IsEvaluated(c: Candidate, rows: map<string, int>, columns: map<ColumnRef, ColumnStats>, factor: real,
                              r: (Candidate, Outcome))
  {
    exists distinct: Option<int> ::
      && (c.child.TableRef() in rows ==>
            IsFloor(c.child.ColumnRefs(), rows[c.child.TableRef()], columns, distinct))
      && (c.child.TableRef() !in rows ==> distinct == None)
      && r == Evaluated(c, distinct, RowEstimate(rows, c.parent.TableRef()), RangeDisjoint(c, columns), factor)
  }

  method EvaluateOne(c: Candidate, rows: map<string, int>, st: Stats, factor: real)
    returns (r: Candidate, outcome: Outcome)
    ensures IsEvaluated(c, rows, st.columns, factor, (r, outcome))
  {
    var parentRows := RowEstimate(rows, c.parent.TableRef());
    var childRows := RowEstimate(rows, c.child.TableRef());
    var distinct: Option<int> := None;
    if childRows.Some? {
      distinct := LowerBoundDistinct(c.child, childRows.value, st);
    }
    ghost var spec := Evaluated(c, distinct, parentRows, RangeDisjoint(c, st.columns), factor);
    r := c;
    if distinct.None? || parentRows.None? {
      r := r.(signals := r.signals + [Signal(StatsUnavailable, 0.0)]);
      assert (r, NoStats) == spec;
      return r, NoStats;
    }
    ghost var added := [];
    if distinct.value > parentRows.value {
      r := r.(signals := r.signals + [Signal(CardViolation, CARD_PENALTY)]);
      added := [Signal(CardViolation, CARD_PENALTY)];
      r := Rescore(r);
      if distinct.value as real > factor * parentRows.value as real {
        r := r.(verdict := Rejected);
        assert (r, Reject) == spec;
        return r, Reject;
      }
    }
    var disjoint := FindDisjoint(c, st);
    if disjoint {
      r := r.(signals := r.signals + [Signal(RangeViolation, RANGE_PENALTY)]);
      Regroup(c.signals, added, [Signal(RangeViolation, RANGE_PENALTY)]);
      r := Rescore(r);
    }
    ghost var range := if disjoint then [Signal(RangeViolation, RANGE_PENALTY)] else [];
    assert r.signals == c.signals + (added + range);
    assert (r, Keep) == spec;
    return r, Keep;
  }

  // --- the run ----------------------------------------------------------------------

  /** The result of a run, filled candidate by candidate. */
  class Evaluation {
    var kept: seq<Candidate>
    var rejected: seq<Candidate>
    var checked: nat
    var noStats: nat

    constructor (checked: nat)
      ensures kept == [] && rejected == [] && noStats == 0 && this.checked == checked
    {
      kept, rejected, noStats := [], [], 0;
      this.checked := checked;
    }

    /** Result.add. */
    method Add(c: Candidate, outcome: Outcome)
      modifies this
      ensures kept == old(kept) + if outcome == Reject then [] else [c]
      ensures rejected == old(rejected) + if outcome == Reject then [c] else []
      ensures noStats == old(noStats) + if outcome == NoStats then 1 else 0
      ensures checked == old(checked)
    {
      match outcome
      case Reject => rejected := rejected + [c];
      case NoStats =>
        noStats := noStats + 1;
        kept := kept + [c];
      case Keep => kept := kept + [c];
    }
  }

  function Survivors(rs: seq<(Candidate, Outcome)>): seq<Candidate> {
    if rs == [] then []
    else
      var last := rs[|rs| - 1];
      Survivors(rs[..|rs| - 1]) + if last.1 == Reject then [] else [last.0]
  }

  function Casualties(rs: seq<(Candidate, Outcome)>): seq<Candidate> {
    if rs == [] then []
    else
      var last := rs[|rs| - 1];
      Casualties(rs[..|rs| - 1]) + if last.1 == Reject then [last.0] else []
  }

  function Unknowns(rs: seq<(Candidate, Outcome)>): nat {
    if rs == [] then 0
    else Unknowns(rs[..|rs| - 1]) + if rs[|rs| - 1].1 == NoStats then 1 else 0
  }

  /** Evaluate: one result per candidate, each sent where its outcome says. */
  method Evaluate(candidates: seq<Candidate>, rows: map<string, int>, st: Stats, option: real)
    returns (res: Evaluation, ghost rs: seq<(Candidate, Outcome)>)
    ensures fresh(res)
    ensures res.checked == |candidates|
    ensures AreEvaluated(candidates, rows, st.columns, RejectFactor(option), rs)
    ensures res.kept == Survivors(rs) && res.rejected == Casualties(rs) && res.noStats == Unknowns(rs)
  {
    res := new Evaluation(|candidates|);
    rs := [];
    for i := 0 to |candidates|
      invariant fresh(res) && res.checked == |candidates|
      invariant |rs| == i
      invariant forall j | 0 <= j < i :: IsEvaluated(candidates[j], rows, st.columns, RejectFactor(option), rs[j])
      invariant res.kept == Survivors(rs) && res.rejected == Casualties(rs) && res.noStats == Unknowns(rs)
    {
      var c, outcome := EvaluateOne(candidates[i], rows, st, RejectFactor(option));
      ghost var before := rs;
      rs := rs + [(c, outcome)];
      assert rs[..|rs| - 1] == before;
      res.Add(c, outcome);
    }
  }

  /** Evaluation says something about a candidate, and never what it is about. */
  lemma EvaluationKeepsIdentity(c: Candidate, rows: map<string, int>, columns: map<ColumnRef, ColumnStats>,
                                factor: real, r: (Candidate, Outcome))
    requires IsEvaluated(c, rows, columns, factor, r)
    ensures r.0.Identity() == c.Identity() && r.0.validated == c.validated
    ensures c.signals <= r.0.signals
    ensures r.1 != NoStats && r.0 != c ==> r.0.metaScore == Score(r.0.signals)
  {
  }

  /** Every outcome is a survivor or a casualty; the unknowns are among the survivors. */
  lemma {:induction false} OutcomesAddUp(rs: seq<(Candidate, Outcome)>)
    ensures |Survivors(rs)| + |Casualties(rs)| == |rs|
    ensures Unknowns(rs) <= |Survivors(rs)|
    ensures Unknowns(rs) == 0 <==> forall i | 0 <= i < |rs| :: rs[i].1 != NoStats
  {
    if rs != [] {
      var n := |rs| - 1;
      OutcomesAddUp(rs[..n]);
      assert forall i | 0 <= i < n :: rs[..n][i] == rs[i];
    }
  }

  // --- the funnel -------------------------------------------------------------------

  /** The planner has a row estimate for both tables, and an estimate for some column of the child's key. */
  ghost predicate HasStats(c: Candidate, rows: map<string, int>, columns: map<ColumnRef, ColumnStats>) {
    && c.parent.TableRef() in rows && c.child.TableRef() in rows
    && exists ref :: ref in c.child.ColumnRefs() && ColumnEstimate(columns, ref, rows[c.child.TableRef()]).Some?
  }

  /** Without statistics is: no row estimate for one of the tables, or no estimate for any column of the child. */
  lemma UnknownExactly(c: Candidate, rows: map<string, int>, columns: map<ColumnRef, ColumnStats>, factor: real,
                       r: (Candidate, Outcome))
    requires IsEvaluated(c, rows, columns, factor, r)
    ensures r.1 == NoStats <==> !HasStats(c, rows, columns)
  {
  }

  /** The penalties a candidate earns: the child has more values than the parent rows, or the ranges part. */
  function Penalties(over: bool, parted: bool): seq<Signal> {
    (if over then [Signal(CardViolation, -0.40)] else []) + (if parted then [Signal(RangeViolation, -0.30)] else [])
  }

  lemma {:induction false} PenaltiesAddUp(signals: seq<Signal>, over: bool, parted: bool)
    ensures Sum(signals + Penalties(over, parted), {})
         == Sum(signals, {}) + (if over then -0.40 else 0.0) + if parted then -0.30 else 0.0
  {
    var card := if over then [Signal(CardViolation, -0.40)] else [];
    var range := if parted then [Signal(RangeViolation, -0.30)] else [];
    SumConcat(signals, card + range, {});
    SumConcat(card, range, {});
  }

  /** Without an opinion a candidate is marked; beyond the factor it is rejected; else it may be penalized. */
  lemma EvaluationSays(c: Candidate, distinct: Option<int>, parentRows: Option<int>, disjoint: bool, factor: real)
    ensures var r := Evaluated(c, distinct, parentRows, disjoint, factor);
      if distinct.None? || parentRows.None? then
        r == (c.(signals := c.signals + [Signal(StatsUnavailable, 0.0)]), NoStats)
      else
        var over := distinct.value > parentRows.value;
        var beyond := over && distinct.value as real > factor * parentRows.value as real;
        && r.0.signals == c.signals + Penalties(over, disjoint && !beyond)
        && r.0.verdict == (if beyond then Rejected else c.verdict)
        && r.1 == (if beyond then Reject else Keep)
        && (!over && !disjoint ==> r.0 == c)
        && (over || disjoint ==> r.0.metaScore == Score(r.0.signals))
  {
    assert c.signals + [] == c.signals;
  }

  lemma PenalizedScore(c: Candidate, r: Candidate, over: bool, parted: bool)
    requires r.signals == c.signals + Penalties(over, parted) && r.metaScore == Score(r.signals)
    ensures IsClamped(r.metaScore, Sum(c.signals, {}) + (if over then -0.40 else 0.0) + if parted then -0.30 else 0.0)
  {
    PenaltiesAddUp(c.signals, over, parted);
    ScoresAreClamped(r.signals);
  }

  /** These are the outcomes of evaluating the candidates. */
  ghost predicate AreEvaluated(candidates: seq<Candidate>, rows: map<string, int>, columns: map<ColumnRef, ColumnStats>,
                               factor: real, rs: seq<(Candidate, Outcome)>) {
    |rs| == |candidates| && forall i | 0 <= i < |rs| :: IsEvaluated(candidates[i], rows, columns, factor, rs[i])
  }

  /**
    The funnel: everything checked is kept or rejected. Candidates without statistics are
    among the kept, so adding them a third time closes exactly when every candidate has some.
   */
  lemma FunnelCloses(candidates: seq<Candidate>, rows: map<string, int>, columns: map<ColumnRef, ColumnStats>,
                     factor: real, rs: seq<(Candidate, Outcome)>)
    requires AreEvaluated(candidates, rows, columns, factor, rs)
    ensures |Survivors(rs)| + |Casualties(rs)| == |candidates|
    ensures |Survivors(rs)| + |Casualties(rs)| + Unknowns(rs) == |candidates|
       <==> forall c | c in candidates :: HasStats(c, rows, columns)
  {
    OutcomesAddUp(rs);
    forall i | 0 <= i < |rs| ensures rs[i].1 != NoStats <==> HasStats(candidates[i], rows, columns) {
      UnknownExactly(candidates[i], rows, columns, factor, rs[i]);
    }
    if forall i | 0 <= i < |rs| :: rs[i].1 != NoStats {
      forall c | c in candidates ensures HasStats(c, rows, columns) {
        var i :| 0 <= i < |candidates| && candidates[i] == c;
        assert rs[i].1 != NoStats;
      }
    } else {
      var i :| 0 <= i < |rs| && rs[i].1 == NoStats;
      assert candidates[i] in candidates && !HasStats(candidates[i], rows, columns);
    }
  }

  /** It does not close for one candidate and no statistics at all: kept once, and counted once more. */
  lemma FunnelCanOverflow(c: Candidate, factor: real, r: (Candidate, Outcome))
    requires IsEvaluated(c, map[], map[], factor, r)
    ensures |Survivors([r])| == 1 && |Casualties([r])| == 0 && Unknowns([r]) == 1
    ensures |Survivors([r])| + |Casualties([r])| + Unknowns([r]) != |[c]|
  {
    UnknownExactly(c, map[], map[], factor, r);
    assert [r][..0] == [];
  }
}
