/**
  From the numbers of a validation to a verdict: sampleFor, validateOne and
  verdict of internal/validate, and what a verdict says about the whole table.

  Fractions are exact rationals where the source computes in floating point.
 */
module Verdict {
  import opened Relational
  import opened Counting
  import opened ValidationQuery
  import Model

  datatype Method = Full | Sampled

  datatype Validation = Validation(mode: Method, counts: Counts)

  const DEFAULT_TARGET_ROWS := 100_000
  const BERNOULLI_CEILING := 100_000

  datatype Options = Options(
    full: bool,
    targetRows: int,
    seed: int,
    brokenThreshold: real,
    rejectThreshold: real,
    maxNullFraction: real)
  {
    function TargetRows(): int { if targetRows <= 0 then DEFAULT_TARGET_ROWS else targetRows }
    function Broken(): real { if brokenThreshold <= 0.0 then 0.90 else brokenThreshold }
    function Reject(): real { if rejectThreshold <= 0.0 then 0.50 else rejectThreshold }
    function MaxNull(): real { if maxNullFraction <= 0.0 then 0.95 else maxNullFraction }
  }

  // --- how the child table is read ------------------------------------------------

  datatype SampleKind = ReadAll | Bernoulli | System

  datatype SampleSpec = SampleSpec(kind: SampleKind, percent: real, seed: int) {
    function Mode(): Method { if kind == ReadAll then Full else Sampled }
  }

  /** The row estimate is absent when the planner has none. */
  datatype Estimate = Unknown | Rows(n: int)

  function SampleFor(rows: Estimate, opts: Options): SampleSpec {
    var target := opts.TargetRows();
    if opts.full || rows.Unknown? || rows.n <= target then SampleSpec(ReadAll, 0.0, 0)
    else
      var pct := 100.0 * target as real / rows.n as real;
      SampleSpec(
        if rows.n < BERNOULLI_CEILING then Bernoulli else System,
        if pct < 0.01 then 0.01 else pct,
        opts.seed)
  }

  /** An option that is not positive means its default. */
  function OrDefault(option: real, default: real): real { if option <= 0.0 then default else option }

  /**
    A sample is taken only without --full, of a table known to exceed the target, and by rows
    only of tables below a hundred thousand rows. It is the fraction that gives the target,
    and at least a hundredth of a percent.
   */
  lemma SampledOnlyAboveTarget(rows: Estimate, opts: Options)
    ensures var spec := SampleFor(rows, opts);
            var target := if opts.targetRows <= 0 then 100_000 else opts.targetRows;
      && (spec.Mode() == Sampled <==> !opts.full && rows.Rows? && rows.n > target)
      && (spec.kind == Bernoulli <==> spec.Mode() == Sampled && rows.n < 100_000)
      && (spec.kind == System <==> spec.Mode() == Sampled && rows.n >= 100_000)
      && (spec.Mode() == Sampled ==>
            && spec.seed == opts.seed
            && 0.01 <= spec.percent < 100.0
            && spec.percent * rows.n as real >= 100.0 * target as real
            && (spec.percent > 0.01 ==> spec.percent * rows.n as real == 100.0 * target as real))
  {
    var target := opts.TargetRows();
    if rows.Rows? && rows.n > target {
      FractionOf(target, rows.n);
      var pct := 100.0 * target as real / rows.n as real;
      assert pct == 100.0 * (target as real / rows.n as real);
      assert pct * rows.n as real == 100.0 * target as real;
      MulOrder(pct, 0.01, rows.n as real);
    }
  }

  /** What a reading mode may read: all of the table, or a sample of it. */
  ghost predicate MayRead(read: Table, mode: Method, t: Table) {
    && WellFormed(read)
    && SampleOf(read, t)
    && (mode == Full ==> read == t)
  }

  // --- the verdict --------------------------------------------------------------------

  function NullFraction(c: Counts): real {
    if c.sampledRows <= 0 then 0.0 else 1.0 - c.notNullRows as real / c.sampledRows as real
  }

  function ContainmentRows(c: Counts): real {
    if c.notNullRows <= 0 then 0.0 else (c.notNullRows - c.orphanRows) as real / c.notNullRows as real
  }

  function Decide(v: Validation, opts: Options): Model.Verdict {
    var c := v.counts;
    if c.notNullRows == 0 then Model.Weak
    else if c.distinctVals <= 1 then Model.Weak
    else if c.sampledRows > 0 && NullFraction(c) > opts.MaxNull() then Model.Weak
    else if c.orphanRows == 0 && c.orphanVals == 0 then
      if v.mode == Full then Model.Confirmed else Model.Weak
    else
      var cr := ContainmentRows(c);
      if cr >= opts.Broken() then Model.Broken
      else if cr < opts.Reject() then Model.Rejected
      else Model.Weak
  }

  function Validate(read: Table, mode: Method, p: Pair): Validation
    requires WellFormedPair(p) && WellFormed(read) && read.width == p.child.width
  {
    Validation(mode, Measure(read, p))
  }

  // --- what the numbers come to, over the rows -----------------------------------------------

  function HasNull(): Row -> bool { r => exists i :: 0 <= i < |r| && r[i] == Null }

  /** There is enough to look at: two different tuples, and no more rows with a null than the share allows. */
  ghost predicate EnoughToSee(scanned: seq<Row>, maxNull: real) {
    && (exists a, b :: a in scanned && b in scanned && NullFree(a) && NullFree(b) && a != b)
    && IsAtMost(CountIf(scanned, HasNull()), maxNull, |scanned|)
  }

  /** part is at most, or at least, that share of the whole. */
  predicate IsAtMost(part: int, share: real, whole: int) { part as real <= share * whole as real }

  predicate IsAtLeast(part: int, share: real, whole: int) { part as real >= share * whole as real }

  lemma MulOrder(x: real, y: real, b: real)
    requires b > 0.0
    ensures x <= y <==> x * b <= y * b
    ensures x < y <==> x * b < y * b
  {
    if x < y {
      assert (y - x) * b > 0.0;
      assert y * b == x * b + (y - x) * b;
    } else if y < x {
      assert (x - y) * b > 0.0;
      assert x * b == y * b + (x - y) * b;
    }
  }

  /** A ratio is compared like its parts. */
  lemma RatioOrder(a: real, b: real, m: real)
    requires b > 0.0
    ensures a / b <= m <==> a <= m * b
    ensures a / b < m <==> a < m * b
  {
    assert (a / b) * b == a;
    MulOrder(a / b, m, b);
  }

  lemma {:induction false} NullsAndOthers(scanned: seq<Row>)
    ensures CountIf(scanned, HasNull()) + CountIf(scanned, IsNullFree()) == |scanned|
  {
    if scanned != [] {
      NullsAndOthers(scanned[1..]);
      var r := scanned[0];
      assert !NullFree(r) <==> exists i :: 0 <= i < |r| && r[i] == Null;
    }
  }

  lemma TwoElements<T>(s: set<T>)
    ensures |s| >= 2 <==> exists a, b :: a in s && b in s && a != b
  {
    if |s| >= 2 {
      var a :| a in s;
      assert |s - {a}| >= 1;
      var b :| b in s - {a};
    }
    if a, b :| a in s && b in s && a != b {
      assert {a, b} <= s;
      SubsetSize({a, b}, s);
    }
  }

  lemma TwoTuples(scanned: seq<Row>)
    ensures |Such(scanned, IsNullFree())| >= 2 <==>
      exists a, b :: a in scanned && b in scanned && NullFree(a) && NullFree(b) && a != b
  {
    var s := Such(scanned, IsNullFree());
    TwoElements(s);
    assert forall a :: a in s <==> a in scanned && NullFree(a);
    if a, b :| a in scanned && b in scanned && NullFree(a) && NullFree(b) && a != b {
      assert a in s && b in s;
    }
  }

  lemma NullShare(c: Counts, nulls: nat, maxNull: real)
    requires c.sampledRows > 0 && nulls + c.notNullRows == c.sampledRows
    ensures NullFraction(c) <= maxNull <==> IsAtMost(nulls, maxNull, c.sampledRows)
  {
    var n, x := c.sampledRows as real, c.notNullRows as real / c.sampledRows as real;
    assert x * n == c.notNullRows as real;
    assert (1.0 - x) * n == nulls as real;
    MulOrder(1.0 - x, maxNull, n);
  }

  /**
    What the verdict has to be, given how the table was read, whether there was enough to see,
    how many tuples were checked and how many of them have no parent.
   */
  predicate Follows(verdict: Model.Verdict, mode: Method, enough: bool, checked: nat, orphans: nat, opts: Options) {
    var breaks := IsAtLeast(checked - orphans, OrDefault(opts.brokenThreshold, 0.90), checked);
    var rejects := !IsAtLeast(checked - orphans, OrDefault(opts.rejectThreshold, 0.50), checked);
    && (verdict == Model.Confirmed <==> mode == Full && enough && orphans == 0)
    && (verdict == Model.Broken <==> enough && orphans > 0 && breaks)
    && (verdict == Model.Rejected <==> enough && orphans > 0 && !breaks && rejects)
    && verdict != Model.Unvalidated
  }

  lemma ContainmentOrder(c: Counts, m: real)
    requires c.notNullRows > 0
    ensures ContainmentRows(c) >= m <==> IsAtLeast(c.notNullRows - c.orphanRows, m, c.notNullRows)
  {
    RatioOrder((c.notNullRows - c.orphanRows) as real, c.notNullRows as real, m);
  }

  lemma DecideOverCounts(v: Validation, opts: Options, nulls: nat)
    requires nulls + v.counts.notNullRows == v.counts.sampledRows
    requires v.counts.distinctVals > 0 <==> v.counts.notNullRows > 0
    requires v.counts.orphanRows == 0 <==> v.counts.orphanVals == 0
    ensures var c := v.counts;
            var fewNulls := IsAtMost(nulls, OrDefault(opts.maxNullFraction, 0.95), c.sampledRows);
      Follows(Decide(v, opts), v.mode, c.distinctVals >= 2 && fewNulls, c.notNullRows, c.orphanRows, opts)
  {
    var c := v.counts;
    if c.notNullRows > 0 {
      NullShare(c, nulls, opts.MaxNull());
      ContainmentOrder(c, opts.Broken());
      ContainmentOrder(c, opts.Reject());
    }
  }

  lemma CountsOverRows(read: Table, p: Pair)
    requires WellFormedPair(p) && WellFormed(read) && read.width == p.child.width
    ensures var scanned, c := Select(read, p.childKey), Measure(read, p);
      && c.sampledRows == |scanned|
      && c.notNullRows == CountIf(scanned, IsNullFree())
      && c.orphanRows == CountIf(scanned, IsOrphan(Select(p.parent, p.parentKey)))
      && (c.distinctVals >= 2 <==> exists a, b :: a in scanned && b in scanned && NullFree(a) && NullFree(b) && a != b)
      && CountIf(scanned, HasNull()) + c.notNullRows == c.sampledRows
  {
    var scanned, parents := Select(read, p.childKey), Select(p.parent, p.parentKey);
    GroupByGroups(Filter(scanned, IsNullFree()));
    QueryCountsRows(scanned, parents, ChildVals(scanned), |p.childKey|);
    NullsAndOthers(scanned);
    TwoTuples(scanned);
  }

  /**
    Every verdict, in terms of the rows that were read: how many of the null-free tuples
    have no parent, whether there was enough to see, and whether it was the whole table.
   */
  lemma VerdictOverRows(read: Table, mode: Method, p: Pair, opts: Options)
    requires WellFormedPair(p) && WellFormed(read) && read.width == p.child.width
    ensures var scanned := Select(read, p.childKey);
      Follows(Decide(Validate(read, mode, p), opts), mode,
              EnoughToSee(scanned, OrDefault(opts.maxNullFraction, 0.95)),
              CountIf(scanned, IsNullFree()), CountIf(scanned, IsOrphan(Select(p.parent, p.parentKey))), opts)
  {
    CountsOverRows(read, p);
    DistinctNeedsRows(read, p);
    DecideOverCounts(Validate(read, mode, p), opts, CountIf(Select(read, p.childKey), HasNull()));
  }

  /** The pair of tables does not satisfy the constraint. */
  ghost predicate Violated(p: Pair)
    requires WellFormedPair(p)
  {
    !MatchSimple(p)
  }

  lemma DistinctNeedsRows(read: Table, p: Pair)
    requires WellFormedPair(p) && WellFormed(read) && read.width == p.child.width
    ensures var c := Measure(read, p);
      && (c.distinctVals > 0 <==> c.notNullRows > 0)
      && (c.orphanRows == 0 <==> c.orphanVals == 0)
      && c.orphanRows <= c.notNullRows
  {
    var scanned, parents := Select(read, p.childKey), Select(p.parent, p.parentKey);
    GroupByGroups(Filter(scanned, IsNullFree()));
    var groups := ChildVals(scanned);
    QueryCountsRows(scanned, parents, groups, |p.childKey|);
    OrphanCountsAgree(scanned, parents, groups, |p.childKey|);
    CountZero(scanned, IsNullFree());
    if r :| r in scanned && NullFree(r) {
      assert r in Such(scanned, IsNullFree());
    } else {
      assert Such(scanned, IsNullFree()) == {};
    }
  }

  /**
    Confirmed means exactly: the whole table was read, it holds two different null-free tuples
    and not too many rows with a null, and the constraint holds.
   */
  lemma ConfirmedExactly(read: Table, mode: Method, p: Pair, opts: Options)
    requires WellFormedPair(p) && MayRead(read, mode, p.child)
    ensures Decide(Validate(read, mode, p), opts) == Model.Confirmed
       <==> && mode == Full
            && EnoughToSee(Select(p.child, p.childKey), OrDefault(opts.maxNullFraction, 0.95))
            && MatchSimple(p)
  {
    VerdictOverRows(read, mode, p, opts);
    if mode == Full {
      OrphansViolate(p);
    }
  }

  lemma OrphansViolate(p: Pair)
    requires WellFormedPair(p)
    ensures CountIf(Select(p.child, p.childKey), IsOrphan(Select(p.parent, p.parentKey))) == 0 <==> MatchSimple(p)
  {
    CountZero(Select(p.child, p.childKey), IsOrphan(Select(p.parent, p.parentKey)));
    MatchSimpleByProjection(p);
  }

  lemma BrokenNeedsOrphans(v: Validation, opts: Options)
    requires Decide(v, opts) in {Model.Broken, Model.Rejected}
    ensures v.counts.orphanRows > 0 || v.counts.orphanVals > 0
  {
  }

  /** Broken and Rejected, sampled or not, mean that the whole table holds a violation. */
  lemma BrokenIsReal(read: Table, mode: Method, p: Pair, opts: Options)
    requires WellFormedPair(p) && MayRead(read, mode, p.child)
    requires Decide(Validate(read, mode, p), opts) in {Model.Broken, Model.Rejected}
    ensures Violated(p)
  {
    BrokenNeedsOrphans(Validate(read, mode, p), opts);
    DistinctNeedsRows(read, p);
    SampleUnderstates(read, p);
    NoOrphansIsMatchSimple(p);
  }

  /** The other way: what each verdict needs of a table with violations, read in full. */
  lemma ViolationsAreSeen(p: Pair, opts: Options)
    requires WellFormedPair(p) && Violated(p)
    ensures var scanned := Select(p.child, p.childKey);
            var orphans := CountIf(scanned, IsOrphan(Select(p.parent, p.parentKey)));
            var verdict := Decide(Validate(p.child, Full, p), opts);
      && orphans > 0 && verdict != Model.Confirmed
      && Follows(verdict, Full, EnoughToSee(scanned, OrDefault(opts.maxNullFraction, 0.95)),
                 CountIf(scanned, IsNullFree()), orphans, opts)
  {
    VerdictOverRows(p.child, Full, p, opts);
    OrphansViolate(p);
  }

  lemma CleanSampleIsWeak(c: Counts, opts: Options)
    ensures Decide(Validation(Sampled, c), opts) != Model.Confirmed
    ensures c.orphanRows == 0 && c.orphanVals == 0 ==> Decide(Validation(Sampled, c), opts) == Model.Weak
  {
  }

  /** A sampled read never confirms; where the constraint holds it says weak. */
  lemma SampleNeverConfirms(read: Table, p: Pair, opts: Options)
    requires WellFormedPair(p) && MayRead(read, Sampled, p.child)
    ensures Decide(Validate(read, Sampled, p), opts) != Model.Confirmed
    ensures MatchSimple(p) ==> Decide(Validate(read, Sampled, p), opts) == Model.Weak
  {
    CleanSampleIsWeak(Measure(read, p), opts);
    DistinctNeedsRows(read, p);
    SampleUnderstates(read, p);
    NoOrphansIsMatchSimple(p);
  }

  lemma FractionOf(a: int, b: int)
    requires 0 <= a <= b && b > 0
    ensures 0.0 <= a as real / b as real <= 1.0
    ensures a as real / b as real == 1.0 <==> a == b
  {
    assert (a as real / b as real) * b as real == a as real;
  }

  lemma ContainmentOf(c: Counts)
    requires c.orphanRows <= c.notNullRows
    ensures 0.0 <= ContainmentRows(c) <= 1.0
    ensures c.notNullRows > 0 ==> (ContainmentRows(c) == 1.0 <==> c.orphanRows == 0)
  {
    if c.notNullRows > 0 {
      FractionOf(c.notNullRows - c.orphanRows, c.notNullRows);
    }
  }

  /** The share of examined rows that have a parent is a fraction, and one exactly without orphans. */
  lemma ContainmentIsFraction(read: Table, p: Pair)
    requires WellFormedPair(p) && WellFormed(read) && read.width == p.child.width
    ensures var c := Measure(read, p);
      && 0.0 <= ContainmentRows(c) <= 1.0
      && (c.notNullRows > 0 ==> (ContainmentRows(c) == 1.0 <==> c.orphanRows == 0))
  {
    DistinctNeedsRows(read, p);
    ContainmentOf(Measure(read, p));
  }
}
