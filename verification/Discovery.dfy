/**
  The candidate accounting of Run in internal/discovery/discovery.go: generation, the
  statistical prefilter, and validation, each reassigning the lists of candidates.
 */
module Discovery {
  import opened Text
  import opened Model
  import opened Counting
  import opened ValidateRun
  import Prefilter
  import Infer
  import Evidence
  import EvidenceFold
  import EvidenceApply
  import Generate
  import Generation
  import TargetIndex
  import R = Relational
  import V = Verdict

  /** Whether the prefilter is turned off, its statistics could not be read, or could. */
  datatype Statistics = Off | Unreadable | Readable(rows: map<string, int>, columns: Prefilter.Stats)

  /** One evaluated candidate after the other. */
  type Outcomes = seq<(Candidate, Prefilter.Outcome)>

  /** The counts of a run that are about candidates. */
  datatype Coverage = Coverage(
    found: nat,
    prefiltered: bool, checked: nat, rejected: nat, withoutStats: nat,
    validated: nat, timedOut: nat)

  datatype Discovered = Aborted | Done(candidates: seq<Candidate>, discarded: seq<Candidate>, coverage: Coverage)

  function IdentityOf(): Candidate -> (KeyRef, KeyRef) { (c: Candidate) => c.Identity() }

  function Pairs(cs: seq<Candidate>): (ids: seq<(KeyRef, KeyRef)>)
    ensures |ids| == |cs|
  {
    Mapped(cs, IdentityOf())
  }

  lemma PairsOfConcat(a: seq<Candidate>, b: seq<Candidate>)
    ensures Pairs(a + b) == Pairs(a) + Pairs(b)
  {
    MappedConcat(a, b, IdentityOf());
  }

  // --- the prefilter ----------------------------------------------------------------------

  function Results(rs: Outcomes): (cs: seq<Candidate>)
    ensures |cs| == |rs|
  {
    seq(|rs|, i requires 0 <= i < |rs| => rs[i].0)
  }

  lemma {:induction false} OutcomesPartition(rs: Outcomes)
    ensures multiset(Pairs(Prefilter.Survivors(rs))) + multiset(Pairs(Prefilter.Casualties(rs))) ==
      multiset(Pairs(Results(rs)))
    ensures forall c | c in Prefilter.Survivors(rs) :: c in Results(rs)
  {
    if rs != [] {
      var n := |rs| - 1;
      OutcomesPartition(rs[..n]);
      assert Results(rs) == Results(rs[..n]) + [rs[n].0];
      PairsOfConcat(Results(rs[..n]), [rs[n].0]);
      PairsOfConcat(Prefilter.Survivors(rs[..n]), [rs[n].0]);
      PairsOfConcat(Prefilter.Casualties(rs[..n]), [rs[n].0]);
      assert Prefilter.Survivors(rs[..n]) + [] == Prefilter.Survivors(rs[..n]);
      assert Prefilter.Casualties(rs[..n]) + [] == Prefilter.Casualties(rs[..n]);
    }
  }

  /** Every candidate checked survives or not, as it was except for what the statistics say of it. */
  ghost predicate Prefiltered(before: seq<Candidate>, kept: seq<Candidate>, rejected: seq<Candidate>) {
    && multiset(Pairs(kept)) + multiset(Pairs(rejected)) == multiset(Pairs(before))
    && |kept| + |rejected| == |before|
    && ((forall c | c in before :: !c.validated) ==> forall c | c in kept :: !c.validated)
  }

  lemma EvaluationPartitions(before: seq<Candidate>, rows: map<string, int>,
                             columns: map<ColumnRef, Prefilter.ColumnStats>, factor: real, rs: Outcomes)
    requires Prefilter.AreEvaluated(before, rows, columns, factor, rs)
    ensures Prefiltered(before, Prefilter.Survivors(rs), Prefilter.Casualties(rs))
  {
    OutcomesPartition(rs);
    Prefilter.OutcomesAddUp(rs);
    forall i | 0 <= i < |rs|
      ensures rs[i].0.Identity() == before[i].Identity() && rs[i].0.validated == before[i].validated
    {
      Prefilter.EvaluationKeepsIdentity(before[i], rows, columns, factor, rs[i]);
    }
    assert Pairs(Results(rs)) == Pairs(before);
    if forall c | c in before :: !c.validated {
      forall i | 0 <= i < |rs| ensures !Results(rs)[i].validated {
        assert before[i] in before;
      }
    }
  }

  /** With statistics, the outcomes are what evaluation comes to; without, there are none. */
  ghost predicate AreOutcomes(cs: seq<Candidate>, statistics: Statistics, factor: real, rs: Outcomes)
    reads if statistics.Readable? then {statistics.columns} else {}
  {
    if statistics.Readable? then
      Prefilter.AreEvaluated(cs, statistics.rows, statistics.columns.columns, Prefilter.RejectFactor(factor), rs)
    else rs == []
  }

  /** The prefilter stage: the survivors are kept; without statistics, everything is. */
  method ApplyPrefilter(cs: seq<Candidate>, statistics: Statistics, factor: real)
    returns (kept: seq<Candidate>, rejected: seq<Candidate>, used: bool, noStats: nat, ghost rs: Outcomes)
    ensures used <==> statistics.Readable?
    ensures AreOutcomes(cs, statistics, factor, rs)
    ensures kept == (if used then Prefilter.Survivors(rs) else cs)
    ensures rejected == Prefilter.Casualties(rs) && noStats == Prefilter.Unknowns(rs)
    ensures Prefiltered(cs, kept, rejected)
    ensures noStats <= |kept|
  {
    match statistics
    case Off => return cs, [], false, 0, [];
    case Unreadable => return cs, [], false, 0, [];
    case Readable(rows, columns) =>
      var res, outcomes := Prefilter.Evaluate(cs, rows, columns, factor);
      EvaluationPartitions(cs, rows, columns.columns, Prefilter.RejectFactor(factor), outcomes);
      Prefilter.OutcomesAddUp(outcomes);
      return res.kept, res.rejected, true, res.noStats, outcomes;
  }

  // --- validation ----------------------------------------------------------------------------

  function JobOf(cs: seq<Candidate>, ask: Candidate -> Reply, concurrency: int, reporting: bool): (job: Job)
    ensures |job.replies| == |job.candidates| && job.limit >= 1
  {
    Job(cs, Mapped(cs, ask), Concurrency(concurrency), reporting)
  }

  /** What every interleaving of validate.Run comes to. */
  method ValidateAll(job: Job) returns (r: Result)
    requires job.Valid()
    ensures r == Sequential(job)
    ensures forall run | IsRun(job, run) && Terminal(run[|run| - 1]) :: Returned(run[|run| - 1]) == r
  {
    forall run | IsRun(job, run) && Terminal(run[|run| - 1]) ensures Returned(run[|run| - 1]) == Sequential(job) {
      EveryRunAgrees(job, run);
    }
    var outs: seq<Out> := [];
    for i := 0 to |job.candidates|
      invariant |outs| == i
      invariant forall j | 0 <= j < i :: ValidateOne(job.candidates[j], job.replies[j]) == Some(outs[j])
      invariant forall j | 0 <= j < i :: job.replies[j] != Fatal
    {
      var out := ValidateOne(job.candidates[i], job.replies[i]);
      if out.None? {
        assert job.replies[i] == Fatal;
        return Error;
      }
      outs := outs + [out.value];
    }
    assert outs == Outs(job);
    r := Tally(outs);
  }

  lemma ValidationKeepsPairs(job: Job)
    requires |job.replies| == |job.candidates| && Fatal !in job.replies
    ensures Pairs(Candidates(Outs(job))) == Pairs(job.candidates)
  {
    ResultsKeepOrder(job);
  }

  // --- the run ---------------------------------------------------------------------------------

  ghost predicate Conserved(kept: seq<Candidate>, discarded: seq<Candidate>, candidates: seq<Candidate>,
                            gone: seq<Candidate>) {
    && multiset(Pairs(candidates)) + multiset(Pairs(gone)) == multiset(Pairs(kept)) + multiset(Pairs(discarded))
    && |candidates| + |gone| == |kept| + |discarded|
  }

  /** What a run goes through: the cut, the outcomes of the prefilter, and who is left to validate. */
  datatype Trace = Trace(kept: seq<Candidate>, discarded: seq<Candidate>, outcomes: Outcomes, survivors: seq<Candidate>)

  ghost predicate IsTrace(t: Trace, statistics: Statistics, factor: real)
    reads if statistics.Readable? then {statistics.columns} else {}
  {
    && AreOutcomes(t.kept, statistics, factor, t.outcomes)
    && t.survivors == if statistics.Readable? then Prefilter.Survivors(t.outcomes) else t.kept
  }

  /** The counts of a finished run. */
  ghost function Counts(t: Trace, prefiltered: bool, outs: seq<Out>): Coverage {
    Coverage(
      |t.kept| + |t.discarded|,
      prefiltered,
      if prefiltered then |t.kept| else 0, |Prefilter.Casualties(t.outcomes)|, Prefilter.Unknowns(t.outcomes),
      CountIf(outs, IsValidated()), CountIf(outs, IsTimedOut()))
  }

  /** How the run ends: aborted by a fatal reply, or with every survivor resolved by its own reply. */
  ghost predicate IsEnd(t: Trace, prefiltered: bool, ask: Candidate -> Reply, concurrency: int, reporting: bool,
                        d: Discovered) {
    if Fatal in Mapped(t.survivors, ask) then d == Aborted
    else
      var outs := Outs(JobOf(t.survivors, ask, concurrency, reporting));
      d == Done(Candidates(outs), t.discarded + Prefilter.Casualties(t.outcomes), Counts(t, prefiltered, outs))
  }

  lemma TracePartitions(t: Trace, statistics: Statistics, factor: real)
    requires IsTrace(t, statistics, factor)
    ensures Prefiltered(t.kept, t.survivors, Prefilter.Casualties(t.outcomes))
    ensures Prefilter.Unknowns(t.outcomes) <= |t.survivors|
  {
    Prefilter.OutcomesAddUp(t.outcomes);
    if statistics.Readable? {
      EvaluationPartitions(t.kept, statistics.rows, statistics.columns.columns, Prefilter.RejectFactor(factor),
                           t.outcomes);
    }
  }

  /** Every candidate found is still there at the end, in one list or the other, and the funnel says where. */
  ghost predicate Accounted(t: Trace, ask: Candidate -> Reply, d: Discovered)
    requires d.Done?
  {
    var v := d.coverage;
    && Conserved(t.kept, t.discarded, d.candidates, d.discarded)
    && Pairs(d.candidates) == Pairs(t.survivors)
    && v.found == |d.candidates| + |d.discarded|
    && (v.prefiltered ==> v.checked == |d.candidates| + v.rejected && v.withoutStats <= |d.candidates|)
    && v.validated + v.timedOut + CountIf(Mapped(t.survivors, ask), IsUnprivileged()) == |d.candidates|
  }

  lemma EndAccounts(t: Trace, statistics: Statistics, factor: real, ask: Candidate -> Reply, concurrency: int,
                    reporting: bool, d: Discovered)
    requires IsTrace(t, statistics, factor) && IsEnd(t, statistics.Readable?, ask, concurrency, reporting, d) && d.Done?
    requires forall c | c in t.kept :: !c.validated
    ensures Accounted(t, ask, d)
  {
    var job := JobOf(t.survivors, ask, concurrency, reporting);
    TracePartitions(t, statistics, factor);
    ValidationKeepsPairs(job);
    AccountCloses(job);
    PairsOfConcat(t.discarded, Prefilter.Casualties(t.outcomes));
  }

  /** A run behind the end it came to: from these lists, with nothing lost. */
  ghost predicate Finishes(kept: seq<Candidate>, discarded: seq<Candidate>, statistics: Statistics, factor: real,
                           ask: Candidate -> Reply, concurrency: int, reporting: bool, t: Trace, d: Discovered)
    reads if statistics.Readable? then {statistics.columns} else {}
  {
    && t.kept == kept && t.discarded == discarded
    && IsTrace(t, statistics, factor) && IsEnd(t, statistics.Readable?, ask, concurrency, reporting, d)
    && (d.Done? ==> Accounted(t, ask, d))
  }

  /** The first half of the stages: who goes on to validation, and what the coverage says so far. */
  method Screen(kept: seq<Candidate>, discarded: seq<Candidate>, statistics: Statistics, factor: real)
    returns (candidates: seq<Candidate>, gone: seq<Candidate>, coverage: Coverage, ghost rs: Outcomes)
    ensures IsTrace(Trace(kept, discarded, rs, candidates), statistics, factor)
    ensures gone == discarded + Prefilter.Casualties(rs)
    ensures coverage == Counts(Trace(kept, discarded, rs, candidates), statistics.Readable?, [])
  {
    candidates, gone := kept, discarded;
    coverage := Coverage(|kept| + |discarded|, false, 0, 0, 0, 0, 0);
    var left, rejected, used, noStats;
    left, rejected, used, noStats, rs := ApplyPrefilter(candidates, statistics, factor);
    if used {
      candidates, gone := left, gone + rejected;
      coverage := coverage.(prefiltered := true, checked := |kept|, rejected := |rejected|, withoutStats := noStats);
    }
    assert discarded + [] == discarded;
  }

  /** The last stage: what validation comes to, and the counts it adds. */
  method Conclude(candidates: seq<Candidate>, gone: seq<Candidate>, coverage: Coverage, ghost t: Trace,
                  prefiltered: bool, ask: Candidate -> Reply, concurrency: int, reporting: bool)
    returns (d: Discovered)
    requires candidates == t.survivors && gone == t.discarded + Prefilter.Casualties(t.outcomes)
    requires coverage == Counts(t, prefiltered, [])
    ensures IsEnd(t, prefiltered, ask, concurrency, reporting, d)
  {
    var r := ValidateAll(JobOf(candidates, ask, concurrency, reporting));
    match r
    case Error => return Aborted;
    case Ok(validated, nValidated, nTimedOut) =>
      return Done(validated, gone, coverage.(validated := nValidated, timedOut := nTimedOut));
  }

  /**
    Run, from the generated lists on: the survivors of the prefilter are validated, each by
    its own reply, and the run aborts exactly when one of those is fatal. Otherwise nothing
    is lost, and the counts account for everything.
   */
  method Finish(kept: seq<Candidate>, discarded: seq<Candidate>, statistics: Statistics, factor: real,
                ask: Candidate -> Reply, concurrency: int, reporting: bool)
    returns (d: Discovered)
    requires forall c | c in kept :: !c.validated
    ensures exists t :: Finishes(kept, discarded, statistics, factor, ask, concurrency, reporting, t, d)
    ensures d.Done? ==> Conserved(kept, discarded, d.candidates, d.discarded)
  {
    var candidates, gone, coverage, rs := Screen(kept, discarded, statistics, factor);
    ghost var t := Trace(kept, discarded, rs, candidates);
    d := Conclude(candidates, gone, coverage, t, statistics.Readable?, ask, concurrency, reporting);
    if d.Done? {
      EndAccounts(t, statistics, factor, ask, concurrency, reporting, d);
    }
    assert Finishes(kept, discarded, statistics, factor, ask, concurrency, reporting, t, d);
  }

  // --- what a verdict means at the end ----------------------------------------------------------

  /** The pair of tables behind a candidate's keys, and the row estimate of the child. */
  datatype World = World(pairOf: ((KeyRef, KeyRef)) -> R.Pair, rowsOf: ((KeyRef, KeyRef)) -> V.Estimate)

  /** An answer is the verdict on the candidate's own tables, the child read as sampleFor has it. */
  ghost predicate Honest(w: World, opts: V.Options, c: Candidate, reply: Reply) {
    var p := w.pairOf(c.Identity());
    var mode := V.SampleFor(w.rowsOf(c.Identity()), opts).Mode();
    && R.WellFormedPair(p)
    && (reply.Answer? ==>
          exists read :: V.MayRead(read, mode, p.child) && reply.verdict == V.Decide(V.Validate(read, mode, p), opts))
  }

  /** Read in full, with enough to look at, and the constraint holds. */
  ghost predicate Holds(w: World, opts: V.Options, c: Candidate)
  {
    var p := w.pairOf(c.Identity());
    && R.WellFormedPair(p)
    && V.SampleFor(w.rowsOf(c.Identity()), opts).Mode() == V.Full
    && V.EnoughToSee(R.Select(p.child, p.childKey), V.OrDefault(opts.maxNullFraction, 0.95)) && R.MatchSimple(p)
  }

  /** The candidate's constraint fails for some row. */
  ghost predicate Fails(w: World, c: Candidate) {
    R.WellFormedPair(w.pairOf(c.Identity())) && !R.MatchSimple(w.pairOf(c.Identity()))
  }

  lemma AnswerHolds(w: World, opts: V.Options, c: Candidate, reply: Reply)
    requires Honest(w, opts, c, reply) && reply.Answer?
    ensures reply.verdict == Confirmed <==> Holds(w, opts, c)
    ensures reply.verdict in {Broken, Rejected} ==> Fails(w, c)
  {
    var p := w.pairOf(c.Identity());
    var mode := V.SampleFor(w.rowsOf(c.Identity()), opts).Mode();
    var read :| V.MayRead(read, mode, p.child) && reply.verdict == V.Decide(V.Validate(read, mode, p), opts);
    V.ConfirmedExactly(read, mode, p, opts);
    if reply.verdict in {Broken, Rejected} {
      V.BrokenIsReal(read, mode, p, opts);
    }
  }

  /** c, resolved by the reply, says of the tables what they are. */
  ghost predicate SaysTruly(w: World, opts: V.Options, c: Candidate, reply: Reply, resolved: Candidate) {
    && resolved.Identity() == c.Identity()
    && (resolved.verdict == Unvalidated <== !reply.Answer?)
    && (resolved.verdict == Confirmed <==> reply.Answer? && Holds(w, opts, c))
    && (resolved.verdict in {Broken, Rejected} ==> Fails(w, c))
  }

  lemma ResolvedHolds(w: World, opts: V.Options, c: Candidate, reply: Reply)
    requires Honest(w, opts, c, reply) && reply != Fatal
    ensures SaysTruly(w, opts, c, reply, ValidateOne(c, reply).value.candidate)
  {
    if reply.Answer? {
      AnswerHolds(w, opts, c, reply);
    }
  }

  /**
    The verdicts of a finished run, against the tables: confirmed are exactly the candidates
    that got an answer from a full, conclusive read of tables where the constraint holds,
    and a broken or rejected answer has a violation behind it.
   */
  lemma ConfirmedHolds(w: World, opts: V.Options, t: Trace, prefiltered: bool, ask: Candidate -> Reply,
                       concurrency: int, reporting: bool, d: Discovered)
    requires IsEnd(t, prefiltered, ask, concurrency, reporting, d) && d.Done?
    requires forall c | c in t.survivors :: Honest(w, opts, c, ask(c))
    ensures |d.candidates| == |t.survivors|
    ensures forall i | 0 <= i < |d.candidates| ::
      SaysTruly(w, opts, t.survivors[i], ask(t.survivors[i]), d.candidates[i])
  {
    var job := JobOf(t.survivors, ask, concurrency, reporting);
    forall i | 0 <= i < |t.survivors|
      ensures SaysTruly(w, opts, t.survivors[i], ask(t.survivors[i]), d.candidates[i])
    {
      assert t.survivors[i] in t.survivors && job.replies[i] == ask(t.survivors[i]) && job.replies[i] in job.replies;
      ResolvedHolds(w, opts, t.survivors[i], ask(t.survivors[i]));
      assert d.candidates[i] == Outs(job)[i].candidate;
    }
  }

  // --- end to end ------------------------------------------------------------------------------

  lemma RenderedApart(cs: seq<Candidate>)
    requires EvidenceFold.NoPairTwice(EvidenceApply.PairRender(), cs)
    ensures Distinct(Pairs(cs))
  {
    forall i, j | 0 <= i < j < |cs| ensures Pairs(cs)[i] != Pairs(cs)[j] {
      assert EvidenceFold.At(EvidenceApply.PairRender(), cs[i]) != EvidenceFold.At(EvidenceApply.PairRender(), cs[j]);
    }
  }

  lemma EndToEnd(found: seq<Candidate>, kept: seq<Candidate>, discarded: seq<Candidate>,
                 candidates: seq<Candidate>, gone: seq<Candidate>)
    requires multiset(kept) + multiset(discarded) == multiset(found)
    requires Conserved(kept, discarded, candidates, gone)
    ensures multiset(Pairs(candidates + gone)) == multiset(Pairs(found)) && |candidates| + |gone| == |found|
    ensures EvidenceFold.NoPairTwice(EvidenceApply.PairRender(), found) ==> Distinct(Pairs(candidates + gone))
  {
    assert multiset(kept + discarded) == multiset(found);
    MappedPermutes(kept + discarded, found, IdentityOf());
    PairsOfConcat(kept, discarded);
    PairsOfConcat(candidates, gone);
    assert |multiset(found)| == |found| && |multiset(kept + discarded)| == |kept + discarded|;
    if EvidenceFold.NoPairTwice(EvidenceApply.PairRender(), found) {
      RenderedApart(found);
      DistinctPart(Pairs(candidates + gone), Pairs(found));
    }
  }

  /**
    A generation and a run behind the end: the names and the evidence say what is found, the
    threshold and the statistics who is validated, the replies how each ends. What is handed
    over, candidates and discards together, is what was found, pair by pair.
   */
  ghost predicate Discovers(o: Generation.Options, all: seq<Table>, evidence: seq<Evidence.JoinEvidence>,
                            minScore: real, statistics: Statistics, factor: real, ask: Candidate -> Reply,
                            concurrency: int, reporting: bool, g: Generate.Generated, t: Trace, d: Discovered)
    reads if statistics.Readable? then {statistics.columns} else {}
  {
    && Generate.Generates(o, all, evidence, minScore, g, t.kept, t.discarded)
    && Finishes(t.kept, t.discarded, statistics, factor, ask, concurrency, reporting, t, d)
    && (d.Done? ==>
          && multiset(Pairs(d.candidates + d.discarded)) == multiset(Pairs(g.found))
          && d.coverage.found == |g.found|)
  }

  lemma KeptIsNew(o: Generation.Options, all: seq<Table>, evidence: seq<Evidence.JoinEvidence>, minScore: real,
                  g: Generate.Generated, kept: seq<Candidate>, discarded: seq<Candidate>)
    requires Generate.Generates(o, all, evidence, minScore, g, kept, discarded)
    ensures forall c | c in kept :: !c.validated
    ensures multiset(kept) + multiset(discarded) == multiset(g.found)
  {
    forall c | c in kept ensures !c.validated {
      assert c in multiset(g.found);
    }
  }

  /** Generation, prefilter and validation; with proper and plain names, no pair is handed over twice. */
  method Discover(o: Generation.Options, schemas: seq<TargetIndex.Schema>, evidence: seq<Evidence.JoinEvidence>,
                  minScore: real, statistics: Statistics, factor: real, ask: Candidate -> Reply, concurrency: int,
                  reporting: bool)
    returns (d: Discovered)
    ensures exists g, t :: Discovers(o, TargetIndex.Flatten(schemas), evidence, minScore,
                                     statistics, factor, ask, concurrency, reporting, g, t, d)
    ensures d.Done? && Infer.ProperCatalog(TargetIndex.Flatten(schemas))
            && Generate.PlainNames(TargetIndex.Flatten(schemas)) ==>
      Distinct(Pairs(d.candidates + d.discarded))
  {
    ghost var all := TargetIndex.Flatten(schemas);
    var kept, discarded := Generate.Generate(o, schemas, evidence, minScore);
    ghost var g :| Generate.Generates(o, all, evidence, minScore, g, kept, discarded);
    KeptIsNew(o, all, evidence, minScore, g, kept, discarded);
    d := Finish(kept, discarded, statistics, factor, ask, concurrency, reporting);
    ghost var t :| Finishes(kept, discarded, statistics, factor, ask, concurrency, reporting, t, d);
    if d.Done? {
      EndToEnd(g.found, kept, discarded, d.candidates, d.discarded);
    }
    assert Discovers(o, all, evidence, minScore, statistics, factor, ask, concurrency, reporting, g, t, d);
  }
}
