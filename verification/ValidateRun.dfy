/**
  validate.Run of internal/validate/validate.go as a protocol: tasks that are
  launched in order under a limit, ask the database, write their slot, count, and
  report; and an errgroup whose first error cancels the rest.

  A step is one action of one task. Every interleaving of the steps is a run; the
  theorems are about all runs.
 */
module ValidateRun {
  import opened Text
  import opened Model
  import opened Counting

  const DEFAULT_CONCURRENCY := 4

  function Concurrency(option: int): (limit: nat)
    ensures limit >= 1
    ensures option >= 1 ==> limit == option
    ensures option <= 0 ==> limit == 4
  {
    if option < 1 then DEFAULT_CONCURRENCY else option
  }

  /** How one validation query ends; Fatal is what resolveError does not resolve. */
  datatype Reply = Answer(verdict: Verdict) | TimeCeiling | NoPrivilege | Fatal

  datatype Out = Out(candidate: Candidate, timedOut: bool)

  /** validateOne: a candidate and the reply to its query; none is an error that aborts. */
  function ValidateOne(c: Candidate, reply: Reply): Option<Out> {
    match reply
    case Answer(v) => Some(Out(c.(validated := true, verdict := v), false))
    case TimeCeiling => Some(Out(c.(verdict := Unvalidated), true))
    case NoPrivilege => Some(Out(c.(verdict := Unvalidated), false))
    case Fatal => None
  }

  /** The candidates, the reply each of them would get, the limit, and whether there is a callback. */
  datatype Job = Job(candidates: seq<Candidate>, replies: seq<Reply>, limit: nat, reporting: bool) {
    ghost predicate Valid() { |replies| == |candidates| && limit >= 1 }
  }

  datatype Phase = Waiting | Running | Resolved(out: Out) | Written | Counted(k: nat) | Finished | Failed

  datatype State = State(
    launched: nat,
    phases: seq<Phase>,
    slots: seq<Option<Out>>,
    done: nat,
    reported: seq<nat>,
    error: Option<nat>)

  function Init(job: Job): State {
    State(0, seq(|job.candidates|, _ => Waiting), seq(|job.candidates|, _ => None), 0, [], None)
  }

  // --- steps ----------------------------------------------------------------------

  function InFlight(): Phase -> bool {
    (p: Phase) => p.Running? || p.Resolved? || p.Written? || p.Counted?
  }

  predicate Over(p: Phase) { p.Finished? || p.Failed? }

  /** g.Go in the launching loop: blocks at the limit. */
  ghost predicate Launch(job: Job, s: State, s': State) {
    && s.launched < |s.phases|
    && CountIf(s.phases, InFlight()) < job.limit
    && s' == s.(launched := s.launched + 1, phases := s.phases[s.launched := Running])
  }

  /** The query of task i answers. */
  ghost predicate Ask(job: Job, s: State, s': State, i: nat)
    requires job.Valid()
  {
    && i < |s.phases| && i < |job.candidates| && s.phases[i].Running?
    && match ValidateOne(job.candidates[i], job.replies[i])
       case Some(out) => s' == s.(phases := s.phases[i := Resolved(out)])
       case None => s' == Fail(s, i)
  }

  /** Once the group is cancelled, the query of task i may fail whatever it would have answered. */
  ghost predicate Cancel(job: Job, s: State, s': State, i: nat) {
    && i < |s.phases| && s.phases[i].Running?
    && s.error.Some?
    && s' == Fail(s, i)
  }

  /** The task returns an error; the first one is kept. */
  function Fail(s: State, i: nat): State
    requires i < |s.phases|
  {
    s.(phases := s.phases[i := Failed], error := if s.error.Some? then s.error else Some(i))
  }

  ghost predicate Write(job: Job, s: State, s': State, i: nat) {
    && i < |s.phases| && i < |s.slots| && s.phases[i].Resolved?
    && s' == s.(phases := s.phases[i := Written], slots := s.slots[i := Some(s.phases[i].out)])
  }

  /** done.Add(1), when there is a callback to tell. */
  ghost predicate Count(job: Job, s: State, s': State, i: nat) {
    && i < |s.phases| && s.phases[i].Written?
    && s' == if job.reporting
             then s.(done := s.done + 1, phases := s.phases[i := Counted(s.done + 1)])
             else s.(phases := s.phases[i := Finished])
  }

  ghost predicate Report(job: Job, s: State, s': State, i: nat) {
    && i < |s.phases| && s.phases[i].Counted?
    && s' == s.(reported := s.reported + [s.phases[i].k], phases := s.phases[i := Finished])
  }

  /** An action of task i. */
  ghost predicate Act(job: Job, s: State, s': State, i: nat)
    requires job.Valid()
  {
    Ask(job, s, s', i) || Cancel(job, s, s', i) || Write(job, s, s', i) || Count(job, s, s', i) || Report(job, s, s', i)
  }

  ghost predicate Next(job: Job, s: State, s': State)
    requires job.Valid()
  {
    Launch(job, s, s') || exists i: nat :: Act(job, s, s', i)
  }

  ghost predicate IsStep(job: Job, run: seq<State>, k: nat)
    requires job.Valid() && 0 < k < |run|
  {
    Next(job, run[k - 1], run[k])
  }

  /** A run: any interleaving, from the start. */
  ghost predicate IsRun(job: Job, run: seq<State>)
    requires job.Valid()
  {
    && run != []
    && run[0] == Init(job)
    && forall k | 0 < k < |run| :: IsStep(job, run, k)
  }

  /** g.Wait returns. */
  predicate Terminal(s: State) {
    s.launched == |s.phases| && forall i | 0 <= i < |s.phases| :: Over(s.phases[i])
  }

  // --- the invariant ------------------------------------------------------------------

  function IsCounted(): Phase -> bool { (p: Phase) => p.Counted? || p.Finished? }

  function Ticket(p: Phase): multiset<nat> { if p.Counted? then multiset{p.k} else multiset{} }

  /** The numbers handed out by the counter and not reported yet. */
  function Pending(ps: seq<Phase>): multiset<nat> {
    if ps == [] then multiset{}
    else Ticket(ps[0]) + Pending(ps[1..])
  }

  /** 1, 2, ..., n, each once. */
  function UpTo(n: nat): multiset<nat> {
    if n == 0 then multiset{} else UpTo(n - 1) + multiset{n}
  }

  ghost predicate TaskInv(job: Job, s: State, i: nat)
    requires job.Valid() && i < |job.candidates| == |s.phases| == |s.slots|
  {
    var p, expected := s.phases[i], ValidateOne(job.candidates[i], job.replies[i]);
    && (p.Waiting? <==> i >= s.launched)
    && (p.Resolved? ==> expected == Some(p.out))
    && (p.Written? || p.Counted? || p.Finished? ==> expected.Some? && s.slots[i] == expected)
    && (s.slots[i].Some? ==> p.Written? || p.Counted? || p.Finished?)
    && (p.Counted? ==> job.reporting)
    && (p.Failed? ==> s.error.Some?)
  }

  ghost predicate Inv(job: Job, s: State)
    requires job.Valid()
  {
    && |job.candidates| == |s.phases| == |s.slots|
    && s.launched <= |s.phases|
    && (forall i | 0 <= i < |s.phases| :: TaskInv(job, s, i))
    && CountIf(s.phases, InFlight()) <= job.limit
    && (job.reporting ==> s.done == CountIf(s.phases, IsCounted()))
    && (job.reporting ==> Pending(s.phases) + multiset(s.reported) == UpTo(s.done))
    && (s.error.Some? ==> s.error.value < |s.phases| && s.phases[s.error.value].Failed?
                          && job.replies[s.error.value].Fatal?)
  }

  lemma {:induction false} CountUpdate(ps: seq<Phase>, i: nat, x: Phase, p: Phase -> bool)
    requires i < |ps|
    ensures CountIf(ps[i := x], p) + (if p(ps[i]) then 1 else 0) == CountIf(ps, p) + if p(x) then 1 else 0
  {
    if i > 0 {
      CountUpdate(ps[1..], i - 1, x, p);
      assert ps[i := x][1..] == ps[1..][i - 1 := x];
    } else {
      assert ps[i := x][1..] == ps[1..];
    }
  }

  lemma SumShift(t: multiset<nat>, a: multiset<nat>, b: multiset<nat>, c: multiset<nat>, d: multiset<nat>)
    requires a + b == c + d
    ensures (t + a) + b == (t + c) + d
  {
    assert (t + a) + b == t + (a + b);
    assert (t + c) + d == t + (c + d);
  }

  lemma {:induction false} PendingUpdate(ps: seq<Phase>, i: nat, x: Phase)
    requires i < |ps|
    ensures Pending(ps[i := x]) + Ticket(ps[i]) == Pending(ps) + Ticket(x)
  {
    if i > 0 {
      PendingUpdate(ps[1..], i - 1, x);
      assert ps[i := x][1..] == ps[1..][i - 1 := x];
      SumShift(Ticket(ps[0]), Pending(ps[1..][i - 1 := x]), Ticket(ps[i]), Pending(ps[1..]), Ticket(x));
    } else {
      assert ps[i := x][1..] == ps[1..];
    }
  }

  lemma QuietUpdate(ps: seq<Phase>, i: nat, x: Phase)
    requires i < |ps| && !ps[i].Counted? && !x.Counted?
    ensures Pending(ps[i := x]) == Pending(ps)
  {
    PendingUpdate(ps, i, x);
    assert Pending(ps[i := x]) == Pending(ps[i := x]) + multiset{};
    assert Pending(ps) == Pending(ps) + multiset{};
  }

  lemma {:induction false} AllWaiting(n: nat)
    ensures var ps := seq(n, _ => Waiting);
      CountIf(ps, InFlight()) == 0 && CountIf(ps, IsCounted()) == 0 && Pending(ps) == multiset{}
  {
    var ps := seq(n, _ => Waiting);
    CountZero(ps, InFlight());
    CountZero(ps, IsCounted());
    NothingPending(ps);
  }

  lemma {:induction false} NothingPending(ps: seq<Phase>)
    requires forall p | p in ps :: !p.Counted?
    ensures Pending(ps) == multiset{}
  {
    if ps != [] { NothingPending(ps[1..]); }
  }

  lemma InitInv(job: Job)
    requires job.Valid()
    ensures Inv(job, Init(job))
  {
    AllWaiting(|job.candidates|);
  }

  lemma OthersKeep(job: Job, s: State, s': State, i: nat)
    requires job.Valid() && Inv(job, s) && i < |s.phases|
    requires s'.launched == s.launched || (s'.launched == s.launched + 1 && i == s.launched)
    requires |s'.phases| == |s.phases| && |s'.slots| == |s.slots|
    requires s'.phases == s.phases[i := s'.phases[i]] && s'.slots == s.slots[i := s'.slots[i]]
    requires s.error.Some? ==> s'.error == s.error
    ensures forall j | 0 <= j < |s.phases| && j != i :: TaskInv(job, s', j)
  {
    forall j | 0 <= j < |s.phases| && j != i ensures TaskInv(job, s', j) {
      assert TaskInv(job, s, j);
      assert s'.phases[j] == s.phases[j] && s'.slots[j] == s.slots[j];
    }
  }

  lemma LaunchKeeps(job: Job, s: State, s': State)
    requires job.Valid() && Inv(job, s) && Launch(job, s, s')
    ensures Inv(job, s')
  {
    var i := s.launched;
    assert TaskInv(job, s, i);
    OthersKeep(job, s, s', i);
    CountUpdate(s.phases, i, Running, InFlight());
    CountUpdate(s.phases, i, Running, IsCounted());
    QuietUpdate(s.phases, i, Running);
  }

  /** A change of phase that neither counts nor reports. */
  lemma PhaseKeepsCounts(s: State, i: nat, p: Phase)
    requires i < |s.phases| && InFlight()(s.phases[i])
    requires !s.phases[i].Counted? && !p.Counted? && !p.Finished?
    ensures var ps := s.phases[i := p];
      && CountIf(ps, InFlight()) <= CountIf(s.phases, InFlight())
      && CountIf(ps, IsCounted()) == CountIf(s.phases, IsCounted())
      && Pending(ps) == Pending(s.phases)
  {
    CountUpdate(s.phases, i, p, InFlight());
    CountUpdate(s.phases, i, p, IsCounted());
    QuietUpdate(s.phases, i, p);
  }

  lemma FailKeeps(job: Job, s: State, i: nat)
    requires job.Valid() && Inv(job, s) && i < |s.phases| && s.phases[i].Running?
    requires s.error.Some? || job.replies[i] == Fatal
    ensures Inv(job, Fail(s, i))
  {
    var s' := Fail(s, i);
    assert TaskInv(job, s, i);
    PhaseKeepsCounts(s, i, Failed);
    OthersKeep(job, s, s', i);
    assert TaskInv(job, s', i);
  }

  lemma AskKeeps(job: Job, s: State, s': State, i: nat)
    requires job.Valid() && Inv(job, s) && Ask(job, s, s', i)
    ensures Inv(job, s')
  {
    if ValidateOne(job.candidates[i], job.replies[i]).None? {
      FailKeeps(job, s, i);
    } else {
      assert TaskInv(job, s, i);
      PhaseKeepsCounts(s, i, s'.phases[i]);
      OthersKeep(job, s, s', i);
      assert TaskInv(job, s', i);
      assert s.error.Some? ==> s.error.value != i;
    }
  }

  lemma WriteKeeps(job: Job, s: State, s': State, i: nat)
    requires job.Valid() && Inv(job, s) && Write(job, s, s', i)
    ensures Inv(job, s')
  {
    assert TaskInv(job, s, i);
    PhaseKeepsCounts(s, i, Written);
    OthersKeep(job, s, s', i);
  }

  /** A number moves from the counter to the tasks, or from a task to the callback: the books still balance. */
  lemma TicketMoves(pending: multiset<nat>, pending': multiset<nat>, reported: seq<nat>, n: nat, k: nat)
    requires pending + multiset(reported) == UpTo(n)
    ensures k == n + 1 && pending' == pending + multiset{k} ==> pending' + multiset(reported) == UpTo(n + 1)
    ensures pending' + multiset{k} == pending ==> pending' + multiset(reported + [k]) == UpTo(n)
  {
    assert multiset(reported + [k]) == multiset(reported) + multiset{k};
  }

  lemma CountKeeps(job: Job, s: State, s': State, i: nat)
    requires job.Valid() && Inv(job, s) && Count(job, s, s', i)
    ensures Inv(job, s')
  {
    assert TaskInv(job, s, i);
    OthersKeep(job, s, s', i);
    assert TaskInv(job, s', i);
    var p := s'.phases[i];
    CountUpdate(s.phases, i, p, InFlight());
    if job.reporting {
      CountUpdate(s.phases, i, p, IsCounted());
      PendingUpdate(s.phases, i, p);
      TicketMoves(Pending(s.phases), Pending(s'.phases), s.reported, s.done, s.done + 1);
    }
  }

  lemma ReportKeeps(job: Job, s: State, s': State, i: nat)
    requires job.Valid() && Inv(job, s) && Report(job, s, s', i)
    ensures Inv(job, s')
  {
    assert TaskInv(job, s, i);
    OthersKeep(job, s, s', i);
    assert TaskInv(job, s', i);
    CountUpdate(s.phases, i, Finished, InFlight());
    CountUpdate(s.phases, i, Finished, IsCounted());
    PendingUpdate(s.phases, i, Finished);
    TicketMoves(Pending(s.phases), Pending(s'.phases), s.reported, s.done, s.phases[i].k);
  }

  lemma NextKeeps(job: Job, s: State, s': State)
    requires job.Valid() && Inv(job, s) && Next(job, s, s')
    ensures Inv(job, s')
  {
    if Launch(job, s, s') {
      LaunchKeeps(job, s, s');
    } else {
      var i: nat :| Act(job, s, s', i);
      if Ask(job, s, s', i) {
        AskKeeps(job, s, s', i);
      } else if Cancel(job, s, s', i) {
        FailKeeps(job, s, i);
      } else if Write(job, s, s', i) {
        WriteKeeps(job, s, s', i);
      } else if Count(job, s, s', i) {
        CountKeeps(job, s, s', i);
      } else {
        ReportKeeps(job, s, s', i);
      }
    }
  }

  ghost predicate Safe(job: Job, s: State)
    requires job.Valid()
  {
    Inv(job, s) && CountIf(s.phases, InFlight()) <= job.limit
  }

  lemma StaysSafe(job: Job, run: seq<State>, n: nat)
    requires job.Valid() && IsRun(job, run) && 0 < n < |run| && Safe(job, run[n - 1])
    ensures Safe(job, run[n])
  {
    assert IsStep(job, run, n);
    NextKeeps(job, run[n - 1], run[n]);
  }

  /** Every state of every run: among other things, no more than `limit` tasks in flight. */
  lemma {:induction false} RunInv(job: Job, run: seq<State>)
    requires job.Valid() && IsRun(job, run)
    ensures forall k | 0 <= k < |run| :: Inv(job, run[k]) && CountIf(run[k].phases, InFlight()) <= job.limit
  {
    for n := 0 to |run|
      invariant forall k | 0 <= k < n :: Safe(job, run[k])
    {
      if n == 0 {
        InitInv(job);
      } else {
        StaysSafe(job, run, n);
      }
    }
  }

  // --- the theorems --------------------------------------------------------------------

  /** A slot is written at most once, and only by the task it belongs to. */
  lemma SlotsAreWrittenOnce(job: Job, s: State, s': State, i: nat)
    requires job.Valid() && Inv(job, s) && Next(job, s, s')
    requires i < |s.slots| && s'.slots[i] != s.slots[i]
    ensures s.slots[i].None? && s'.slots[i] == ValidateOne(job.candidates[i], job.replies[i])
    ensures Write(job, s, s', i)
  {
    var j: nat :| Act(job, s, s', j);
    assert j == i;
    assert TaskInv(job, s, i);
  }

  function IsValidated(): Out -> bool { (o: Out) => o.candidate.validated }

  function IsTimedOut(): Out -> bool { (o: Out) => o.timedOut }

  /** What Run returns: an error, or the candidates in input order with the two tallies. */
  datatype Result = Error | Ok(candidates: seq<Candidate>, validated: nat, timedOut: nat)

  function Candidates(outs: seq<Out>): (cs: seq<Candidate>)
    ensures |cs| == |outs|
  {
    seq(|outs|, i requires 0 <= i < |outs| => outs[i].candidate)
  }

  ghost function Summary(outs: seq<Out>): Result {
    Ok(Candidates(outs), CountIf(outs, IsValidated()), CountIf(outs, IsTimedOut()))
  }

  /** The loop over the results, after g.Wait. */
  method Tally(outs: seq<Out>) returns (r: Result)
    ensures r == Summary(outs)
  {
    var validated, timedOut := 0, 0;
    for i := 0 to |outs|
      invariant validated == CountIf(outs[..i], IsValidated()) && timedOut == CountIf(outs[..i], IsTimedOut())
    {
      assert outs[..i + 1] == outs[..i] + [outs[i]];
      CountSplit(outs[..i], [outs[i]], IsValidated());
      CountSplit(outs[..i], [outs[i]], IsTimedOut());
      if outs[i].candidate.validated {
        validated := validated + 1;
      }
      if outs[i].timedOut {
        timedOut := timedOut + 1;
      }
    }
    assert outs[..|outs|] == outs;
    return Ok(Candidates(outs), validated, timedOut);
  }

  /** The sequential map: every candidate validated on its own. */
  function Outs(job: Job): seq<Out>
    requires |job.replies| == |job.candidates| && Fatal !in job.replies
  {
    seq(|job.candidates|, i requires 0 <= i < |job.candidates| => ValidateOne(job.candidates[i], job.replies[i]).value)
  }

  ghost function Sequential(job: Job): Result
    requires |job.replies| == |job.candidates|
  {
    if Fatal in job.replies then Error else Summary(Outs(job))
  }

  /** What the slots of a state come to, once the group is done. */
  ghost function Returned(s: State): Result {
    if s.error.Some? then Error
    else if forall i | 0 <= i < |s.slots| :: s.slots[i].Some? then
      Summary(seq(|s.slots|, i requires 0 <= i < |s.slots| => s.slots[i].value))
    else Error
  }

  /**
    Every interleaving comes to the same end, that of the sequential map. Without a
    fatal reply the callback has heard each of 1..n once; with one, the error is one
    that some task really had.
   */
  lemma EveryRunAgrees(job: Job, run: seq<State>)
    requires job.Valid() && IsRun(job, run) && Terminal(run[|run| - 1])
    ensures var s := run[|run| - 1];
      && Returned(s) == Sequential(job)
      && (s.error.Some? <==> Fatal in job.replies)
      && (s.error.Some? ==> s.error.value < |job.replies| && job.replies[s.error.value] == Fatal)
      && (s.error.None? && job.reporting ==> multiset(s.reported) == UpTo(|job.candidates|))
  {
    RunInv(job, run);
    var s := run[|run| - 1];
    forall i | 0 <= i < |s.phases|
      ensures s.phases[i].Finished? ==>
        s.slots[i] == ValidateOne(job.candidates[i], job.replies[i]) && s.slots[i].Some? && job.replies[i] != Fatal
      ensures s.phases[i].Failed? ==> s.error.Some?
      ensures Over(s.phases[i])
    {
      assert TaskInv(job, s, i);
    }
    if s.error.None? {
      assert seq(|s.slots|, i requires 0 <= i < |s.slots| => s.slots[i].value) == Outs(job);
      AllFinished(s.phases);
    }
  }

  /**
    What validation may say of a candidate: an answer gives its verdict, any other reply leaves
    the candidate unvalidated, and only the time ceiling counts as timed out. What it is about
    and what earned it its place stay.
   */
  ghost predicate IsResolvedBy(c: Candidate, reply: Reply, out: Out) {
    && out.candidate.Identity() == c.Identity()
    && out.candidate.signals == c.signals && out.candidate.metaScore == c.metaScore
    && (out.candidate.validated <==> c.validated || reply.Answer?)
    && (reply.Answer? ==> out.candidate.verdict == reply.verdict)
    && (!reply.Answer? ==> out.candidate.verdict == Unvalidated)
    && (out.timedOut <==> reply == TimeCeiling)
  }

  /** Every candidate is resolved by its own reply, and the order is the input's. */
  lemma ResultsKeepOrder(job: Job)
    requires |job.replies| == |job.candidates| && Fatal !in job.replies
    ensures |Outs(job)| == |Candidates(Outs(job))| == |job.candidates|
    ensures forall i | 0 <= i < |job.candidates| ::
      Candidates(Outs(job))[i] == Outs(job)[i].candidate
      && IsResolvedBy(job.candidates[i], job.replies[i], Outs(job)[i])
  {
    forall i | 0 <= i < |job.candidates| ensures IsResolvedBy(job.candidates[i], job.replies[i], Outs(job)[i]) {
      assert job.replies[i] in job.replies;
    }
  }

  lemma {:induction false} AllFinished(ps: seq<Phase>)
    requires forall i | 0 <= i < |ps| :: ps[i].Finished?
    ensures CountIf(ps, IsCounted()) == |ps| && Pending(ps) == multiset{}
  {
    if ps != [] {
      AllFinished(ps[1..]);
    }
  }

  /** What 1..n each once says: a callback heard every count from 1 to n, and no other. */
  lemma {:induction false} UpToIsEach(n: nat, k: nat)
    ensures UpTo(n)[k] == if 1 <= k <= n then 1 else 0
  {
    if n > 0 { UpToIsEach(n - 1, k); }
  }

  function IsUnprivileged(): Reply -> bool { r => r == NoPrivilege }

  /**
    The account: validated, timed out, and resolved for want of a privilege make up
    everything that entered; the first two alone do so only when no privilege was missing.
   */
  lemma {:induction false} AccountCloses(job: Job)
    requires |job.replies| == |job.candidates| && Fatal !in job.replies
    requires forall c | c in job.candidates :: !c.validated
    ensures var validated, timedOut := CountIf(Outs(job), IsValidated()), CountIf(Outs(job), IsTimedOut());
      && validated + timedOut + CountIf(job.replies, IsUnprivileged()) == |job.candidates|
      && (validated + timedOut == |job.candidates| <==> NoPrivilege !in job.replies)
    decreases |job.candidates|
  {
    CountZero(job.replies, IsUnprivileged());
    if job.candidates != [] {
      var rest := job.(candidates := job.candidates[1..], replies := job.replies[1..]);
      assert job.candidates[0] in job.candidates && job.replies[0] in job.replies;
      AccountCloses(rest);
      assert Outs(job)[1..] == Outs(rest);
    }
  }

  /** It stays open for one candidate whose table may not be read: neither validated nor timed out. */
  lemma AccountCanStayOpen(c: Candidate, reporting: bool)
    requires !c.validated
    ensures var job := Job([c], [NoPrivilege], DEFAULT_CONCURRENCY, reporting);
      && job.Valid() && Fatal !in job.replies
      && Sequential(job) == Ok([c.(verdict := Unvalidated)], 0, 0)
      && 0 + 0 != |job.candidates|
  {
    var job := Job([c], [NoPrivilege], DEFAULT_CONCURRENCY, reporting);
    var out := Out(c.(verdict := Unvalidated), false);
    assert Outs(job) == [out];
    assert Candidates([out]) == [out.candidate];
    assert [out][1..] == [];
  }

  // --- no run gets stuck, and every run ends ------------------------------------------------

  /** A state that is not terminal has a step. */
  lemma Progress(job: Job, s: State)
    requires job.Valid() && Inv(job, s) && !Terminal(s)
    ensures exists s' :: Next(job, s, s')
  {
    if i :| 0 <= i < |s.phases| && InFlight()(s.phases[i]) {
      assert TaskInv(job, s, i);
      var s' := match s.phases[i]
        case Running => (match ValidateOne(job.candidates[i], job.replies[i])
                         case Some(out) => s.(phases := s.phases[i := Resolved(out)])
                         case None => Fail(s, i))
        case Resolved(out) => s.(phases := s.phases[i := Written], slots := s.slots[i := Some(out)])
        case Written =>
          if job.reporting then s.(done := s.done + 1, phases := s.phases[i := Counted(s.done + 1)])
          else s.(phases := s.phases[i := Finished])
        case Counted(k) => s.(reported := s.reported + [k], phases := s.phases[i := Finished])
        case _ => s;
      assert Act(job, s, s', i);
      assert Next(job, s, s');
    } else {
      CountZero(s.phases, InFlight());
      forall i | 0 <= i < |s.phases| ensures s.phases[i].Waiting? || Over(s.phases[i]) {
        assert !InFlight()(s.phases[i]);
      }
      forall i | 0 <= i < |s.phases| ensures s.phases[i].Waiting? <==> i >= s.launched {
        assert TaskInv(job, s, i);
      }
      var s' := s.(launched := s.launched + 1, phases := s.phases[s.launched := Running]);
      assert Launch(job, s, s');
      assert Next(job, s, s');
    }
  }

  function Rank(p: Phase): nat {
    match p
    case Waiting => 5
    case Running => 4
    case Resolved(_) => 3
    case Written => 2
    case Counted(_) => 1
    case Finished => 0
    case Failed => 0
  }

  /** The actions that are left. */
  function Left(ps: seq<Phase>): nat {
    if ps == [] then 0 else Rank(ps[0]) + Left(ps[1..])
  }

  lemma {:induction false} LeftUpdate(ps: seq<Phase>, i: nat, x: Phase)
    requires i < |ps|
    ensures Left(ps[i := x]) + Rank(ps[i]) == Left(ps) + Rank(x)
  {
    if i > 0 {
      LeftUpdate(ps[1..], i - 1, x);
      assert ps[i := x][1..] == ps[1..][i - 1 := x];
    } else {
      assert ps[i := x][1..] == ps[1..];
    }
  }

  lemma ActRanks(job: Job, s: State, s': State, i: nat)
    requires job.Valid() && Act(job, s, s', i)
    ensures i < |s.phases| == |s'.phases|
    ensures s'.phases == s.phases[i := s'.phases[i]] && Rank(s'.phases[i]) < Rank(s.phases[i])
  {
  }

  lemma StepsRunOut(job: Job, s: State, s': State)
    requires job.Valid() && Inv(job, s) && Next(job, s, s')
    ensures Left(s'.phases) < Left(s.phases)
  {
    if Launch(job, s, s') {
      assert TaskInv(job, s, s.launched);
      LeftUpdate(s.phases, s.launched, Running);
    } else {
      var i: nat :| Act(job, s, s', i);
      ActRanks(job, s, s', i);
      LeftUpdate(s.phases, i, s'.phases[i]);
    }
  }

  lemma {:induction false} LeftAtStart(n: nat)
    ensures Left(seq(n, _ => Waiting)) == 5 * n
  {
    if n > 0 {
      LeftAtStart(n - 1);
      assert seq(n, _ => Waiting)[1..] == seq(n - 1, _ => Waiting);
    }
  }

  lemma StepRunsOut(job: Job, run: seq<State>, k: nat)
    requires job.Valid() && IsRun(job, run) && 0 < k < |run| && Inv(job, run[k - 1])
    ensures Left(run[k].phases) < Left(run[k - 1].phases)
  {
    assert IsStep(job, run, k);
    StepsRunOut(job, run[k - 1], run[k]);
  }

  /** No run takes more than five steps per candidate. */
  lemma {:induction false} RunsEnd(job: Job, run: seq<State>)
    requires job.Valid() && IsRun(job, run)
    ensures Left(run[|run| - 1].phases) + |run| - 1 <= 5 * |job.candidates|
  {
    LeftAtStart(|job.candidates|);
    RunInv(job, run);
    for k := 0 to |run| - 1
      invariant Left(run[k].phases) + k <= 5 * |job.candidates|
    {
      StepRunsOut(job, run, k + 1);
    }
  }
}
