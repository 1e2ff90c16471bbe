/**
  Composite inference, internal/infer/composite.go: collecting the complete readings
  of every target, settling what happens when several targets answer to the same
  columns, and turning what is left into candidates.
 */
module Composite {
  import opened Text
  import opened Model
  import opened Counting
  import opened Grouping
  import opened TableForms
  import opened CompositeKeys

  datatype Derivation = Mirror | Anchored

  /** One complete reading of a target's key; the origin means something for an anchored one only. */
  datatype KeyMatch = KeyMatch(target: Table, columns: seq<string>, derivation: Derivation, origin: Origin)
  {
    function Signature(): string { Lower(Join(columns, ",")) }
  }

  datatype CompositeTarget = CompositeTarget(table: Table, forms: seq<Form>)

  // --- one child, one target -------------------------------------------------------------

  predicate SameColumns(a: seq<string>, b: seq<string>) {
    |a| == |b| && forall i | 0 <= i < |a| :: EqualFold(a[i], b[i])
  }

  /** Position by position, the columns are named after the key, or after a form and the key. */
  ghost predicate Aligned(target: CompositeTarget, m: KeyMatch) {
    match m.derivation
    case Mirror => MirrorsKey(m.columns, target.table.primaryKey)
    case Anchored => exists f :: f in target.forms && f.origin == m.origin
                                 && AnchorsKey(m.columns, target.table.primaryKey, f.value)
  }

  /** What a complete reading has to be. */
  ghost predicate IsReading(child: Table, target: CompositeTarget, m: KeyMatch) {
    && m.target == target.table
    && |m.columns| == |target.table.primaryKey|
    && IsUsable(child, target.table, m.columns)
    && !(child.Ref() == target.table.Ref() && SameColumns(m.columns, target.table.primaryKey))
    && Aligned(target, m)
  }

  ghost predicate DistinctSignatures(ms: seq<KeyMatch>) {
    forall i, j | 0 <= i < j < |ms| :: ms[i].Signature() != ms[j].Signature()
  }

  function MirrorAttempt(child: Table, target: Table): KeyMatch {
    KeyMatch(target, Kept(MirrorReadings(child, target.primaryKey)), Mirror, Exact)
  }

  function AnchoredAttempt(child: Table, target: Table, f: Form): KeyMatch {
    KeyMatch(target, Kept(AnchoredReadings(child, target.primaryKey, f.value)), Anchored, f.origin)
  }

  predicate HasAnchor(child: Table, key: seq<string>, form: string) {
    exists k :: k in key && IsAnchored(child, form, k)
  }

  /** What matchKey tries, in order: the mirror reading, then each form that anchors some position. */
  function Attempts(child: Table, target: Table, forms: seq<Form>): seq<KeyMatch> {
    if forms == [] then [MirrorAttempt(child, target)]
    else
      var f := forms[|forms| - 1];
      Attempts(child, target, forms[..|forms| - 1]) +
      if HasAnchor(child, target.primaryKey, f.value) then [AnchoredAttempt(child, target, f)] else []
  }

  ghost function Signatures(ms: seq<KeyMatch>): set<string> { set m | m in ms :: m.Signature() }

  /** The attempts that are readings, without those whose columns an earlier reading has. */
  ghost function Readable(child: Table, target: CompositeTarget, attempts: seq<KeyMatch>): seq<KeyMatch> {
    if attempts == [] then []
    else
      var m := attempts[|attempts| - 1];
      var before := Readable(child, target, attempts[..|attempts| - 1]);
      if IsReading(child, target, m) && m.Signature() !in Signatures(before) then before + [m] else before
  }

  /** The columns of the longest attempt that falls short of n, the first one if several are that long. */
  ghost function Nearest(attempts: seq<KeyMatch>, n: nat): seq<string> {
    if attempts == [] then []
    else
      var m := attempts[|attempts| - 1];
      var before := Nearest(attempts[..|attempts| - 1], n);
      if |before| < |m.columns| < n then m.columns else before
  }

  ghost function ReadingsOf(child: Table, target: CompositeTarget): seq<KeyMatch> {
    Readable(child, target, Attempts(child, target.table, target.forms))
  }

  /** The readings of one target so far: the variables matchKey closes over. */
  class Readings {
    const child: Table
    const target: CompositeTarget
    var complete: seq<KeyMatch>
    var partial: seq<string>
    var seen: set<string>
    ghost var attempts: seq<KeyMatch>

    ghost predicate Valid()
      reads this
    {
      && complete == Readable(child, target, attempts)
      && partial == Nearest(attempts, |target.table.primaryKey|)
      && seen == Signatures(complete)
    }

    constructor (child: Table, target: CompositeTarget)
      ensures Valid() && attempts == []
      ensures this.child == child && this.target == target
    {
      this.child, this.target := child, target;
      complete, partial, seen, attempts := [], [], {}, [];
    }

    /** The `add` of matchKey. */
    method Add(m: KeyMatch)
      requires Valid() && m.target == target.table
      requires |m.columns| <= |target.table.primaryKey|
      requires |m.columns| == |target.table.primaryKey| ==> Aligned(target, m)
      modifies this
      ensures Valid() && attempts == old(attempts) + [m]
    {
      OneMoreAttempt(child, target, attempts, m);
      attempts := attempts + [m];
      if |m.columns| < |target.table.primaryKey| {
        if |m.columns| > |partial| {
          partial := m.columns;
        }
        return;
      }
      var offered := Offered(child, target, m);
      if !offered {
        return;
      }
      if m.Signature() in seen {
        return;
      }
      SignaturesSnoc(complete, m);
      seen := seen + {m.Signature()};
      complete := complete + [m];
    }
  }

  /** A complete reading is kept unless it is a tautology or the child cannot offer it. */
  method Offered(child: Table, target: CompositeTarget, m: KeyMatch) returns (ok: bool)
    requires m.target == target.table && |m.columns| == |target.table.primaryKey| && Aligned(target, m)
    ensures ok <==> IsReading(child, target, m)
  {
    if child.Ref() == target.table.Ref() && SameColumns(m.columns, target.table.primaryKey) {
      return false;
    }
    ok := Usable(child, target.table, m.columns);
  }

  lemma OneMoreAttempt(child: Table, target: CompositeTarget, attempts: seq<KeyMatch>, m: KeyMatch)
    ensures var before := Readable(child, target, attempts);
      Readable(child, target, attempts + [m]) ==
      if IsReading(child, target, m) && m.Signature() !in Signatures(before) then before + [m] else before
    ensures forall n: nat ::
      Nearest(attempts + [m], n) ==
        (if |Nearest(attempts, n)| < |m.columns| < n then m.columns else Nearest(attempts, n))
  {
    assert (attempts + [m])[..|attempts|] == attempts;
  }

  lemma SignaturesSnoc(ms: seq<KeyMatch>, m: KeyMatch)
    ensures Signatures(ms + [m]) == Signatures(ms) + {m.Signature()}
  {
    forall s | s in Signatures(ms) + {m.Signature()} ensures s in Signatures(ms + [m]) {
      if s == m.Signature() {
        assert m in ms + [m];
      } else {
        var x :| x in ms && x.Signature() == s;
        assert x in ms + [m];
      }
    }
  }

  /** Readings among the attempts, no two with one signature, and no signature of a reading missing. */
  ghost predicate AreReadings(child: Table, target: CompositeTarget, attempts: seq<KeyMatch>, rs: seq<KeyMatch>) {
    && (forall m | m in rs :: m in attempts && IsReading(child, target, m))
    && DistinctSignatures(rs)
    && (forall m | m in attempts && IsReading(child, target, m) :: m.Signature() in Signatures(rs))
  }

  lemma ReadingAdded(child: Table, target: CompositeTarget, attempts: seq<KeyMatch>, m: KeyMatch, rs: seq<KeyMatch>)
    requires AreReadings(child, target, attempts, rs)
    ensures IsReading(child, target, m) && m.Signature() !in Signatures(rs) ==>
      AreReadings(child, target, attempts + [m], rs + [m])
    ensures !IsReading(child, target, m) || m.Signature() in Signatures(rs) ==>
      AreReadings(child, target, attempts + [m], rs)
  {
    SignaturesSnoc(rs, m);
    if IsReading(child, target, m) && m.Signature() !in Signatures(rs) {
      forall i | 0 <= i < |rs| ensures rs[i].Signature() != m.Signature() {
        assert rs[i] in rs;
      }
    }
  }

  lemma {:induction false} ReadableExactly(child: Table, target: CompositeTarget, attempts: seq<KeyMatch>)
    ensures AreReadings(child, target, attempts, Readable(child, target, attempts))
  {
    if attempts != [] {
      var before, m := attempts[..|attempts| - 1], attempts[|attempts| - 1];
      ReadableExactly(child, target, before);
      assert attempts == before + [m];
      ReadingAdded(child, target, before, m, Readable(child, target, before));
    }
  }

  /** One anchored attempt, if the form anchors some position. */
  method TryForm(readings: Readings, f: Form)
    requires readings.Valid() && f in readings.target.forms
    modifies readings
    ensures readings.Valid()
    ensures readings.attempts == old(readings.attempts)
      + if HasAnchor(readings.child, readings.target.table.primaryKey, f.value)
        then [AnchoredAttempt(readings.child, readings.target.table, f)] else []
  {
    var child, target := readings.child, readings.target.table;
    var cols, anchors := ResolveAnchored(child, target, f.value);
    if anchors == 0 {
      return;
    }
    if |cols| == |target.primaryKey| {
      AnchoredAligns(child, target.primaryKey, f.value);
    }
    readings.Add(KeyMatch(target, cols, Anchored, f.origin));
  }

  /** matchKey: the mirror reading, then one anchored reading per form of the target's name. */
  method MatchKey(child: Table, target: CompositeTarget) returns (complete: seq<KeyMatch>, partial: seq<string>)
    ensures complete == ReadingsOf(child, target)
    ensures partial == Nearest(Attempts(child, target.table, target.forms), |target.table.primaryKey|)
  {
    var readings := new Readings(child, target);
    var cols := ResolveMirror(child, target.table);
    if |cols| == |target.table.primaryKey| {
      MirrorAligns(child, target.table.primaryKey);
    }
    readings.Add(KeyMatch(target.table, cols, Mirror, Exact));
    for i := 0 to |target.forms|
      invariant readings.Valid() && readings.child == child && readings.target == target && fresh(readings)
      invariant readings.attempts == Attempts(child, target.table, target.forms[..i])
    {
      assert target.forms[..i + 1][..i] == target.forms[..i];
      TryForm(readings, target.forms[i]);
    }
    assert target.forms[..|target.forms|] == target.forms;
    return readings.complete, readings.partial;
  }

  // --- several targets, the same columns -----------------------------------------------------

  /** scoped: a match, and whether its target had company. */
  datatype Scoped = Scoped(keyMatch: KeyMatch, ambiguous: bool)

  function SignatureOf(): KeyMatch -> string { (m: KeyMatch) => m.Signature() }

  /** The matches that share m's key, which is its signature. */
  function Peers(ms: seq<KeyMatch>, key: KeyMatch -> string, m: KeyMatch): seq<KeyMatch> { GroupOf(ms, key, key(m)) }

  predicate HasMirror(group: seq<KeyMatch>) {
    exists m :: m in group && m.derivation == Mirror
  }

  /** Alone with its columns, or anchored like every other match for them. */
  predicate Emittable(group: seq<KeyMatch>) { |group| == 1 || !HasMirror(group) }

  function Matches(out: seq<Scoped>): seq<KeyMatch> {
    seq(|out|, i requires 0 <= i < |out| => out[i].keyMatch)
  }

  ghost predicate Settled(ms: seq<KeyMatch>, key: KeyMatch -> string, out: seq<Scoped>, skipped: seq<KeyMatch>) {
    && (forall s | s in out :: s.keyMatch in ms && Emittable(Peers(ms, key, s.keyMatch)))
    && (forall s | s in out :: s.ambiguous <==> |Peers(ms, key, s.keyMatch)| > 1)
    && (forall m | m in skipped :: m in ms && !Emittable(Peers(ms, key, m)))
  }

  /** What becomes of one group. */
  function Settle(group: seq<KeyMatch>): (r: (seq<Scoped>, seq<KeyMatch>))
    ensures multiset(Matches(r.0)) + multiset(r.1) == multiset(group)
    ensures forall s | s in r.0 :: s.keyMatch in group && Emittable(group) && (s.ambiguous <==> |group| > 1)
    ensures forall m | m in r.1 :: m in group && !Emittable(group)
  {
    if |group| == 1 then
      assert Matches([Scoped(group[0], false)]) == group;
      ([Scoped(group[0], false)], [])
    else if HasMirror(group) then ([], group)
    else
      var all := seq(|group|, i requires 0 <= i < |group| => Scoped(group[i], true));
      assert Matches(all) == group;
      (all, [])
  }

  lemma MatchesConcat(a: seq<Scoped>, b: seq<Scoped>)
    ensures Matches(a + b) == Matches(a) + Matches(b)
  {
  }

  lemma SettledOneMore(ms: seq<KeyMatch>, key: KeyMatch -> string, sig: string, out: seq<Scoped>,
                       skipped: seq<KeyMatch>, moreOut: seq<Scoped>, moreSkipped: seq<KeyMatch>)
    requires Settled(ms, key, out, skipped)
    requires var group := GroupOf(ms, key, sig);
             && (forall s | s in moreOut :: s.keyMatch in group && Emittable(group) && (s.ambiguous <==> |group| > 1))
             && (forall m | m in moreSkipped :: m in group && !Emittable(group))
    ensures Settled(ms, key, out + moreOut, skipped + moreSkipped)
  {
    var group := GroupOf(ms, key, sig);
    forall s | s in moreOut ensures s.keyMatch in ms && Peers(ms, key, s.keyMatch) == group {
      assert s.keyMatch in group;
    }
    forall m | m in moreSkipped ensures m in ms && Peers(ms, key, m) == group {
      assert m in group;
    }
  }

  /** So far, the matches with one of these keys are settled, and only they. */
  ghost predicate Accounted(ms: seq<KeyMatch>, key: KeyMatch -> string, sigs: seq<string>, out: seq<Scoped>,
                            skipped: seq<KeyMatch>) {
    && multiset(Matches(out)) + multiset(skipped) == multiset(Filter(ms, KeyAmong(key, sigs)))
    && Settled(ms, key, out, skipped)
  }

  lemma AccountedOneMore(ms: seq<KeyMatch>, key: KeyMatch -> string, sigs: seq<string>, sig: string, out: seq<Scoped>,
                         skipped: seq<KeyMatch>)
    requires Accounted(ms, key, sigs, out, skipped) && sig !in sigs
    ensures var more := Settle(GroupOf(ms, key, sig));
            Accounted(ms, key, sigs + [sig], out + more.0, skipped + more.1)
  {
    var more := Settle(GroupOf(ms, key, sig));
    AmongOneMore(ms, key, sigs, sig);
    SettledOneMore(ms, key, sig, out, skipped, more.0, more.1);
    MatchesConcat(out, more.0);
  }

  /** resolveAmbiguity: every match is emitted or skipped, never both and never neither. */
  method ResolveAmbiguity(ms: seq<KeyMatch>, key: KeyMatch -> string) returns (out: seq<Scoped>, skipped: seq<KeyMatch>)
    ensures multiset(Matches(out)) + multiset(skipped) == multiset(ms)
    ensures Settled(ms, key, out, skipped)
  {
    var groups, order := GroupInOrder(ms, key);
    out, skipped := [], [];
    AmongNone(ms, key);
    for i := 0 to |order|
      invariant Accounted(ms, key, order[..i], out, skipped)
    {
      assert order[..i + 1] == order[..i] + [order[i]];
      AccountedOneMore(ms, key, order[..i], order[i], out, skipped);
      var more := Settle(groups[order[i]]);
      out, skipped := out + more.0, skipped + more.1;
    }
    assert order[..|order|] == order;
    AmongAll(ms, key, order);
  }

  lemma {:induction false} JoinFolds(a: seq<string>, b: seq<string>)
    requires SameColumns(a, b)
    ensures EqualFold(Join(a, ","), Join(b, ","))
  {
    if |a| > 1 {
      JoinFolds(a[1..], b[1..]);
      LowerConcat(a[0] + ",", Join(a[1..], ","));
      LowerConcat(b[0] + ",", Join(b[1..], ","));
      LowerConcat(a[0], ",");
      LowerConcat(b[0], ",");
    }
  }

  /** A match without a name is emitted only if nothing else reads the same columns. */
  lemma MirrorNeedsUniqueColumns(ms: seq<KeyMatch>, i: nat, j: nat)
    requires i < |ms| && j < |ms| && i != j
    requires ms[i].derivation == Mirror && Emittable(Peers(ms, SignatureOf(), ms[i]))
    ensures ms[i].Signature() != ms[j].Signature() && !SameColumns(ms[i].columns, ms[j].columns)
  {
    var sig := ms[i].Signature();
    assert ms[i] in GroupOf(ms, SignatureOf(), sig);
    if ms[j].Signature() == sig {
      TwoInGroup(ms, if i < j then i else j, if i < j then j else i, SignatureOf(), sig);
    }
    if SameColumns(ms[i].columns, ms[j].columns) { JoinFolds(ms[i].columns, ms[j].columns); }
  }
}
