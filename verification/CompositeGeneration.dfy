/**
  generateComposite of internal/infer/composite.go as a whole: what every candidate it
  emits is, and that no two are about the same pair.
 */
module CompositeGeneration {
  import opened Model
  import opened Scoring
  import opened Counting
  import opened Pairs
  import opened Profile
  import opened Sorting
  import opened TableForms
  import opened CompositeKeys
  import opened Composite
  import opened CompositeCandidates

  // --- what a composite candidate is ----------------------------------------------------------

  /** Arity, columns, types, no tautology, and a name behind every position. */
  ghost predicate WellFormed(child: Table, target: CompositeTarget, c: Candidate) {
    && |c.child.columns| == |c.parent.columns| >= 2
    && IsUsable(child, target.table, c.child.columns)
    && c.parent == KeyRef(target.table.schema, target.table.name, target.table.primaryKey)
    && c.child.schema == child.schema && c.child.table == child.name
    && !(child.Ref() == target.table.Ref() && SameColumns(c.child.columns, c.parent.columns))
    && (MirrorsKey(c.child.columns, c.parent.columns)
        || exists f :: f in target.forms && AnchorsKey(c.child.columns, c.parent.columns, f.value))
    && IsGenerated(c)
  }

  lemma SignalsAreInferred(child: Table, cols: seq<Column>, m: KeyMatch, fit: TypeMatch, ambiguous: bool)
    ensures NoJoins(CompositeSignals(child, cols, m, fit, ambiguous))
    ensures !Has(CompositeSignals(child, cols, m, fit, ambiguous), GenericDomain)
  {
    forall k | IsJoinKind(k) || k == GenericDomain ensures !Has(CompositeSignals(child, cols, m, fit, ambiguous), k) {
      SignalsSay(child, cols, m, fit, ambiguous, k);
    }
  }

  lemma DescribedIsGenerated(child: Table, s: Scoped, c: Candidate)
    requires Describes(child, s, c)
    ensures IsGenerated(c)
  {
    var m := s.keyMatch;
    var cs, ps := ColumnsOf(child, m.columns).value, ColumnsOf(m.target, m.target.primaryKey).value;
    SignalsAreInferred(child, cs, m, if AllIdentical(cs, ps) then Identical else Compatible, s.ambiguous);
    NoneIsPenalized(c.signals);
    NoJoinsIsOnce(c.signals);
  }

  lemma ReadingIsWellFormed(child: Table, target: CompositeTarget, s: Scoped, c: Candidate)
    requires |target.table.primaryKey| >= 2
    requires IsReading(child, target, s.keyMatch) && Describes(child, s, c)
    ensures WellFormed(child, target, c)
  {
    DescribedIsGenerated(child, s, c);
  }

  lemma ComesFromReading(child: Table, targets: seq<CompositeTarget>, scoped: seq<Scoped>, left: seq<KeyMatch>, i: nat,
                         c: Candidate)
    requires forall t | t in targets :: |t.table.primaryKey| >= 2
    requires Settled(MatchesOf(child, targets), SignatureOf(), scoped, left)
    requires i < |scoped| && Describes(child, scoped[i], c)
    ensures exists t :: t in targets && WellFormed(child, t, c)
  {
    var m := scoped[i].keyMatch;
    assert scoped[i] in scoped;
    MatchesAreReadings(child, targets);
    var t :| t in targets && IsReading(child, t, m);
    ReadingIsWellFormed(child, t, scoped[i], c);
  }

  // --- no pair twice ----------------------------------------------------------------------------

  function MatchTargetOf(): KeyMatch -> string { (m: KeyMatch) => m.target.Ref() }

  lemma {:induction false} MatchesApart(child: Table, targets: seq<CompositeTarget>)
    requires DistinctBy(targets, TargetRefOf())
    ensures DistinctBy(MatchesOf(child, targets), MatchTargetOf())
  {
    if targets != [] {
      var n := |targets| - 1;
      var t := targets[n];
      assert targets == targets[..n] + [t];
      DistinctBySnoc(targets[..n], t, TargetRefOf());
      MatchesApart(child, targets[..n]);
      ReadableExactly(child, t, Attempts(child, t.table, t.forms));
      var readings := ReadingsOf(child, t);
      if |readings| == 1 {
        assert readings == [readings[0]] && readings[0] in readings;
        forall m | m in MatchesOf(child, targets[..n]) ensures MatchTargetOf()(m) != MatchTargetOf()(readings[0]) {
          MatchesAreReadings(child, targets[..n]);
          var u :| u in targets[..n] && IsReading(child, u, m);
          assert TargetRefOf()(u) != TargetRefOf()(t);
        }
        DistinctBySnoc(MatchesOf(child, targets[..n]), readings[0], MatchTargetOf());
      } else {
        assert MatchesOf(child, targets) == MatchesOf(child, targets[..n]);
      }
    }
  }

  lemma EmittedApart(child: Table, targets: seq<CompositeTarget>, scoped: seq<Scoped>, left: seq<KeyMatch>,
                     cs: seq<Candidate>)
    requires DistinctBy(targets, TargetRefOf())
    requires multiset(Matches(scoped)) + multiset(left) == multiset(MatchesOf(child, targets))
    requires |cs| == |scoped|
    requires forall i | 0 <= i < |scoped| :: Describes(child, scoped[i], cs[i])
    ensures DistinctPairs(cs)
  {
    MatchesApart(child, targets);
    DistinctByPart(Matches(scoped), MatchesOf(child, targets), MatchTargetOf());
    forall i, j | 0 <= i < j < |cs| ensures ParentRefOf()(cs[i]) != ParentRefOf()(cs[j]) {
      assert MatchTargetOf()(Matches(scoped)[i]) != MatchTargetOf()(Matches(scoped)[j]);
      ParentOfMatch(child, scoped[i], cs[i]);
      ParentOfMatch(child, scoped[j], cs[j]);
    }
    ParentsApart(cs);
  }

  lemma ParentOfMatch(child: Table, s: Scoped, c: Candidate)
    requires Describes(child, s, c)
    ensures ParentRefOf()(c) == MatchTargetOf()(s.keyMatch)
  {
  }

  // --- all tables --------------------------------------------------------------------------------

  /** The candidate of a target the child reads in one way, where the columns it reads are settled. */
  ghost predicate IsEmitted(child: Table, matches: seq<KeyMatch>, m: KeyMatch, c: Candidate) {
    var peers := Peers(matches, SignatureOf(), m);
    m in matches && Emittable(peers) && Describes(child, Scoped(m, |peers| > 1), c)
  }

  ghost predicate Emits(child: Table, targets: seq<CompositeTarget>, c: Candidate) {
    exists m :: IsEmitted(child, MatchesOf(child, targets), m, c)
  }

  /** m is the one way the child reads some target. */
  ghost predicate OnlyReading(child: Table, targets: seq<CompositeTarget>, m: KeyMatch) {
    exists t :: t in targets && ReadingsOf(child, t) == [m]
  }

  lemma OnlyReadingMore(child: Table, before: seq<CompositeTarget>, t: CompositeTarget, m: KeyMatch)
    ensures OnlyReading(child, before + [t], m) <==> OnlyReading(child, before, m) || ReadingsOf(child, t) == [m]
  {
    if OnlyReading(child, before, m) {
      var u :| u in before && ReadingsOf(child, u) == [m];
      assert u in before + [t];
    }
    assert t in before + [t];
  }

  lemma MatchesMore(child: Table, before: seq<CompositeTarget>, t: CompositeTarget, m: KeyMatch)
    ensures m in MatchesOf(child, before + [t]) <==> m in MatchesOf(child, before) || ReadingsOf(child, t) == [m]
  {
    assert (before + [t])[..|before|] == before;
    var readings := ReadingsOf(child, t);
    if |readings| == 1 {
      assert readings == [readings[0]];
    }
  }

  /** The matches are the targets read in exactly one way. */
  lemma {:induction false} MatchesExactly(child: Table, targets: seq<CompositeTarget>, m: KeyMatch)
    ensures m in MatchesOf(child, targets) <==> OnlyReading(child, targets, m)
  {
    if targets != [] {
      var before, t := targets[..|targets| - 1], targets[|targets| - 1];
      assert targets == before + [t];
      MatchesExactly(child, before, m);
      MatchesMore(child, before, t, m);
      OnlyReadingMore(child, before, t, m);
    }
  }

  /** What is settled is emitted with its own ambiguity, and nothing emittable is left. */
  lemma SettledHas(ms: seq<KeyMatch>, scoped: seq<Scoped>, left: seq<KeyMatch>, m: KeyMatch) returns (i: nat)
    requires multiset(Matches(scoped)) + multiset(left) == multiset(ms)
    requires Settled(ms, SignatureOf(), scoped, left)
    requires m in ms && Emittable(Peers(ms, SignatureOf(), m))
    ensures i < |scoped| && scoped[i] == Scoped(m, |Peers(ms, SignatureOf(), m)| > 1)
  {
    assert m in multiset(ms) && m !in left;
    assert m in multiset(Matches(scoped));
    i :| 0 <= i < |scoped| && Matches(scoped)[i] == m;
    assert scoped[i] in scoped;
  }

  lemma SettledIs(ms: seq<KeyMatch>, scoped: seq<Scoped>, left: seq<KeyMatch>, i: nat)
    requires Settled(ms, SignatureOf(), scoped, left) && i < |scoped|
    ensures var m := scoped[i].keyMatch;
      && m in ms && Emittable(Peers(ms, SignatureOf(), m))
      && scoped[i] == Scoped(m, |Peers(ms, SignatureOf(), m)| > 1)
  {
    assert scoped[i] in scoped;
  }

  lemma EmittedExactly(child: Table, targets: seq<CompositeTarget>, scoped: seq<Scoped>, left: seq<KeyMatch>,
                       cs: seq<Candidate>)
    requires multiset(Matches(scoped)) + multiset(left) == multiset(MatchesOf(child, targets))
    requires Settled(MatchesOf(child, targets), SignatureOf(), scoped, left)
    requires |cs| == |scoped|
    requires forall i | 0 <= i < |scoped| :: Describes(child, scoped[i], cs[i])
    ensures forall c :: c in cs <==> Emits(child, targets, c)
  {
    var ms := MatchesOf(child, targets);
    forall c | c in cs ensures Emits(child, targets, c) {
      var i :| 0 <= i < |cs| && cs[i] == c;
      SettledIs(ms, scoped, left, i);
      assert IsEmitted(child, ms, scoped[i].keyMatch, c);
    }
    forall c | Emits(child, targets, c) ensures c in cs {
      var m :| IsEmitted(child, ms, m, c);
      var i := SettledHas(ms, scoped, left, m);
      assert cs[i] == c;
    }
  }

  /** One composite pass over a child, seen from outside. */
  method CompositePass(child: Table, targets: seq<CompositeTarget>) returns (candidates: seq<Candidate>)
    requires forall t | t in targets :: |t.table.primaryKey| >= 2
    ensures forall c :: c in candidates <==> Emits(child, targets, c)
    ensures forall c | c in candidates :: exists t :: t in targets && WellFormed(child, t, c)
    ensures DistinctBy(targets, TargetRefOf()) ==> DistinctPairs(candidates)
  {
    var found, _, scoped, left := CompositeFor(child, targets);
    candidates := found;
    EmittedExactly(child, targets, scoped, left, candidates);
    forall i | 0 <= i < |candidates| ensures exists t :: t in targets && WellFormed(child, t, candidates[i]) {
      ComesFromReading(child, targets, scoped, left, i, candidates[i]);
    }
    if DistinctBy(targets, TargetRefOf()) {
      EmittedApart(child, targets, scoped, left, candidates);
    }
  }

  ghost predicate FromTables(p: Profile, tables: seq<Table>, c: Candidate) {
    exists child: Table, t: CompositeTarget ::
      child in tables && t.table in tables && t.forms == FormsOf(p, t.table.name) && WellFormed(child, t, c)
  }

  /** The child is one of these tables. */
  ghost predicate ChildAmong(tables: seq<Table>, c: Candidate) {
    exists t :: t in tables && c.child.TableRef() == t.Ref()
  }

  /** The tables with a key of two or more existing columns, by name. */
  ghost function InOrder(p: Profile, tables: seq<Table>): seq<CompositeTarget> { Sort(TargetsOf(p, tables), ByRef()) }

  /** A candidate of some table among these, read against every target there is. */
  ghost predicate IsComposite(p: Profile, tables: seq<Table>, children: seq<Table>, c: Candidate) {
    exists child :: child in children && Emits(child, InOrder(p, tables), c)
  }

  /** compositeTargets. */
  method SortedTargets(p: Profile, tables: seq<Table>) returns (targets: seq<CompositeTarget>)
    ensures targets == InOrder(p, tables)
    ensures forall t :: t in targets <==> t.table in tables && IsTarget(t.table) && t.forms == FormsOf(p, t.table.name)
    ensures DistinctBy(tables, RefOf()) ==> DistinctBy(targets, TargetRefOf())
  {
    var unsorted := CompositeTargets(p, tables);
    targets := Sort(unsorted, ByRef());
    SortPermutes(unsorted, ByRef());
    assert forall t :: t in targets <==> t in multiset(targets);
    TargetsExactly(p, tables);
    if DistinctBy(tables, RefOf()) {
      TargetsApart(p, tables);
      DistinctByPart(targets, unsorted, TargetRefOf());
    }
  }

  /** What a pass over some of the tables has to have given. */
  ghost predicate PassedOver(p: Profile, tables: seq<Table>, done: seq<Table>, cs: seq<Candidate>) {
    && (forall c :: c in cs <==> IsComposite(p, tables, done, c))
    && (forall c | c in cs :: FromTables(p, tables, c))
    && (forall c | c in cs :: ChildAmong(done, c))
    && (DistinctBy(tables, RefOf()) ==> DistinctPairs(cs))
  }

  lemma ChildAmongMore(done: seq<Table>, t: Table, c: Candidate)
    ensures ChildAmong(done, c) || c.child.TableRef() == t.Ref() ==> ChildAmong(done + [t], c)
  {
    if ChildAmong(done, c) {
      var u :| u in done && c.child.TableRef() == u.Ref();
      assert u in done + [t];
    }
    assert t in done + [t];
  }

  lemma ChildrenApart(tables: seq<Table>, i: nat, before: seq<Candidate>, more: seq<Candidate>)
    requires i < |tables| && DistinctBy(tables, RefOf())
    requires forall c | c in before :: ChildAmong(tables[..i], c)
    requires forall c | c in more :: c.child.TableRef() == tables[i].Ref()
    ensures forall x, y | x in before && y in more :: x.child != y.child
  {
    forall x, y | x in before && y in more ensures x.child != y.child {
      var t :| t in tables[..i] && x.child.TableRef() == t.Ref();
      var j :| 0 <= j < i && tables[j] == t;
      assert RefOf()(tables[j]) != RefOf()(tables[i]);
    }
  }

  lemma CompositeMore(p: Profile, tables: seq<Table>, i: nat, c: Candidate)
    requires i < |tables|
    ensures IsComposite(p, tables, tables[..i + 1], c)
       <==> IsComposite(p, tables, tables[..i], c) || Emits(tables[i], InOrder(p, tables), c)
  {
    assert tables[..i + 1] == tables[..i] + [tables[i]];
    if child :| child in tables[..i] && Emits(child, InOrder(p, tables), c) {
      assert child in tables[..i + 1];
    }
    assert tables[i] in tables[..i + 1];
  }

  lemma OneMoreChild(p: Profile, tables: seq<Table>, i: nat, cs: seq<Candidate>, more: seq<Candidate>)
    requires i < |tables| && PassedOver(p, tables, tables[..i], cs)
    requires forall c :: c in more <==> Emits(tables[i], InOrder(p, tables), c)
    requires forall c | c in more :: FromTables(p, tables, c)
    requires forall c | c in more :: c.child.TableRef() == tables[i].Ref()
    requires DistinctBy(tables, RefOf()) ==> DistinctPairs(more)
    ensures PassedOver(p, tables, tables[..i + 1], cs + more)
  {
    assert tables[..i + 1] == tables[..i] + [tables[i]];
    forall c | c in cs + more ensures ChildAmong(tables[..i + 1], c) {
      ChildAmongMore(tables[..i], tables[i], c);
    }
    forall c ensures c in cs + more <==> IsComposite(p, tables, tables[..i + 1], c) {
      CompositeMore(p, tables, i, c);
    }
    if DistinctBy(tables, RefOf()) {
      ChildrenApart(tables, i, cs, more);
      PairsConcat(cs, more);
    }
  }

  lemma PassIsFromTables(p: Profile, tables: seq<Table>, child: Table, targets: seq<CompositeTarget>, c: Candidate)
    requires child in tables
    requires forall t | t in targets :: t.table in tables && t.forms == FormsOf(p, t.table.name)
    requires exists t :: t in targets && WellFormed(child, t, c)
    ensures FromTables(p, tables, c) && c.child.TableRef() == child.Ref()
  {
    var t :| t in targets && WellFormed(child, t, c);
  }

  /** The pass over one of the tables, as part of the pass over all. */
  method PassOver(p: Profile, tables: seq<Table>, child: Table, targets: seq<CompositeTarget>)
    returns (more: seq<Candidate>)
    requires child in tables && targets == InOrder(p, tables)
    requires forall t :: t in targets <==> t.table in tables && IsTarget(t.table) && t.forms == FormsOf(p, t.table.name)
    requires DistinctBy(tables, RefOf()) ==> DistinctBy(targets, TargetRefOf())
    ensures forall c :: c in more <==> Emits(child, InOrder(p, tables), c)
    ensures forall c | c in more :: FromTables(p, tables, c)
    ensures forall c | c in more :: c.child.TableRef() == child.Ref()
    ensures DistinctBy(tables, RefOf()) ==> DistinctPairs(more)
  {
    more := CompositePass(child, targets);
    forall c | c in more ensures FromTables(p, tables, c) && c.child.TableRef() == child.Ref() {
      PassIsFromTables(p, tables, child, targets, c);
    }
  }

  /** generateComposite: every table against every target. What comes out is the settled readings, all of them. */
  method GenerateComposite(p: Profile, tables: seq<Table>) returns (candidates: seq<Candidate>)
    ensures forall c :: c in candidates <==> IsComposite(p, tables, tables, c)
    ensures forall c | c in candidates :: FromTables(p, tables, c)
    ensures DistinctBy(tables, RefOf()) ==> DistinctPairs(candidates)
  {
    var targets := SortedTargets(p, tables);
    candidates := [];
    for i := 0 to |tables|
      invariant PassedOver(p, tables, tables[..i], candidates)
    {
      var more := PassOver(p, tables, tables[i], targets);
      OneMoreChild(p, tables, i, candidates, more);
      candidates := candidates + more;
    }
    assert tables[..|tables|] == tables;
  }
}
