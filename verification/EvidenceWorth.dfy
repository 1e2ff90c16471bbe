/**
  What the evidence is worth: a score is what names or tables give, and on top the weight
  of every kind of join that is stated, each kind once (internal/infer/evidence.go).
 */
module EvidenceWorth {
  import opened Model
  import opened Scoring
  import opened Evidence
  import opened EvidenceFold

  const JOIN_KINDS: set<SignalKind> := {JoinInView, JoinInFunction, JoinInStatements}

  /** The sum of all signals but the joins. */
  function Base(signals: seq<Signal>): real { Sum(signals, JOIN_KINDS) }

  function JoinedWorth(view: bool, fn: bool, statements: bool): real {
    (if view then 0.50 else 0.0) + (if fn then 0.45 else 0.0) + (if statements then 0.40 else 0.0)
  }

  function JoinsWorth(signals: seq<Signal>): real {
    JoinedWorth(Has(signals, JoinInView), Has(signals, JoinInFunction), Has(signals, JoinInStatements))
  }

  /** Every join signal has the weight of its kind. */
  ghost predicate JoinWeighted(signals: seq<Signal>) {
    forall s | s in signals && IsJoinKind(s.kind) :: s.weight == JoinWeight(s.kind)
  }

  lemma HasSnoc(before: seq<Signal>, s: Signal, k: SignalKind)
    ensures Has(before + [s], k) <==> Has(before, k) || s.kind == k
  {
    HasConcat(before, [s], k);
    HasOne(s, k);
  }

  lemma WorthSnoc(before: seq<Signal>, s: Signal)
    requires IsJoinKind(s.kind) ==> s.weight == JoinWeight(s.kind) && !Has(before, s.kind)
    ensures JoinsWorth(before + [s]) == JoinsWorth(before) + if IsJoinKind(s.kind) then s.weight else 0.0
  {
    HasSnoc(before, s, JoinInView);
    HasSnoc(before, s, JoinInFunction);
    HasSnoc(before, s, JoinInStatements);
  }

  lemma SumSnoc(before: seq<Signal>, s: Signal, without: set<SignalKind>)
    ensures Sum(before + [s], without) == Sum(before, without) + if s.kind in without then 0.0 else s.weight
  {
    assert (before + [s])[..|before|] == before;
  }

  /** The whole sum is the base, and every kind of join that is there, once. */
  lemma {:induction false} SumIsBaseAndWorth(signals: seq<Signal>)
    requires JoinsOnce(signals) && JoinWeighted(signals)
    ensures Sum(signals, {}) == Base(signals) + JoinsWorth(signals)
  {
    if signals != [] {
      var before, s := signals[..|signals| - 1], signals[|signals| - 1];
      assert signals == before + [s];
      SumIsBaseAndWorth(before);
      SumSnoc(before, s, {});
      SumSnoc(before, s, JOIN_KINDS);
      WorthSnoc(before, s);
    }
  }

  lemma {:induction false} JoinsLeaveBase(signals: seq<Signal>, more: seq<Signal>)
    requires OnlyJoins(more)
    ensures Base(signals + more) == Base(signals)
  {
    if more == [] {
      assert signals + more == signals;
    } else {
      var before, s := more[..|more| - 1], more[|more| - 1];
      assert s in more && forall x | x in before :: x in more;
      assert signals + more == (signals + before) + [s];
      JoinsLeaveBase(signals, before);
      SumSnoc(signals + before, s, JOIN_KINDS);
    }
  }

  /** A strengthened candidate scores its base, and the joins it carries. */
  lemma StrengthenedScore(b: Candidate, c: Candidate)
    requires Strengthens(b, c) && IsSound(c) && JoinWeighted(b.signals)
    ensures IsClamped(c.metaScore, Base(b.signals) + JoinsWorth(c.signals))
  {
    var more := c.signals[|b.signals|..];
    assert c.signals == b.signals + more;
    JoinsLeaveBase(b.signals, more);
    assert JoinWeighted(c.signals);
    SumIsBaseAndWorth(c.signals);
    ScoresAreClamped(c.signals);
  }

  lemma NoJoinsIsWeighted(signals: seq<Signal>)
    requires NoJoins(signals)
    ensures JoinWeighted(signals)
  {
    forall i | 0 <= i < |signals| ensures !IsJoinKind(signals[i].kind) {
      assert Has(signals, signals[i].kind);
    }
  }

  /** A candidate that only evidence has found: its join, its arity, its types, and what the columns have to show. */
  lemma FreshScores(child: KeyRef, parent: KeyRef, kind: SignalKind, n: nat, fit: TypeMatch, indexed: bool,
                    notNull: bool)
    requires IsJoinKind(kind)
    ensures IsClamped(Fresh(child, parent, kind, EvidenceSignals(AritySignals(n), fit, indexed, notNull)).metaScore,
                      JoinedWorth(kind == JoinInView, kind == JoinInFunction, kind == JoinInStatements)
                      + ArityWeight(n) + FitWorth(fit) + Worth(indexed, 0.15) + Worth(notNull, 0.05))
  {
    var arity, fits, last := AritySignals(n), [FitSignal(fit)], ColumnSignals(indexed, false, notNull);
    var c := Fresh(child, parent, kind, EvidenceSignals(arity, fit, indexed, notNull));
    SumConcat([Signal(kind, JoinWeight(kind))], arity + fits + last, {});
    SumConcat(arity + fits, last, {});
    SumConcat(arity, fits, {});
    WhenWeighs(n >= 2, Signal(CompositeArity, ArityWeight(n)), {});
    PairWeighs(fit, false, {});
    ColumnSignalsWeigh(indexed, false, notNull, {});
    ScoresAreClamped(c.signals);
  }

  // --- by what is stated -----------------------------------------------------------------

  ghost function StatedWorth(facts: set<Fact>, key: string): real {
    JoinedWorth((key, JoinInView) in facts, (key, JoinInFunction) in facts, (key, JoinInStatements) in facts)
  }

  /** With no pair twice, a candidate carries exactly the joins stated of its pair. */
  lemma CarriesWhatIsStated(render: Render, cs: seq<Candidate>, facts: set<Fact>, i: nat)
    requires i < |cs| && NoPairTwice(render, cs)
    requires forall f: Fact | IsJoinKind(f.1) :: Says(render, cs, f) <==> f in facts
    ensures JoinsWorth(cs[i].signals) == StatedWorth(facts, At(render, cs[i]))
  {
    forall k | IsJoinKind(k) ensures Has(cs[i].signals, k) <==> (At(render, cs[i]), k) in facts {
      var f: Fact := (At(render, cs[i]), k);
      if Says(render, cs, f) {
        var j :| 0 <= j < |cs| && At(render, cs[j]) == f.0 && cs[j].HasSignal(f.1);
        assert j == i;
      }
      if Has(cs[i].signals, k) {
        assert At(render, cs[i]) == f.0 && cs[i].HasSignal(f.1);
        assert Says(render, cs, f);
      }
    }
  }
}
