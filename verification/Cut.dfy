/**
  finalize of internal/infer/generate.go: the list is split at the threshold and both
  halves are ordered.
 */
module Cut {
  import opened Model
  import opened Scoring
  import opened Counting
  import opened Sorting

  function MinScore(option: real): real { if option <= 0.0 then DEFAULT_MIN_SCORE else option }

  // --- the order ---------------------------------------------------------------------------

  /** The higher score first; equal scores by child, then by parent. */
  predicate RanksBefore(m1: real, c1: string, p1: string, m2: real, c2: string, p2: string) {
    m1 > m2 || (m1 == m2 && if c1 == c2 then StringLe(p1, p2) else StringLe(c1, c2))
  }

  function ByScore(): (Candidate, Candidate) -> bool {
    (a: Candidate, b: Candidate) =>
      RanksBefore(a.metaScore, a.child.String(), a.parent.String(), b.metaScore, b.child.String(), b.parent.String())
  }

  lemma RanksTotal(m1: real, c1: string, p1: string, m2: real, c2: string, p2: string)
    ensures RanksBefore(m1, c1, p1, m2, c2, p2) || RanksBefore(m2, c2, p2, m1, c1, p1)
  {
    StringLeTotal(c1, c2);
    StringLeTotal(p1, p2);
  }

  lemma RanksTransitive(m1: real, c1: string, p1: string, m2: real, c2: string, p2: string, m3: real, c3: string,
                        p3: string)
    requires RanksBefore(m1, c1, p1, m2, c2, p2) && RanksBefore(m2, c2, p2, m3, c3, p3)
    ensures RanksBefore(m1, c1, p1, m3, c3, p3)
  {
    if m1 == m2 == m3 {
      if c1 == c2 == c3 {
        StringLeTransitive(p1, p2, p3);
      } else if c1 != c2 && c2 != c3 {
        StringLeTransitive(c1, c2, c3);
        if c1 == c3 { StringLeAntisymmetric(c1, c2); }
      }
    }
  }

  lemma ByScoreIsOrder()
    ensures TotalPreorder(ByScore())
  {
    forall a: Candidate, b: Candidate ensures ByScore()(a, b) || ByScore()(b, a) {
      RanksTotal(a.metaScore, a.child.String(), a.parent.String(), b.metaScore, b.child.String(), b.parent.String());
    }
    forall a: Candidate, b: Candidate, c: Candidate | ByScore()(a, b) && ByScore()(b, c) ensures ByScore()(a, c) {
      RanksTransitive(a.metaScore, a.child.String(), a.parent.String(),
                      b.metaScore, b.child.String(), b.parent.String(),
                      c.metaScore, c.child.String(), c.parent.String());
    }
  }

  // --- the split -----------------------------------------------------------------------------

  function Passes(min: real): Candidate -> bool { (c: Candidate) => CutScore(c.signals) >= min }

  function FallsShort(min: real): Candidate -> bool { (c: Candidate) => CutScore(c.signals) < min }

  function Itself(): Candidate -> Candidate { (c: Candidate) => c }

  /** finalize. */
  method Finalize(cs: seq<Candidate>, min: real) returns (kept: seq<Candidate>, discarded: seq<Candidate>)
    ensures kept == Sort(Collect(cs, Passes(min), Itself()), ByScore())
    ensures discarded == Sort(Collect(cs, FallsShort(min), Itself()), ByScore())
  {
    kept, discarded := [], [];
    for i := 0 to |cs|
      invariant kept == Collect(cs[..i], Passes(min), Itself())
      invariant discarded == Collect(cs[..i], FallsShort(min), Itself())
    {
      assert cs[..i + 1] == cs[..i] + [cs[i]];
      CollectSnoc(cs[..i], cs[i], Passes(min), Itself());
      CollectSnoc(cs[..i], cs[i], FallsShort(min), Itself());
      var total := Total(cs[i].signals, {GenericDomain});
      if Saturate(total) >= min {
        kept := kept + [cs[i]];
      } else {
        discarded := discarded + [cs[i]];
      }
    }
    assert cs[..|cs|] == cs;
    kept, discarded := Sort(kept, ByScore()), Sort(discarded, ByScore());
  }

  lemma {:induction false} PartsMakeWhole(cs: seq<Candidate>, p: Candidate -> bool, q: Candidate -> bool)
    requires forall c | c in cs :: p(c) <==> !q(c)
    ensures multiset(Collect(cs, p, Itself())) + multiset(Collect(cs, q, Itself())) == multiset(cs)
  {
    if cs != [] {
      var n := |cs| - 1;
      assert cs == cs[..n] + [cs[n]];
      PartsMakeWhole(cs[..n], p, q);
    }
  }

  lemma HalvesMakeWhole(cs: seq<Candidate>, min: real)
    ensures multiset(Collect(cs, Passes(min), Itself())) + multiset(Collect(cs, FallsShort(min), Itself())) ==
      multiset(cs)
  {
    PartsMakeWhole(cs, Passes(min), FallsShort(min));
  }

  /** Both halves in order, nothing lost, and everything on its side of the threshold. */
  ghost predicate IsCut(cs: seq<Candidate>, min: real, kept: seq<Candidate>, discarded: seq<Candidate>) {
    && multiset(kept) + multiset(discarded) == multiset(cs)
    && InOrder(kept) && InOrder(discarded)
    && (forall c | c in kept :: !WeighsLess(c, min) && (c.metaScore >= min || Has(c.signals, GenericDomain)))
    && (forall c | c in discarded :: WeighsLess(c, min) && c.metaScore < min)
  }

  /** Without the generic-name penalty, the weights of the candidate do not add up to the threshold, or nothing can. */
  predicate WeighsLess(c: Candidate, min: real) {
    min > 1.0 || (min > 0.0 && Sum(c.signals, {GenericDomain}) < min)
  }

  /** The highest score first, equal scores by the child's text, and for one child by the parent's. */
  ghost predicate InOrder(cs: seq<Candidate>) {
    forall i, j | 0 <= i < j < |cs| ::
      cs[i].metaScore >= cs[j].metaScore
      && (cs[i].metaScore == cs[j].metaScore ==>
            && StringLe(cs[i].child.String(), cs[j].child.String())
            && (cs[i].child.String() == cs[j].child.String() ==>
                  StringLe(cs[i].parent.String(), cs[j].parent.String())))
  }

  lemma SortedIsInOrder(cs: seq<Candidate>)
    requires Sorted(cs, ByScore())
    ensures InOrder(cs)
  {
    forall i, j | 0 <= i < j < |cs|
      ensures RanksBefore(cs[i].metaScore, cs[i].child.String(), cs[i].parent.String(),
                          cs[j].metaScore, cs[j].child.String(), cs[j].parent.String())
    {
      assert ByScore()(cs[i], cs[j]);
    }
    forall i | 0 <= i < |cs| { StringLeTotal(cs[i].child.String(), cs[i].child.String()); }
  }

  lemma SideOfThreshold(c: Candidate, min: real)
    requires c.metaScore == Score(c.signals) && GenericPenalized(c.signals)
    ensures CutScore(c.signals) < min <==> WeighsLess(c, min)
    ensures CutScore(c.signals) < min ==> c.metaScore < min
    ensures CutScore(c.signals) >= min ==> c.metaScore >= min || Has(c.signals, GenericDomain)
  {
    ScoresAreClamped(c.signals);
    PenaltyNeverCuts(c.signals);
    if !Has(c.signals, GenericDomain) {
      forall s | s in c.signals ensures s.kind != GenericDomain {
        var i :| 0 <= i < |c.signals| && c.signals[i] == s;
      }
    }
  }

  /**
    What is discarded is what does not weigh enough without the generic-name penalty; it
    truly scores below the threshold, and what scores below it without being discarded owes
    that to the penalty alone. Both halves are in order.
   */
  lemma FinalizeCuts(cs: seq<Candidate>, min: real)
    requires forall c | c in cs :: c.metaScore == Score(c.signals) && GenericPenalized(c.signals)
    ensures IsCut(cs, min, Sort(Collect(cs, Passes(min), Itself()), ByScore()),
                  Sort(Collect(cs, FallsShort(min), Itself()), ByScore()))
  {
    var over, under := Collect(cs, Passes(min), Itself()), Collect(cs, FallsShort(min), Itself());
    HalvesMakeWhole(cs, min);
    ByScoreIsOrder();
    SortSorts(over, ByScore());
    SortSorts(under, ByScore());
    CollectExactly(cs, Passes(min), Itself());
    CollectExactly(cs, FallsShort(min), Itself());
    SortedIsInOrder(Sort(over, ByScore()));
    SortedIsInOrder(Sort(under, ByScore()));
    forall c | c in Sort(over, ByScore())
      ensures !WeighsLess(c, min) && (c.metaScore >= min || Has(c.signals, GenericDomain))
    {
      assert c in multiset(Sort(over, ByScore())) && c in over;
      SideOfThreshold(c, min);
    }
    forall c | c in Sort(under, ByScore()) ensures WeighsLess(c, min) && c.metaScore < min {
      assert c in multiset(Sort(under, ByScore())) && c in under;
      SideOfThreshold(c, min);
    }
  }
}
