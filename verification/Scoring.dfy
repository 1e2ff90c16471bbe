/**
  internal/infer/score.go: the weights, and how they combine into a score. Weights
  are exact decimals where the source has floating point.
 */
module Scoring {
  import opened Text
  import opened Model

  const EXACT_NAME := 0.30
  const NORMALIZED_NAME := 0.15
  const IDENTICAL_TYPE := 0.25
  const COMPATIBLE_TYPE := 0.10
  const UNIQUE_TARGET := 0.20
  const CHILD_INDEXED := 0.15
  const COMMENT_MENTION := 0.12
  const NOT_NULL := 0.05
  const NAME_SIMILARITY_MAX := 0.12
  const JOIN_IN_VIEW := 0.50
  const JOIN_IN_FUNCTION := 0.45
  const JOIN_IN_STATEMENTS := 0.40
  const AMBIGUOUS_TARGET := -0.25
  const GENERIC_DOMAIN := -0.30

  const ARITY_BASE := 0.15
  const ARITY_STEP := 0.05
  const ARITY_MAX := 0.30

  const DEFAULT_MIN_SCORE := 0.5

  function ArityWeight(n: nat): real {
    if n < 2 then 0.0
    else
      var w := ARITY_BASE + (n - 2) as real * ARITY_STEP;
      if w > ARITY_MAX then ARITY_MAX else w
  }

  function Saturate(total: real): real {
    if total < 0.0 then 0.0 else if total > 1.0 then 1.0 else total
  }

  /** The sum of the weights, leaving out one kind if asked. */
  function Sum(signals: seq<Signal>, without: set<SignalKind>): real {
    if signals == [] then 0.0
    else
      var last := signals[|signals| - 1];
      Sum(signals[..|signals| - 1], without) + if last.kind in without then 0.0 else last.weight
  }

  function Score(signals: seq<Signal>): real { Saturate(Sum(signals, {})) }

  function CutScore(signals: seq<Signal>): real { Saturate(Sum(signals, {GenericDomain})) }

  /** The loops of score and cutScore. */
  method Total(signals: seq<Signal>, without: set<SignalKind>) returns (total: real)
    ensures total == Sum(signals, without)
  {
    total := 0.0;
    for i := 0 to |signals|
      invariant total == Sum(signals[..i], without)
    {
      assert signals[..i + 1][..i] == signals[..i];
      if signals[i].kind !in without {
        total := total + signals[i].weight;
      }
    }
    assert signals[..|signals|] == signals;
  }

  method Rescore(c: Candidate) returns (r: Candidate)
    ensures r == c.(metaScore := Score(c.signals))
  {
    var total := Total(c.signals, {});
    return c.(metaScore := Saturate(total));
  }

  lemma SaturateMonotone(a: real, b: real)
    requires a <= b
    ensures Saturate(a) <= Saturate(b)
  {
  }

  /** score is the total where that lies between zero and one, and the nearer end where it does not. */
  predicate IsClamped(score: real, total: real) {
    && (0.0 <= total <= 1.0 ==> score == total)
    && (total < 0.0 ==> score == 0.0)
    && (total > 1.0 ==> score == 1.0)
  }

  /** Both scores are the weights added up, within zero and one; the cut score leaves out the generic-name penalty. */
  lemma ScoresAreClamped(signals: seq<Signal>)
    ensures 0.0 <= Score(signals) <= 1.0 && 0.0 <= CutScore(signals) <= 1.0
    ensures IsClamped(Score(signals), Sum(signals, {}))
    ensures IsClamped(CutScore(signals), Sum(signals, {GenericDomain}))
  {
  }

  /** The sum is additive, and of one signal it is the weight, unless its kind is left out. */
  lemma {:induction false} SumConcat(a: seq<Signal>, b: seq<Signal>, without: set<SignalKind>)
    ensures Sum(a + b, without) == Sum(a, without) + Sum(b, without)
    ensures forall s: Signal :: Sum([s], without) == if s.kind in without then 0.0 else s.weight
  {
    forall s: Signal ensures Sum([s], without) == if s.kind in without then 0.0 else s.weight {
      assert [s][..0] == [];
    }
    if b == [] {
      assert a + b == a;
    } else {
      var n := |b| - 1;
      assert (a + b)[..|a| + n] == a + b[..n];
      SumConcat(a, b[..n], without);
    }
  }

  /** What a key's arity weighs, size by size. */
  lemma ArityWeights(n: nat)
    ensures ArityWeight(n) == if n < 2 then 0.0 else if n == 2 then 0.15 else if n == 3 then 0.20
                              else if n == 4 then 0.25 else 0.30
  {
  }

  /** A key of more columns never weighs less, and none weighs more than the cap. */
  lemma ArityWeightMonotone(m: nat, n: nat)
    requires m <= n
    ensures 0.0 <= ArityWeight(m) <= ArityWeight(n) <= ARITY_MAX
  {
  }

  /** Generic-domain signals are the penalty, and only the penalty. */
  predicate GenericPenalized(signals: seq<Signal>) {
    forall s | s in signals && s.kind == GenericDomain :: s.weight <= 0.0
  }

  lemma NoneIsPenalized(signals: seq<Signal>)
    requires !Has(signals, GenericDomain)
    ensures GenericPenalized(signals)
  {
    forall s | s in signals ensures s.kind != GenericDomain {
      var i :| 0 <= i < |signals| && signals[i] == s;
    }
  }

  lemma {:induction false} SumWithout(signals: seq<Signal>)
    requires GenericPenalized(signals)
    ensures Sum(signals, {}) <= Sum(signals, {GenericDomain})
    ensures (forall s | s in signals :: s.kind != GenericDomain) ==> Sum(signals, {}) == Sum(signals, {GenericDomain})
  {
    if signals != [] {
      var n := |signals| - 1;
      assert signals == signals[..n] + [signals[n]];
      SumWithout(signals[..n]);
    }
  }

  /** The generic-name penalty ranks and never cuts: a score that passes the threshold passes the cut. */
  lemma PenaltyNeverCuts(signals: seq<Signal>)
    requires GenericPenalized(signals)
    ensures Score(signals) <= CutScore(signals)
    ensures (forall s | s in signals :: s.kind != GenericDomain) ==> Score(signals) == CutScore(signals)
  {
    SumWithout(signals);
    SaturateMonotone(Sum(signals, {}), Sum(signals, {GenericDomain}));
  }

  // --- signals every derivation gives --------------------------------------------------

  predicate AllNotNull(cols: seq<Column>) { forall c | c in cols :: !c.nullable }

  function ColumnNames(cols: seq<Column>): seq<string> { seq(|cols|, i requires 0 <= i < |cols| => cols[i].name) }

  function CompanySignal(ambiguous: bool): Signal {
    if ambiguous then Signal(AmbiguousTarget, AMBIGUOUS_TARGET) else Signal(UniqueTarget, UNIQUE_TARGET)
  }

  /** mentions. */
  predicate Mentions(comment: string, entity: string) {
    comment != "" && entity != "" && Contains(Lower(comment), Lower(entity))
  }

  lemma LowerParts(s: string, a: string, part: string, b: string)
    requires Lower(s) == a + (part + b)
    ensures exists x, y, z :: s == x + (y + z) && Lower(y) == part
  {
    var x, y, z := s[..|a|], s[|a|..|a| + |part|], s[|a| + |part|..];
    assert s == x + (y + z);
    assert Lower(y) == Lower(s)[|a|..|a| + |part|];
  }

  /** A comment mentions an entity if it has it somewhere, whatever the case; the empty entity is never mentioned. */
  lemma MentionsExactly(comment: string, entity: string)
    ensures Mentions(comment, entity) <==>
      entity != "" && exists x, y, z :: comment == x + (y + z) && EqualFold(y, entity)
  {
    ContainsExactly(Lower(comment), Lower(entity));
    if Contains(Lower(comment), Lower(entity)) {
      var a, b :| Lower(comment) == a + (Lower(entity) + b);
      LowerParts(comment, a, Lower(entity), b);
    }
    if x, y, z :| comment == x + (y + z) && EqualFold(y, entity) {
      LowerConcat(x, y + z);
      LowerConcat(y, z);
      assert Lower(comment) == Lower(x) + (Lower(entity) + Lower(z));
    }
  }

  function When(b: bool, s: Signal): seq<Signal> { if b then [s] else [] }

  function FitSignal(fit: TypeMatch): Signal {
    if fit == Identical then Signal(IdenticalType, IDENTICAL_TYPE) else Signal(CompatibleType, COMPATIBLE_TYPE)
  }

  /** What the columns earn by themselves. */
  function ColumnSignals(indexed: bool, mentioned: bool, notNull: bool): seq<Signal> {
    When(indexed, Signal(ChildIndexed, CHILD_INDEXED))
    + When(mentioned, Signal(CommentMention, COMMENT_MENTION))
    + When(notNull, Signal(NotNull, NOT_NULL))
  }

  lemma ColumnSignalsSay(indexed: bool, mentioned: bool, notNull: bool, k: SignalKind)
    ensures Has(ColumnSignals(indexed, mentioned, notNull), k) <==>
      (k == ChildIndexed && indexed) || (k == CommentMention && mentioned) || (k == NotNull && notNull)
  {
    var a, b, c := Signal(ChildIndexed, CHILD_INDEXED), Signal(CommentMention, COMMENT_MENTION),
      Signal(NotNull, NOT_NULL);
    HasConcat(When(indexed, a) + When(mentioned, b), When(notNull, c), k);
    HasConcat(When(indexed, a), When(mentioned, b), k);
    WhenSays(indexed, a, k);
    WhenSays(mentioned, b, k);
    WhenSays(notNull, c, k);
  }

  lemma WhenSays(b: bool, s: Signal, k: SignalKind)
    ensures Has(When(b, s), k) <==> b && s.kind == k
  {
    if b { assert When(b, s)[0] == s; }
  }

  /** What it is worth if it is so. */
  function Worth(b: bool, weight: real): real { if b then weight else 0.0 }

  lemma WhenWeighs(b: bool, s: Signal, without: set<SignalKind>)
    ensures Sum(When(b, s), without) == Worth(b && s.kind !in without, s.weight)
  {
    if b { SumConcat([], [s], without); }
  }

  lemma ColumnSignalsWeigh(indexed: bool, mentioned: bool, notNull: bool, without: set<SignalKind>)
    requires without <= {GenericDomain}
    ensures Sum(ColumnSignals(indexed, mentioned, notNull), without)
         == Worth(indexed, 0.15) + Worth(mentioned, 0.12) + Worth(notNull, 0.05)
  {
    var a, b, c := Signal(ChildIndexed, CHILD_INDEXED), Signal(CommentMention, COMMENT_MENTION),
      Signal(NotNull, NOT_NULL);
    SumOfThree(When(indexed, a), When(mentioned, b), When(notNull, c), without);
    WhenWeighs(indexed, a, without);
    WhenWeighs(mentioned, b, without);
    WhenWeighs(notNull, c, without);
  }

  lemma SumOfThree(a: seq<Signal>, b: seq<Signal>, c: seq<Signal>, without: set<SignalKind>)
    ensures Sum(a + b + c, without) == Sum(a, without) + Sum(b, without) + Sum(c, without)
  {
    SumConcat(a + b, c, without);
    SumConcat(a, b, without);
  }

  /** What the types and the company of a candidate weigh. */
  function FitWorth(fit: TypeMatch): real { if fit == Identical then 0.25 else 0.10 }

  function CompanyWorth(ambiguous: bool): real { if ambiguous then -0.25 else 0.20 }

  lemma PairWeighs(fit: TypeMatch, ambiguous: bool, without: set<SignalKind>)
    requires without <= {GenericDomain}
    ensures Sum([FitSignal(fit), CompanySignal(ambiguous)], without) == FitWorth(fit) + CompanyWorth(ambiguous)
    ensures Sum([FitSignal(fit)], without) == FitWorth(fit)
  {
    SumConcat([FitSignal(fit)], [CompanySignal(ambiguous)], without);
  }

  // --- what holds of every candidate ------------------------------------------------------

  /** Each kind of join evidence at most once. */
  ghost predicate JoinsOnce(signals: seq<Signal>) {
    forall i, j | 0 <= i < j < |signals| && IsJoinKind(signals[i].kind) :: signals[i].kind != signals[j].kind
  }

  ghost predicate NoJoins(signals: seq<Signal>) { forall k | IsJoinKind(k) :: !Has(signals, k) }

  /** The score is the sum of the signals, no join counts twice, generic names only cost, and no data was asked. */
  ghost predicate IsSound(c: Candidate) {
    c.metaScore == Score(c.signals) && JoinsOnce(c.signals) && GenericPenalized(c.signals) && !c.validated
  }

  /** Before evidence: sound, without a join, and nothing known from data. */
  ghost predicate IsGenerated(c: Candidate) {
    IsSound(c) && NoJoins(c.signals) && c.verdict == Unvalidated
  }

  lemma NoJoinsIsOnce(signals: seq<Signal>)
    requires NoJoins(signals)
    ensures JoinsOnce(signals)
  {
    forall i | 0 <= i < |signals| ensures !IsJoinKind(signals[i].kind) {
      assert Has(signals, signals[i].kind);
    }
  }
}
