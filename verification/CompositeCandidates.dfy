/**
  Composite candidates, internal/infer/composite.go: which targets a child is read
  against, the signals a reading earns, and the candidates that come out.
 */
module CompositeCandidates {
  import opened Text
  import opened Model
  import opened Scoring
  import opened Counting
  import opened Pairs
  import opened Profile
  import opened Sorting
  import opened TableForms
  import opened CompositeKeys
  import opened Composite

  // --- targets -------------------------------------------------------------------------

  /** A table whose key has several columns, all of which exist. */
  ghost predicate IsTarget(t: Table) {
    |t.primaryKey| >= 2 && ColumnsOf(t, t.primaryKey).Some?
  }

  function TargetRefOf(): CompositeTarget -> string { (t: CompositeTarget) => t.table.Ref() }

  function ByRef(): (CompositeTarget, CompositeTarget) -> bool {
    (a: CompositeTarget, b: CompositeTarget) => StringLe(a.table.Ref(), b.table.Ref())
  }

  /** The targets among the tables, in order. */
  ghost function TargetsOf(p: Profile, tables: seq<Table>): seq<CompositeTarget> {
    if tables == [] then []
    else
      var t := tables[|tables| - 1];
      TargetsOf(p, tables[..|tables| - 1]) + if IsTarget(t) then [CompositeTarget(t, FormsOf(p, t.name))] else []
  }

  lemma {:induction false} TargetsExactly(p: Profile, tables: seq<Table>)
    ensures forall t :: t in TargetsOf(p, tables) <==>
      t.table in tables && IsTarget(t.table) && t.forms == FormsOf(p, t.table.name)
  {
    if tables != [] {
      var n := |tables| - 1;
      TargetsExactly(p, tables[..n]);
      assert tables == tables[..n] + [tables[n]];
    }
  }

  lemma {:induction false} TargetsApart(p: Profile, tables: seq<Table>)
    requires DistinctBy(tables, RefOf())
    ensures DistinctBy(TargetsOf(p, tables), TargetRefOf())
  {
    if tables != [] {
      var n := |tables| - 1;
      var t := tables[n];
      assert tables == tables[..n] + [t];
      DistinctBySnoc(tables[..n], t, RefOf());
      TargetsApart(p, tables[..n]);
      TargetsExactly(p, tables[..n]);
      if IsTarget(t) {
        var target := CompositeTarget(t, FormsOf(p, t.name));
        forall u | u in TargetsOf(p, tables[..n]) ensures TargetRefOf()(u) != TargetRefOf()(target) {
          assert RefOf()(u.table) != RefOf()(t);
        }
        DistinctBySnoc(TargetsOf(p, tables[..n]), target, TargetRefOf());
      } else {
        assert TargetsOf(p, tables) == TargetsOf(p, tables[..n]);
      }
    }
  }

  /** compositeTargets, before they are sorted by name. */
  method CompositeTargets(p: Profile, tables: seq<Table>) returns (targets: seq<CompositeTarget>)
    ensures targets == TargetsOf(p, tables)
  {
    targets := [];
    for i := 0 to |tables|
      invariant targets == TargetsOf(p, tables[..i])
    {
      var t := tables[i];
      assert tables[..i + 1][..i] == tables[..i];
      if |t.primaryKey| < 2 {
        continue;
      }
      var cols := KeyColumns(t, t.primaryKey);
      if cols.Some? {
        var forms := DeriveForms(p, t.name);
        targets := targets + [CompositeTarget(t, forms)];
      }
    }
    assert tables[..|tables|] == tables;
  }

  // --- signals -------------------------------------------------------------------------

  /** A mirror reading gets no name signal: it has no name evidence. */
  function NameSignal(m: KeyMatch): seq<Signal> {
    if m.derivation == Mirror then []
    else if m.origin == Exact then [Signal(ExactName, EXACT_NAME)]
    else [Signal(NormalizedName, NORMALIZED_NAME)]
  }

  /** compositeSignals. */
  function CompositeSignals(child: Table, cols: seq<Column>, m: KeyMatch, fit: TypeMatch,
                            ambiguous: bool): seq<Signal> {
    [Signal(CompositeArity, ArityWeight(|cols|))] + NameSignal(m) + [FitSignal(fit), CompanySignal(ambiguous)]
    + ColumnSignals(IndexLeads(child.indexes, ColumnNames(cols)), Mentions(child.comment, m.target.name),
                    AllNotNull(cols))
  }

  lemma FrontSignalsSay(w: real, m: KeyMatch, fit: TypeMatch, ambiguous: bool, k: SignalKind)
    ensures Has([Signal(CompositeArity, w)] + NameSignal(m) + [FitSignal(fit), CompanySignal(ambiguous)], k) <==>
      || k == CompositeArity
      || (m.derivation == Anchored && k == if m.origin == Exact then ExactName else NormalizedName)
      || k == FitSignal(fit).kind || k == CompanySignal(ambiguous).kind
  {
    var arity, fits := [Signal(CompositeArity, w)], [FitSignal(fit), CompanySignal(ambiguous)];
    HasConcat(arity + NameSignal(m), fits, k);
    HasConcat(arity, NameSignal(m), k);
    assert arity[0].kind == CompositeArity;
    assert fits[0] == FitSignal(fit) && fits[1] == CompanySignal(ambiguous);
    if m.derivation == Anchored { assert |NameSignal(m)| == 1; var n := NameSignal(m)[0]; }
  }

  /** Every kind of signal a composite candidate can carry, and when it does. */
  lemma SignalsSay(child: Table, cols: seq<Column>, m: KeyMatch, fit: TypeMatch, ambiguous: bool, k: SignalKind)
    ensures Has(CompositeSignals(child, cols, m, fit, ambiguous), k) <==>
      || k == CompositeArity
      || (m.derivation == Anchored && k == if m.origin == Exact then ExactName else NormalizedName)
      || k == (if fit == Identical then IdenticalType else CompatibleType)
      || k == (if ambiguous then AmbiguousTarget else UniqueTarget)
      || (k == ChildIndexed && IndexLeads(child.indexes, ColumnNames(cols)))
      || (k == CommentMention && Mentions(child.comment, m.target.name))
      || (k == NotNull && AllNotNull(cols))
  {
    var indexed, mentioned := IndexLeads(child.indexes, ColumnNames(cols)), Mentions(child.comment, m.target.name);
    var notNull := AllNotNull(cols);
    FrontSignalsSay(ArityWeight(|cols|), m, fit, ambiguous, k);
    ColumnSignalsSay(indexed, mentioned, notNull, k);
    var arity, last := [Signal(CompositeArity, ArityWeight(|cols|))], [FitSignal(fit), CompanySignal(ambiguous)];
    HasConcat(arity + NameSignal(m) + last,
              ColumnSignals(indexed, mentioned, notNull), k);
  }

  /** What the name of a reading is worth. */
  function NameWorth(m: KeyMatch): real {
    if m.derivation == Mirror then 0.0 else if m.origin == Exact then 0.30 else 0.15
  }

  lemma FrontSignalsWeigh(w: real, m: KeyMatch, fit: TypeMatch, ambiguous: bool, without: set<SignalKind>)
    requires without <= {GenericDomain}
    ensures Sum([Signal(CompositeArity, w)] + NameSignal(m) + [FitSignal(fit), CompanySignal(ambiguous)], without)
         == w + NameWorth(m) + FitWorth(fit) + CompanyWorth(ambiguous)
  {
    var arity := [Signal(CompositeArity, w)];
    SumConcat(arity + NameSignal(m), [FitSignal(fit), CompanySignal(ambiguous)], without);
    SumConcat(arity, NameSignal(m), without);
    PairWeighs(fit, ambiguous, without);
  }

  /** What they add up to: the key's arity, the name, the types, the company, and what the columns have to show. */
  lemma SignalsWeigh(child: Table, cols: seq<Column>, m: KeyMatch, fit: TypeMatch, ambiguous: bool,
                     without: set<SignalKind>)
    requires without <= {GenericDomain}
    ensures Sum(CompositeSignals(child, cols, m, fit, ambiguous), without)
         == ArityWeight(|cols|) + NameWorth(m) + FitWorth(fit) + CompanyWorth(ambiguous)
            + (Worth(IndexLeads(child.indexes, ColumnNames(cols)), 0.15)
               + Worth(Mentions(child.comment, m.target.name), 0.12) + Worth(AllNotNull(cols), 0.05))
  {
    var front := [Signal(CompositeArity, ArityWeight(|cols|))] + NameSignal(m)
      + [FitSignal(fit), CompanySignal(ambiguous)];
    var indexed, mentioned, notNull :=
      IndexLeads(child.indexes, ColumnNames(cols)), Mentions(child.comment, m.target.name), AllNotNull(cols);
    FrontSignalsWeigh(ArityWeight(|cols|), m, fit, ambiguous, without);
    ColumnSignalsWeigh(indexed, mentioned, notNull, without);
    SumConcat(front, ColumnSignals(indexed, mentioned, notNull), without);
  }

  // --- candidates ------------------------------------------------------------------------

  /** The candidate a reading becomes, if its columns exist and their types fit. */
  ghost function Emission(child: Table, m: KeyMatch, ambiguous: bool): Option<Candidate> {
    var cs, ps := ColumnsOf(child, m.columns), ColumnsOf(m.target, m.target.primaryKey);
    if cs.None? || ps.None? || !TypesFit(cs.value, ps.value) then None
    else
      var signals := CompositeSignals(child, cs.value, m,
                                      if AllIdentical(cs.value, ps.value) then Identical else Compatible, ambiguous);
      Some(Candidate(
        KeyRef(child.schema, child.name, m.columns),
        KeyRef(m.target.schema, m.target.name, m.target.primaryKey),
        signals, Score(signals), false, Unvalidated))
  }

  ghost function EmissionOf(child: Table): Scoped -> Option<Candidate> {
    (s: Scoped) => Emission(child, s.keyMatch, s.ambiguous)
  }

  /** A candidate that is this reading, with the signals it earns. */
  ghost predicate Describes(child: Table, s: Scoped, c: Candidate) { EmissionOf(child)(s) == Some(c) }

  /** emitComposite. */
  method EmitComposite(child: Table, m: KeyMatch, ambiguous: bool) returns (r: Option<Candidate>)
    ensures r == Emission(child, m, ambiguous)
  {
    var cs := KeyColumns(child, m.columns);
    if cs.None? {
      return None;
    }
    var ps := KeyColumns(m.target, m.target.primaryKey);
    if ps.None? {
      return None;
    }
    var fit := CompareKeys(cs.value, ps.value);
    if fit == Incompatible {
      return None;
    }
    var signals := CompositeSignals(child, cs.value, m, fit, ambiguous);
    var total := Total(signals, {});
    return Some(Candidate(
      KeyRef(child.schema, child.name, m.columns),
      KeyRef(m.target.schema, m.target.name, m.target.primaryKey),
      signals, Saturate(total), false, Unvalidated));
  }

  // --- one child against every target --------------------------------------------------------

  datatype CompositeSkip =
    | AmbiguousPosition(target: string, columns: seq<string>)
    | PartialKey(target: string, columns: seq<string>)
    | AmbiguousSignature(target: string, columns: seq<string>)

  const MIN_PARTIAL_MATCH := 2

  /** The targets with exactly one reading, as matches. */
  ghost function MatchesOf(child: Table, targets: seq<CompositeTarget>): seq<KeyMatch> {
    if targets == [] then []
    else
      var readings := ReadingsOf(child, targets[|targets| - 1]);
      MatchesOf(child, targets[..|targets| - 1]) + if |readings| == 1 then readings else []
  }

  ghost function PartialOf(child: Table, t: CompositeTarget): seq<string> {
    Nearest(Attempts(child, t.table, t.forms), |t.table.primaryKey|)
  }

  /** What becomes of a target without exactly one reading. */
  ghost function SkipOf(child: Table, t: CompositeTarget): seq<CompositeSkip> {
    var readings := ReadingsOf(child, t);
    if |readings| > 1 then [AmbiguousPosition(t.table.Ref(), readings[0].columns)]
    else if |readings| == 1 then []
    else if MIN_PARTIAL_MATCH <= |PartialOf(child, t)| < |t.table.primaryKey|
    then [PartialKey(t.table.Ref(), PartialOf(child, t))]
    else []
  }

  ghost function SkipIn(child: Table): CompositeTarget -> seq<CompositeSkip> { t => SkipOf(child, t) }

  ghost function SkipsOf(child: Table, targets: seq<CompositeTarget>): seq<CompositeSkip> {
    FlatMap(targets, SkipIn(child))
  }

  /** A target read in several ways is skipped for that, and one not read at all, if two or more columns are there. */
  ghost predicate IsSkipOf(child: Table, t: CompositeTarget, s: CompositeSkip) {
    var readings, partial := ReadingsOf(child, t), PartialOf(child, t);
    || (|readings| >= 2 && s == AmbiguousPosition(t.table.Ref(), readings[0].columns))
    || (readings == [] && 2 <= |partial| < |t.table.primaryKey| && s == PartialKey(t.table.Ref(), partial))
  }

  lemma SkipOfExactly(child: Table, t: CompositeTarget, s: CompositeSkip)
    ensures s in SkipOf(child, t) <==> IsSkipOf(child, t, s)
  {
  }

  lemma SkipsExactly(child: Table, targets: seq<CompositeTarget>, s: CompositeSkip)
    ensures s in SkipsOf(child, targets) <==> exists t :: t in targets && IsSkipOf(child, t, s)
  {
    FlatMapIsFrom(targets, SkipIn(child));
    forall t ensures s in SkipIn(child)(t) <==> IsSkipOf(child, t, s) {
      SkipOfExactly(child, t, s);
    }
  }

  lemma {:induction false} MatchesAreReadings(child: Table, targets: seq<CompositeTarget>)
    ensures forall m | m in MatchesOf(child, targets) :: exists t :: t in targets && IsReading(child, t, m)
  {
    if targets != [] {
      var n := |targets| - 1;
      MatchesAreReadings(child, targets[..n]);
      ReadableExactly(child, targets[n], Attempts(child, targets[n].table, targets[n].forms));
      forall m | m in MatchesOf(child, targets) ensures exists t :: t in targets && IsReading(child, t, m) {
        if m in MatchesOf(child, targets[..n]) {
          var t :| t in targets[..n] && IsReading(child, t, m);
          assert t in targets;
        } else {
          assert IsReading(child, targets[n], m);
        }
      }
    }
  }

  method MatchTargets(child: Table, targets: seq<CompositeTarget>)
    returns (matches: seq<KeyMatch>, skips: seq<CompositeSkip>)
    ensures matches == MatchesOf(child, targets)
    ensures skips == SkipsOf(child, targets)
  {
    matches, skips := [], [];
    for i := 0 to |targets|
      invariant matches == MatchesOf(child, targets[..i])
      invariant skips == SkipsOf(child, targets[..i])
    {
      assert targets[..i + 1][..i] == targets[..i];
      var complete, partial := MatchKey(child, targets[i]);
      if |complete| > 1 {
        skips := skips + [AmbiguousPosition(targets[i].table.Ref(), complete[0].columns)];
      } else if |complete| == 1 {
        matches := matches + [complete[0]];
        assert complete == [complete[0]];
      } else if MIN_PARTIAL_MATCH <= |partial| < |targets[i].table.primaryKey| {
        skips := skips + [PartialKey(targets[i].table.Ref(), partial)];
      }
    }
    assert targets[..|targets|] == targets;
  }

  function SignatureSkips(ms: seq<KeyMatch>): seq<CompositeSkip> {
    seq(|ms|, i requires 0 <= i < |ms| => AmbiguousSignature(ms[i].target.Ref(), ms[i].columns))
  }

  /** The last loop of compositeFor. */
  method EmitAll(child: Table, out: seq<Scoped>) returns (candidates: seq<Candidate>)
    ensures candidates == SomeOf(out, EmissionOf(child))
  {
    candidates := [];
    for i := 0 to |out|
      invariant candidates == SomeOf(out[..i], EmissionOf(child))
    {
      assert out[..i + 1] == out[..i] + [out[i]];
      SomeOfSnoc(out[..i], out[i], EmissionOf(child));
      var c := EmitComposite(child, out[i].keyMatch, out[i].ambiguous);
      if c.Some? {
        candidates := candidates + [c.value];
      }
    }
    assert out[..|out|] == out;
  }

  /** Nothing that was accepted as a reading is dropped by emitComposite. */
  lemma AllEmitted(child: Table, targets: seq<CompositeTarget>, scoped: seq<Scoped>)
    requires forall s | s in scoped :: s.keyMatch in MatchesOf(child, targets)
    ensures var cs := SomeOf(scoped, EmissionOf(child));
      |cs| == |scoped| && forall i | 0 <= i < |scoped| :: Describes(child, scoped[i], cs[i])
  {
    forall s | s in scoped ensures EmissionOf(child)(s).Some? {
      MatchesAreReadings(child, targets);
      var t :| t in targets && IsReading(child, t, s.keyMatch);
    }
    SomeOfAll(scoped, EmissionOf(child));
  }

  /**
    compositeFor: the matches are the targets read in exactly one way; those that are
    not skipped for their signature become one candidate each, in order.
   */
  method CompositeFor(child: Table, targets: seq<CompositeTarget>)
    returns (candidates: seq<Candidate>, skips: seq<CompositeSkip>, scoped: seq<Scoped>, left: seq<KeyMatch>)
    ensures multiset(Matches(scoped)) + multiset(left) == multiset(MatchesOf(child, targets))
    ensures Settled(MatchesOf(child, targets), SignatureOf(), scoped, left)
    ensures |candidates| == |scoped|
    ensures forall i | 0 <= i < |scoped| :: Describes(child, scoped[i], candidates[i])
    ensures skips == SkipsOf(child, targets) + SignatureSkips(left)
  {
    var matches, first := MatchTargets(child, targets);
    var out, rest := ResolveAmbiguity(matches, SignatureOf());
    candidates := EmitAll(child, out);
    AllEmitted(child, targets, out);
    return candidates, first + SignatureSkips(rest), out, rest;
  }
}
