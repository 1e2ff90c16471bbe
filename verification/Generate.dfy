/**
  Generate of internal/infer/generate.go as a whole: the single-column pass, the
  composite pass, the evidence, and the cut.
 */
module Generate {
  import opened Text
  import opened Model
  import opened Scoring
  import opened Counting
  import opened Pairs
  import opened CompositeKeys
  import opened Generation
  import opened Infer
  import opened Cut
  import opened EvidenceFold
  import TableForms
  import TargetIndex
  import Composite
  import CompositeGeneration
  import Evidence
  import EvidenceApply
  import EvidenceWorth
  import PairNames

  // --- names that can be told apart ----------------------------------------------------------

  ghost predicate TableOver(a: PairNames.Alphabet, t: Table) {
    && PairNames.IsOver(a, t.schema) && PairNames.IsOver(a, t.name)
    && (forall c | c in t.columns :: PairNames.IsOver(a, c.name))
    && (forall k | k in t.primaryKey :: PairNames.IsOver(a, k))
  }

  ghost predicate TablesOver(a: PairNames.Alphabet, tables: seq<Table>) { forall t | t in tables :: TableOver(a, t) }

  /** All names are over an alphabet whose rendered pairs can be told apart. */
  ghost predicate PlainNames(tables: seq<Table>) {
    exists a :: PairNames.IsTellable(a) && TablesOver(a, tables)
  }

  lemma FoldedOver(a: PairNames.Alphabet, x: string, y: string)
    requires PairNames.IsOver(a, x) && EqualFold(x, y)
    ensures PairNames.IsOver(a, y)
  {
    forall c | c in y ensures a(c) || PairNames.IsLetter(c) {
      var i :| 0 <= i < |y| && y[i] == c;
      assert Lower(y)[i] == Lower(x)[i] && x[i] in x;
    }
  }

  lemma ColumnsOver(a: PairNames.Alphabet, t: Table, names: seq<string>)
    requires TableOver(a, t) && ColumnsOf(t, names).Some?
    ensures forall n | n in names :: PairNames.IsOver(a, n)
  {
    ColumnsOfExactly(t, names);
    forall n | n in names ensures PairNames.IsOver(a, n) {
      FoldedOver(a, t.FindColumn(n).value.name, n);
    }
  }

  lemma SingleOver(a: PairNames.Alphabet, tables: seq<Table>, t: Table, c: Candidate)
    requires Refers(tables, t, c) && t in tables && TablesOver(a, tables)
    ensures PairNames.IsKeyOver(a, c.child) && PairNames.IsKeyOver(a, c.parent)
  {
    var col, n: Named :| col in t.columns && Eligible(t, col) && n.table in tables && IsSingle(t, col, n, c);
    assert n.pk in n.table.columns;
  }

  lemma CompositeOver(a: PairNames.Alphabet, child: Table, t: Composite.CompositeTarget, c: Candidate)
    requires CompositeGeneration.WellFormed(child, t, c) && TableOver(a, child) && TableOver(a, t.table)
    ensures PairNames.IsKeyOver(a, c.child) && PairNames.IsKeyOver(a, c.parent)
  {
    ColumnsOver(a, child, c.child.columns);
  }

  // --- before the evidence --------------------------------------------------------------------

  /** What the two name passes have raised. */
  ghost predicate Inferred(o: Options, tables: seq<Table>, c: Candidate) {
    (exists t :: t in tables && Refers(tables, t, c)) || CompositeGeneration.FromTables(o.profile, tables, c)
  }

  lemma InferredIsGenerated(o: Options, tables: seq<Table>, c: Candidate)
    requires Inferred(o, tables, c)
    ensures IsGenerated(c)
  {
    if t :| t in tables && Refers(tables, t, c) {
      ReferringChild(tables, t, c);
    }
  }

  lemma InferredOver(a: PairNames.Alphabet, o: Options, tables: seq<Table>, c: Candidate)
    requires Inferred(o, tables, c) && TablesOver(a, tables)
    ensures PairNames.IsKeyOver(a, c.child) && PairNames.IsKeyOver(a, c.parent)
  {
    if t :| t in tables && Refers(tables, t, c) {
      SingleOver(a, tables, t, c);
    } else {
      var child: Table, t: Composite.CompositeTarget :| child in tables && t.table in tables
        && t.forms == TableForms.FormsOf(o.profile, t.table.name) && CompositeGeneration.WellFormed(child, t, c);
      CompositeOver(a, child, t, c);
    }
  }

  /** What they should raise: the candidates of every column, and the settled readings of every composite key. */
  ghost predicate IsInferred(o: Options, tables: seq<Table>, c: Candidate) {
    IsFound(o, tables, tables, c) || CompositeGeneration.IsComposite(o.profile, tables, tables, c)
  }

  /**
    The list has nothing but such candidates; where tables are told apart by their refs, it
    has all of them, and in a proper catalog no pair twice.
   */
  ghost predicate AreInferred(o: Options, tables: seq<Table>, cs: seq<Candidate>) {
    && (forall c | c in cs :: Inferred(o, tables, c))
    && (forall c | CompositeGeneration.IsComposite(o.profile, tables, tables, c) :: c in cs)
    && (DistinctBy(tables, RefOf()) ==> forall c :: c in cs <==> IsInferred(o, tables, c))
    && (ProperCatalog(tables) ==> DistinctPairs(cs))
  }

  method InferByName(o: Options, schemas: seq<TargetIndex.Schema>) returns (cs: seq<Candidate>)
    ensures AreInferred(o, TargetIndex.Flatten(schemas), cs)
  {
    var tables := TargetIndex.Flatten(schemas);
    var index := TargetIndex.BuildTargetIndex(o.profile, schemas);
    var singles := GenerateSingles(o, index, tables);
    var composites := CompositeGeneration.GenerateComposite(o.profile, tables);
    if ProperCatalog(tables) {
      forall x, y | x in singles && y in composites ensures x.child != y.child {
        var t :| t in tables && Refers(tables, t, x);
        ReferringChild(tables, t, x);
        assert CompositeGeneration.FromTables(o.profile, tables, y);
      }
      PairsConcat(singles, composites);
    }
    cs := singles + composites;
  }

  /** The tables by their refs: all of them, and no others. */
  ghost predicate IsTableIndex(index: Tables, tables: seq<Table>) {
    && WellKeyed(index)
    && (forall r :: r in index <==> exists t :: t in tables && t.Ref() == r)
    && (forall r | r in index :: index[r] in tables)
  }

  /** tableIndex. */
  method IndexByRef(tables: seq<Table>) returns (index: Tables)
    ensures IsTableIndex(index, tables)
  {
    index := map[];
    for i := 0 to |tables|
      invariant IsTableIndex(index, tables[..i])
    {
      var t := tables[i];
      assert tables[..i + 1] == tables[..i] + [t];
      index := index[t.Ref() := t];
    }
    assert tables[..|tables|] == tables;
  }

  // --- with the evidence ------------------------------------------------------------------------

  lemma SoundAfterwards(o: Options, tables: seq<Table>, before: seq<Candidate>)
    requires forall c | c in before :: Inferred(o, tables, c)
    ensures AllSound(before)
    ensures forall f: Fact | IsJoinKind(f.1) :: !Says(EvidenceApply.PairRender(), before, f)
  {
    forall i | 0 <= i < |before| ensures IsGenerated(before[i]) {
      InferredIsGenerated(o, tables, before[i]);
    }
    var render := EvidenceApply.PairRender();
    forall f: Fact | IsJoinKind(f.1) ensures !Says(render, before, f) {
    }
  }

  lemma ApartAfterwards(o: Options, tables: seq<Table>, before: seq<Candidate>)
    requires forall c | c in before :: Inferred(o, tables, c)
    requires PlainNames(tables) && DistinctPairs(before)
    ensures NoPairTwice(EvidenceApply.PairRender(), before)
  {
    var a :| PairNames.IsTellable(a) && TablesOver(a, tables);
    forall i | 0 <= i < |before|
      ensures PairNames.IsKeyOver(a, before[i].child) && PairNames.IsKeyOver(a, before[i].parent)
    {
      InferredOver(a, o, tables, before[i]);
    }
    PairNames.PlainPairsOnce(a, before);
  }

  // --- generation -------------------------------------------------------------------------------

  /**
    What a generation goes through: the inferred list, the tables, the grouped evidence, and
    the list before the cut.
   */
  datatype Generated = Generated(
    inferred: seq<Candidate>,
    tables: Tables,
    groups: seq<Evidence.EvidenceGroup>,
    found: seq<Candidate>)

  ghost function FactsOf(g: Generated): set<Fact> { AllFacts(EvidenceApply.PairRender(), g.tables, g.groups) }

  /** The names say what is inferred, and the found list is that list with exactly what the evidence states. */
  ghost predicate IsGeneration(o: Options, all: seq<Table>, evidence: seq<Evidence.JoinEvidence>, g: Generated) {
    && AreInferred(o, all, g.inferred)
    && IsTableIndex(g.tables, all)
    && Evidence.AreGroups(g.groups, evidence, Evidence.GroupKey())
    && multiset(Evidence.AllJoins(g.groups)) == multiset(evidence)
    && Absorbs(EvidenceApply.PairRender(), EvidenceApply.BornIn(g.tables), g.inferred, g.found, FactsOf(g))
  }

  /** A candidate the names give, with no more than join signals on top. */
  ghost predicate StemsFrom(o: Options, all: seq<Table>, c: Candidate) {
    exists b :: Inferred(o, all, b) && Strengthens(b, c)
  }

  lemma SoundFound(o: Options, all: seq<Table>, evidence: seq<Evidence.JoinEvidence>, g: Generated)
    requires IsGeneration(o, all, evidence, g)
    ensures AllSound(g.found)
    ensures forall f: Fact | IsJoinKind(f.1) :: Says(EvidenceApply.PairRender(), g.found, f) <==> f in FactsOf(g)
    ensures ProperCatalog(all) && PlainNames(all) ==>
      NoPairTwice(EvidenceApply.PairRender(), g.found)
  {
    SoundAfterwards(o, all, g.inferred);
    if ProperCatalog(all) && PlainNames(all) {
      ApartAfterwards(o, all, g.inferred);
    }
  }

  /** The found candidate at i is an inferred one, or new and about a key that can be one. */
  ghost predicate ComesFrom(o: Options, all: seq<Table>, g: Generated, i: nat)
    requires i < |g.found|
  {
    if i < |g.inferred| then StemsFrom(o, all, g.found[i])
    else Stems(EvidenceApply.BornIn(g.tables), g.found[i])
  }

  /**
    What is found: every candidate the names give is there, and everything there is given
    by the names or stated by the evidence.
   */
  lemma FoundExactly(o: Options, all: seq<Table>, evidence: seq<Evidence.JoinEvidence>, g: Generated)
    requires IsGeneration(o, all, evidence, g)
    ensures DistinctBy(all, RefOf()) ==>
      forall b | IsInferred(o, all, b) :: exists c :: c in g.found && Strengthens(b, c)
    ensures forall i | 0 <= i < |g.found| :: ComesFrom(o, all, g, i)
    ensures forall key :: Names(EvidenceApply.PairRender(), g.found, key)
                     <==> Names(EvidenceApply.PairRender(), g.inferred, key) || About(FactsOf(g), key)
  {
    forall i | 0 <= i < |g.inferred| ensures Strengthens(g.inferred[i], g.found[i]) && g.found[i] in g.found {
    }
    forall i | 0 <= i < |g.found| ensures ComesFrom(o, all, g, i) {
      if i < |g.inferred| {
        assert Strengthens(g.inferred[i], g.found[i]);
      } else {
        assert Stems(EvidenceApply.BornIn(g.tables), g.found[i]);
      }
    }
    if DistinctBy(all, RefOf()) {
      forall b | IsInferred(o, all, b) ensures exists c :: c in g.found && Strengthens(b, c) {
        var i :| 0 <= i < |g.inferred| && g.inferred[i] == b;
        assert Strengthens(b, g.found[i]);
      }
    }
  }

  lemma BornIsWeighted(tables: Tables, b: Candidate)
    requires Born(tables, b)
    ensures EvidenceWorth.JoinWeighted(b.signals)
  {
    var c, p, kind :| BornOn(tables, c, p, kind, b);
    var rest := RestOf(tables[c], tables[p], b.child.columns);
    EvidenceApply.RestNoJoins(tables[c], tables[p], b.child.columns);
    EvidenceWorth.NoJoinsIsWeighted(rest);
  }

  /** What names or tables make of the candidate at i, and the joins stated of its pair on top: itself and its score. */
  ghost predicate ScoredBy(g: Generated, i: nat, b: Candidate)
    requires i < |g.found|
  {
    && (if i < |g.inferred| then b == g.inferred[i] else Born(g.tables, b))
    && Strengthens(b, g.found[i])
    && IsClamped(g.found[i].metaScore,
                 EvidenceWorth.Base(b.signals)
                 + EvidenceWorth.StatedWorth(FactsOf(g), At(EvidenceApply.PairRender(), g.found[i])))
  }

  ghost predicate HasScore(g: Generated, i: nat)
    requires i < |g.found|
  {
    exists b :: ScoredBy(g, i, b)
  }

  lemma ScoreFrom(g: Generated, i: nat, b: Candidate)
    requires i < |g.found| && IsSound(g.found[i])
    requires if i < |g.inferred| then b == g.inferred[i] else Born(g.tables, b)
    requires Strengthens(b, g.found[i]) && EvidenceWorth.JoinWeighted(b.signals)
    requires EvidenceWorth.JoinsWorth(g.found[i].signals)
          == EvidenceWorth.StatedWorth(FactsOf(g), At(EvidenceApply.PairRender(), g.found[i]))
    ensures HasScore(g, i)
  {
    EvidenceWorth.StrengthenedScore(b, g.found[i]);
    assert ScoredBy(g, i, b);
  }

  lemma OriginOf(o: Options, all: seq<Table>, evidence: seq<Evidence.JoinEvidence>, g: Generated, i: nat)
    returns (b: Candidate)
    requires IsGeneration(o, all, evidence, g) && i < |g.found|
    ensures if i < |g.inferred| then b == g.inferred[i] else Born(g.tables, b)
    ensures Strengthens(b, g.found[i]) && EvidenceWorth.JoinWeighted(b.signals)
  {
    if i < |g.inferred| {
      b := g.inferred[i];
      InferredIsGenerated(o, all, b);
      EvidenceWorth.NoJoinsIsWeighted(b.signals);
    } else {
      assert Stems(EvidenceApply.BornIn(g.tables), g.found[i]);
      b :| EvidenceApply.BornIn(g.tables)(b) && Strengthens(b, g.found[i]);
      BornIsWeighted(g.tables, b);
    }
  }

  /** Where no pair is found twice, every score is what names or tables give, and each kind of join stated, once. */
  lemma FoundScores(o: Options, all: seq<Table>, evidence: seq<Evidence.JoinEvidence>, g: Generated)
    requires IsGeneration(o, all, evidence, g)
    requires NoPairTwice(EvidenceApply.PairRender(), g.found)
    ensures forall i | 0 <= i < |g.found| :: HasScore(g, i)
  {
    SoundFound(o, all, evidence, g);
    forall i | 0 <= i < |g.found| ensures HasScore(g, i) {
      var b := OriginOf(o, all, evidence, g, i);
      EvidenceWorth.CarriesWhatIsStated(EvidenceApply.PairRender(), g.found, FactsOf(g), i);
      ScoreFrom(g, i, b);
    }
  }

  /**
    A generation behind what is handed over: what is found is what names and evidence give,
    with sums for scores, and it is split by the threshold.
   */
  ghost predicate Generates(o: Options, all: seq<Table>, evidence: seq<Evidence.JoinEvidence>, minScore: real,
                            g: Generated, kept: seq<Candidate>, discarded: seq<Candidate>) {
    && IsGeneration(o, all, evidence, g)
    && IsCut(g.found, if minScore <= 0.0 then 0.5 else minScore, kept, discarded)
    && AllSound(g.found)
    && (forall f: Fact | IsJoinKind(f.1) :: Says(EvidenceApply.PairRender(), g.found, f) <==> f in FactsOf(g))
    && (ProperCatalog(all) && PlainNames(all) ==> NoPairTwice(EvidenceApply.PairRender(), g.found))
  }

  /** Generate. */
  method Generate(o: Options, schemas: seq<TargetIndex.Schema>, evidence: seq<Evidence.JoinEvidence>, minScore: real)
    returns (kept: seq<Candidate>, discarded: seq<Candidate>)
    ensures exists g :: Generates(o, TargetIndex.Flatten(schemas), evidence, minScore, g, kept, discarded)
  {
    ghost var all := TargetIndex.Flatten(schemas);
    var inferred := InferByName(o, schemas);
    var index := IndexByRef(TargetIndex.Flatten(schemas));
    var found, groups := EvidenceApply.ApplyEvidence(inferred, index, evidence);
    ghost var g := Generated(inferred, index, groups, found);
    SoundFound(o, all, evidence, g);
    assert forall c | c in found :: IsSound(c);
    FinalizeCuts(found, MinScore(minScore));
    kept, discarded := Finalize(found, MinScore(minScore));
    assert Generates(o, all, evidence, minScore, g, kept, discarded);
  }
}
