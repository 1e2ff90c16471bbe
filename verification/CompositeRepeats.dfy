/**
  A composite candidate whose child key names one column twice: resolveMirror and
  resolveAnchored of internal/infer/composite.go let it through, and here is exactly when.
 */
module CompositeRepeats {
  import opened Text
  import opened Model
  import opened Counting
  import opened Grouping
  import opened Profile
  import opened Sorting
  import opened TableForms
  import opened CompositeKeys
  import opened Composite
  import opened CompositeCandidates
  import opened CompositeGeneration

  lemma {:induction false} AttemptsExactly(child: Table, target: Table, forms: seq<Form>)
    ensures forall m | m in Attempts(child, target, forms) ::
      m == MirrorAttempt(child, target) || exists f :: f in forms && m == AnchoredAttempt(child, target, f)
  {
    if forms != [] {
      var n := |forms| - 1;
      AttemptsExactly(child, target, forms[..n]);
      assert forms == forms[..n] + [forms[n]];
    }
  }

  /** The reading of this target by this form, and the form makes a mirrored and an anchored position one name. */
  ghost predicate CollidesFor(child: Table, t: CompositeTarget, f: Form, cols: seq<string>) {
    && f in t.forms
    && cols == Kept(AnchoredReadings(child, t.table.primaryKey, f.value))
    && |cols| == |t.table.primaryKey|
    && Collides(child, t.table.primaryKey, f.value)
  }

  lemma AnchoredAttemptRepeats(child: Table, t: CompositeTarget, f: Form, cols: seq<string>)
    requires f in t.forms && cols == Kept(AnchoredReadings(child, t.table.primaryKey, f.value))
    requires |cols| == |t.table.primaryKey|
    ensures !DistinctFolded(cols) <==> !DistinctFolded(t.table.primaryKey) || CollidesFor(child, t, f, cols)
  {
    AnchoredRepeatsExactly(child, t.table.primaryKey, f.value);
  }

  /** A reading of a key repeats a column only if the key does, or some form collides. */
  lemma ReadingRepeats(child: Table, t: CompositeTarget, m: KeyMatch)
    requires m in ReadingsOf(child, t)
    ensures m.target == t.table
    ensures !DistinctFolded(t.table.primaryKey) ==> !DistinctFolded(m.columns)
    ensures !DistinctFolded(m.columns) ==>
      !DistinctFolded(t.table.primaryKey) || exists f :: CollidesFor(child, t, f, m.columns)
  {
    ReadableExactly(child, t, Attempts(child, t.table, t.forms));
    AttemptsExactly(child, t.table, t.forms);
    if m == MirrorAttempt(child, t.table) {
      MirrorRepeatsExactly(child, t.table.primaryKey);
    } else {
      var f :| f in t.forms && m == AnchoredAttempt(child, t.table, f);
      AnchoredAttemptRepeats(child, t, f, m.columns);
    }
  }

  /** A target of the candidate's parent that the child reads in these columns, by a colliding form. */
  ghost predicate RepeatsBy(child: Table, targets: seq<CompositeTarget>, c: Candidate, t: CompositeTarget, f: Form) {
    && t in targets
    && c.parent == KeyRef(t.table.schema, t.table.name, t.table.primaryKey)
    && CollidesFor(child, t, f, c.child.columns)
  }

  lemma EmittedColumns(child: Table, ms: seq<KeyMatch>, m: KeyMatch, c: Candidate)
    requires IsEmitted(child, ms, m, c)
    ensures c.child.columns == m.columns
    ensures c.parent == KeyRef(m.target.schema, m.target.name, m.target.primaryKey)
  {
  }

  lemma EmittedRepeats(child: Table, targets: seq<CompositeTarget>, c: Candidate)
    requires Emits(child, targets, c)
    ensures !DistinctFolded(c.parent.columns) ==> !DistinctFolded(c.child.columns)
    ensures !DistinctFolded(c.child.columns) ==>
      !DistinctFolded(c.parent.columns) || exists t, f :: RepeatsBy(child, targets, c, t, f)
  {
    var ms := MatchesOf(child, targets);
    var m :| IsEmitted(child, ms, m, c);
    EmittedColumns(child, ms, m, c);
    MatchesExactly(child, targets, m);
    var t :| t in targets && ReadingsOf(child, t) == [m];
    assert m in ReadingsOf(child, t);
    ReadingRepeats(child, t, m);
    if f :| CollidesFor(child, t, f, m.columns) {
      assert RepeatsBy(child, targets, c, t, f);
    }
  }

  /**
    An emitted candidate uses a child column twice exactly when the parent's key has names
    that differ in case only, or it is the reading of a form that makes a mirrored and an
    anchored position of the key go by the same name.
   */
  lemma CandidateRepeatsExactly(child: Table, targets: seq<CompositeTarget>, c: Candidate)
    requires Emits(child, targets, c)
    ensures !DistinctFolded(c.child.columns) <==>
      !DistinctFolded(c.parent.columns) || exists t, f :: RepeatsBy(child, targets, c, t, f)
  {
    EmittedRepeats(child, targets, c);
    if t, f :| RepeatsBy(child, targets, c, t, f) {
      AnchoredAttemptRepeats(child, t, f, c.child.columns);
    }
  }

  // --- two tables and one pass over them ----------------------------------------------------

  lemma OnlyOneMatch(child: Table, t: CompositeTarget, m: KeyMatch)
    requires ReadingsOf(child, t) == [m]
    ensures MatchesOf(child, [t]) == [m] && Peers([m], SignatureOf(), m) == [m]
  {
    assert [t][..0] == [];
    assert MatchesOf(child, []) == [];
    assert [m][1..] == [];
    assert WithKey(SignatureOf(), m.Signature())(m);
  }

  lemma EmissionExists(child: Table, m: KeyMatch) returns (c: Candidate)
    requires IsUsable(child, m.target, m.columns)
    ensures Describes(child, Scoped(m, false), c) && c.child.columns == m.columns
  {
    c := Emission(child, m, false).value;
  }

  lemma EmitsAlone(child: Table, t: CompositeTarget, m: KeyMatch)
    requires ReadingsOf(child, t) == [m]
    requires m.target == t.table && IsUsable(child, t.table, m.columns)
    ensures exists c :: Emits(child, [t], c) && c.child.columns == m.columns
  {
    OnlyOneMatch(child, t, m);
    var c := EmissionExists(child, m);
    assert IsEmitted(child, [m], m, c);
  }

  lemma SortOne<T>(x: T, le: (T, T) -> bool)
    ensures Sort([x], le) == [x]
  {
    assert [x][1..] == [];
    assert Sort([], le) == [];
  }

  lemma TargetsMore(p: Profile, before: seq<Table>, t: Table)
    ensures IsTarget(t) ==>
      TargetsOf(p, before + [t]) == TargetsOf(p, before) + [CompositeTarget(t, FormsOf(p, t.name))]
    ensures !IsTarget(t) ==> TargetsOf(p, before + [t]) == TargetsOf(p, before)
    ensures TargetsOf(p, []) == []
  {
    assert (before + [t])[..|before|] == before;
  }

  lemma TargetsOfTwo(p: Profile, child: Table, parent: Table)
    requires !IsTarget(child) && IsTarget(parent)
    ensures TargetsOf(p, [child, parent]) == [CompositeTarget(parent, FormsOf(p, parent.name))]
  {
    TargetsMore(p, [], child);
    TargetsMore(p, [child], parent);
    assert [] + [child] == [child] && [child] + [parent] == [child, parent];
  }

  lemma OnlyOneTarget(p: Profile, child: Table, parent: Table)
    requires !IsTarget(child) && IsTarget(parent)
    ensures InOrder(p, [child, parent]) == [CompositeTarget(parent, FormsOf(p, parent.name))]
  {
    TargetsOfTwo(p, child, parent);
    SortOne(CompositeTarget(parent, FormsOf(p, parent.name)), ByRef());
  }

  /** The pass over a child and the one target there is, if the child reads it in one way. */
  lemma PassEmits(p: Profile, child: Table, parent: Table, m: KeyMatch)
    requires !IsTarget(child) && IsTarget(parent)
    requires ReadingsOf(child, CompositeTarget(parent, FormsOf(p, parent.name))) == [m]
    requires m.target == parent && IsUsable(child, parent, m.columns)
    ensures exists c :: IsComposite(p, [child, parent], [child, parent], c) && c.child.columns == m.columns
  {
    OnlyOneTarget(p, child, parent);
    EmitsAlone(child, CompositeTarget(parent, FormsOf(p, parent.name)), m);
    var c :| Emits(child, InOrder(p, [child, parent]), c) && c.child.columns == m.columns;
    assert child in [child, parent];
    assert IsComposite(p, [child, parent], [child, parent], c);
  }

  /** A profile without any convention: names are taken as they are. */
  const BARE := Profile("bare", [], [], [], [], [], [])

  lemma LetterIsNormal(name: string)
    requires |name| == 1 && 'a' <= name[0] <= 'z'
    ensures Normal(name) == name
  {
    TrimKeeps(name, IsBlank);
    LowerKeeps(name);
  }

  lemma LowerKeeps(s: string)
    requires forall c | c in s :: 'a' <= c <= 'z'
    ensures Lower(s) == s
  {
    forall i | 0 <= i < |s| ensures Lower(s)[i] == s[i] { assert s[i] in s; }
  }

  lemma BareForms(name: string)
    requires |name| == 1 && 'a' <= name[0] <= 'z'
    ensures FormsOf(BARE, name) == [Form(name, Exact)]
  {
    LetterIsNormal(name);
    assert Stripped(BARE, name) == None;
    assert Singulars(name, BARE.plural) == [];
    assert Add([], name, Exact) == [Form(name, Exact)];
  }

  // --- an anchored position and a mirrored one ------------------------------------------------

  const X_Y := Column("x_y", "int4", false, "")

  const CHILD := Table("s", "c", [X_Y], [], [], [], "")

  const X := Table("s", "x", [X_Y, Column("y", "int4", false, "")], ["x_y", "y"], [], [], "")

  const BY_X := CompositeTarget(X, [Form("x", Exact)])

  lemma ReadTwice()
    ensures CHILD.FindColumn("x_y") == Some(X_Y) && CHILD.FindColumn("y") == None
    ensures MirrorAttempt(CHILD, X).columns == ["x_y"]
    ensures AnchoredAttempt(CHILD, X, BY_X.forms[0]).columns == ["x_y", "x_y"]
    ensures HasAnchor(CHILD, X.primaryKey, "x")
  {
    AnchoredCanRepeat();
    assert |Lower("y")| == 1 && |Lower("x_y")| == 3;
    assert [X_Y][1..] == [];
    assert CHILD.FindColumn("x_y") == Some(X_Y);
    assert CHILD.FindColumn("y") == None;
    assert CHILD.FindColumn(X.primaryKey[0]).Some?;
    var readings := MirrorReadings(CHILD, X.primaryKey);
    assert readings == [Some("x_y"), None];
    assert readings[..1] == [Some("x_y")];
    assert readings[..1][..0] == [];
    assert Kept(readings[..1]) == ["x_y"];
    assert Anchor("x", "y") == "x_y";
    assert X.primaryKey[1] == "y" && IsAnchored(CHILD, "x", "y");
  }

  lemma UsableTwice()
    ensures IsUsable(CHILD, X, ["x_y", "x_y"]) && IsTarget(X) && CHILD.Ref() != X.Ref()
  {
    ReadTwice();
    var y := Column("y", "int4", false, "");
    assert |Lower("y")| == 1 && |Lower("x_y")| == 3;
    assert X.columns[1..] == [y];
    assert X.FindColumn("x_y") == Some(X_Y) && X.FindColumn("y") == Some(y);
    ColumnsOfExactly(CHILD, ["x_y", "x_y"]);
    ColumnsOfExactly(X, ["x_y", "y"]);
    assert CHILD.Ref()[2] == 'c' && X.Ref()[2] == 'x';
  }

  lemma TheReading()
    ensures ReadingsOf(CHILD, BY_X) == [AnchoredAttempt(CHILD, X, BY_X.forms[0])]
  {
    var form := BY_X.forms[0];
    var mirror, anchored := MirrorAttempt(CHILD, X), AnchoredAttempt(CHILD, X, form);
    ReadTwice();
    UsableTwice();
    assert BY_X.forms[..0] == [];
    assert Attempts(CHILD, X, []) == [mirror];
    assert Attempts(CHILD, X, BY_X.forms) == [mirror] + [anchored];
    AnchoredAligns(CHILD, X.primaryKey, form.value);
    assert IsReading(CHILD, BY_X, anchored);
    assert !IsReading(CHILD, BY_X, mirror);
    assert [mirror][..0] == [];
    assert Readable(CHILD, BY_X, [mirror]) == [];
    assert ([mirror] + [anchored])[..1] == [mirror];
  }

  /** The pass over s.c and s.x maps both columns of the key of s.x to the one column x_y. */
  lemma CandidateCanRepeat()
    ensures DistinctFolded(X.primaryKey)
    ensures exists c :: IsComposite(BARE, [CHILD, X], [CHILD, X], c) && c.child.columns == ["x_y", "x_y"]
  {
    AnchoredCanRepeat();
    ReadTwice();
    UsableTwice();
    TheReading();
    BareForms("x");
    PassEmits(BARE, CHILD, X, AnchoredAttempt(CHILD, X, BY_X.forms[0]));
  }

  // --- names that differ in case only -----------------------------------------------------------

  const UPPER := Column("A", "int4", false, "")

  const LOWER := Column("a", "int4", false, "")

  const READER := Table("s", "c", [LOWER], [], [], [], "")

  const Y := Table("s", "y", [UPPER, LOWER], ["A", "a"], [], [], "")

  const BY_Y := CompositeTarget(Y, [Form("y", Exact)])

  lemma ReadFolded()
    ensures EqualFold("A", "a")
    ensures READER.FindColumn("A") == Some(LOWER) == READER.FindColumn("a")
    ensures MirrorAttempt(READER, Y).columns == ["a", "a"]
    ensures !HasAnchor(READER, Y.primaryKey, "y")
  {
    assert Lower("A") == "a" == Lower("a");
    var readings := MirrorReadings(READER, Y.primaryKey);
    assert readings == [Some("a"), Some("a")];
    assert readings[..1] == [Some("a")];
    assert readings[..1][..0] == [];
    assert Kept(readings[..1]) == ["a"];
    assert [LOWER][1..] == [];
    forall k | k in Y.primaryKey ensures !IsAnchored(READER, "y", k) {
      assert |Anchor("y", k)| == 3 && |Lower(Anchor("y", k))| == 3;
    }
  }

  lemma UsableFolded()
    ensures IsUsable(READER, Y, ["a", "a"]) && IsTarget(Y) && READER.Ref() != Y.Ref()
  {
    ReadFolded();
    assert Y.FindColumn("A") == Some(UPPER) && Y.FindColumn("a") == Some(UPPER);
    ColumnsOfExactly(READER, ["a", "a"]);
    ColumnsOfExactly(Y, ["A", "a"]);
    assert READER.Ref()[2] == 'c' && Y.Ref()[2] == 'y';
  }

  lemma TheFoldedReading()
    ensures ReadingsOf(READER, BY_Y) == [MirrorAttempt(READER, Y)]
  {
    var mirror := MirrorAttempt(READER, Y);
    ReadFolded();
    UsableFolded();
    assert BY_Y.forms[..0] == [];
    assert Attempts(READER, Y, []) == [mirror];
    assert Attempts(READER, Y, BY_Y.forms) == [mirror];
    assert IsReading(READER, BY_Y, mirror);
    assert [mirror][..0] == [];
    assert Readable(READER, BY_Y, []) == [];
  }

  /** The pass over s.c and s.y maps both columns of the key of s.y to the one column a. */
  lemma MirrorCanRepeat()
    ensures exists c :: IsComposite(BARE, [READER, Y], [READER, Y], c) && c.child.columns == ["a", "a"]
  {
    ReadFolded();
    UsableFolded();
    TheFoldedReading();
    BareForms("y");
    PassEmits(BARE, READER, Y, MirrorAttempt(READER, Y));
  }
}
