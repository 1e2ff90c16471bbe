/**
  Composite keys, internal/infer/composite.go: reading a target's key in a child's
  columns, by the key's own names or with a form of the target's name in front.
 */
module CompositeKeys {
  import opened Text
  import opened Model
  import opened TableForms

  // --- what both readings need ---------------------------------------------------------

  /** eligible: the column is no surrogate key, and no declared foreign key covers it. */
  predicate Eligible(t: Table, c: Column) {
    && !(|t.primaryKey| == 1 && EqualFold(t.primaryKey[0], c.name))
    && forall k | k in t.foreignKeys :: forall n | n in k.columns :: !EqualFold(n, c.name)
  }

  /** The names in the table's declared foreign keys. */
  function Declared(keys: seq<ForeignKey>): seq<string> {
    if keys == [] then [] else keys[0].columns + Declared(keys[1..])
  }

  lemma {:induction false} DeclaredExactly(keys: seq<ForeignKey>, name: string)
    ensures name in Declared(keys) <==> exists k :: k in keys && name in k.columns
  {
    if keys != [] {
      DeclaredExactly(keys[1..], name);
      assert keys == [keys[0]] + keys[1..];
    }
  }

  /** A column is not asked about if it is its table's whole key, or a foreign key says already what it refers to. */
  lemma EligibleExactly(t: Table, c: Column)
    ensures !Eligible(t, c) <==>
      || (exists name :: t.primaryKey == [name] && EqualFold(name, c.name))
      || (exists name :: name in Declared(t.foreignKeys) && EqualFold(name, c.name))
  {
    forall name ensures name in Declared(t.foreignKeys) <==> exists k :: k in t.foreignKeys && name in k.columns {
      DeclaredExactly(t.foreignKeys, name);
    }
    if |t.primaryKey| == 1 { assert t.primaryKey == [t.primaryKey[0]]; }
  }

  /** The table's columns of these names, if all of them exist. */
  function ColumnsOf(t: Table, names: seq<string>): (cols: Option<seq<Column>>)
    ensures cols.Some? ==> |cols.value| == |names|
  {
    if names == [] then Some([])
    else
      var n := |names| - 1;
      match ColumnsOf(t, names[..n])
      case None => None
      case Some(cols) =>
        match t.FindColumn(names[n])
        case None => None
        case Some(c) => Some(cols + [c])
  }

  lemma {:induction false} ColumnsOfExactly(t: Table, names: seq<string>)
    ensures ColumnsOf(t, names).Some? <==> forall n | n in names :: t.FindColumn(n).Some?
    ensures ColumnsOf(t, names).Some? ==>
      forall i | 0 <= i < |names| :: t.FindColumn(names[i]) == Some(ColumnsOf(t, names).value[i])
  {
    if names != [] {
      var n := |names| - 1;
      assert names == names[..n] + [names[n]];
      ColumnsOfExactly(t, names[..n]);
    }
  }

  /** keyColumns. */
  method KeyColumns(t: Table, names: seq<string>) returns (cols: Option<seq<Column>>)
    ensures cols == ColumnsOf(t, names)
  {
    var out: seq<Column> := [];
    for i := 0 to |names|
      invariant ColumnsOf(t, names[..i]) == Some(out)
    {
      assert names[..i + 1][..i] == names[..i];
      var c := t.FindColumn(names[i]);
      if c.None? {
        ColumnsOfExactly(t, names);
        return None;
      }
      out := out + [c.value];
    }
    assert names[..|names|] == names;
    return Some(out);
  }

  /** Position by position, the child's type fits the parent's. */
  ghost predicate TypesFit(child: seq<Column>, parent: seq<Column>) {
    |child| == |parent|
    && forall i | 0 <= i < |child| :: CompareTypes(child[i].baseType, parent[i].baseType) != Incompatible
  }

  ghost predicate AllIdentical(child: seq<Column>, parent: seq<Column>) {
    |child| == |parent|
    && forall i | 0 <= i < |child| :: CompareTypes(child[i].baseType, parent[i].baseType) == Identical
  }

  /** compareKeys: the weakest position decides. */
  method CompareKeys(child: seq<Column>, parent: seq<Column>) returns (m: TypeMatch)
    ensures m != Incompatible <==> TypesFit(child, parent)
    ensures m == Identical <==> AllIdentical(child, parent)
  {
    if |child| != |parent| {
      return Incompatible;
    }
    m := Identical;
    for i := 0 to |child|
      invariant m != Incompatible
      invariant forall j | 0 <= j < i :: CompareTypes(child[j].baseType, parent[j].baseType) != Incompatible
      invariant m == Identical <==>
        forall j | 0 <= j < i :: CompareTypes(child[j].baseType, parent[j].baseType) == Identical
    {
      var here := CompareTypes(child[i].baseType, parent[i].baseType);
      if here == Incompatible {
        return Incompatible;
      }
      if here.Rank() < m.Rank() {
        m := here;
      }
    }
  }

  /** The child can offer these columns for the target's key. */
  ghost predicate IsUsable(child: Table, target: Table, names: seq<string>) {
    var cs, ps := ColumnsOf(child, names), ColumnsOf(target, target.primaryKey);
    cs.Some? && ps.Some? && (forall c | c in cs.value :: Eligible(child, c)) && TypesFit(cs.value, ps.value)
  }

  /** usable. */
  method Usable(child: Table, target: Table, names: seq<string>) returns (ok: bool)
    ensures ok <==> IsUsable(child, target, names)
  {
    var cs := KeyColumns(child, names);
    if cs.None? {
      return false;
    }
    for i := 0 to |cs.value|
      invariant forall j | 0 <= j < i :: Eligible(child, cs.value[j])
    {
      if !Eligible(child, cs.value[i]) {
        return false;
      }
    }
    var ps := KeyColumns(target, target.primaryKey);
    if ps.None? {
      return false;
    }
    var m := CompareKeys(cs.value, ps.value);
    return m != Incompatible;
  }

  // --- the two readings --------------------------------------------------------------------

  /** What one position of the key is read as: the anchored name if the child has it, or the key's own. */
  function ReadMirror(child: Table, k: string): Option<string> {
    match child.FindColumn(k)
    case Some(c) => Some(c.name)
    case None => None
  }

  function Anchor(form: string, k: string): string { form + "_" + k }

  predicate IsAnchored(child: Table, form: string, k: string) { child.FindColumn(Anchor(form, k)).Some? }

  function ReadAnchored(child: Table, form: string, k: string): Option<string> {
    match child.FindColumn(Anchor(form, k))
    case Some(c) => Some(c.name)
    case None => ReadMirror(child, k)
  }

  /** The readings of the positions that have one; the others are skipped silently. */
  function Kept(readings: seq<Option<string>>): (names: seq<string>)
    ensures |names| <= |readings|
  {
    if readings == [] then []
    else
      var last := readings[|readings| - 1];
      Kept(readings[..|readings| - 1]) + if last.Some? then [last.value] else []
  }

  function MirrorReadings(child: Table, key: seq<string>): seq<Option<string>> {
    seq(|key|, i requires 0 <= i < |key| => ReadMirror(child, key[i]))
  }

  function AnchoredReadings(child: Table, key: seq<string>, form: string): seq<Option<string>> {
    seq(|key|, i requires 0 <= i < |key| => ReadAnchored(child, form, key[i]))
  }

  /** resolveMirror. */
  method ResolveMirror(child: Table, target: Table) returns (cols: seq<string>)
    ensures cols == Kept(MirrorReadings(child, target.primaryKey))
  {
    var key := target.primaryKey;
    cols := [];
    for i := 0 to |key|
      invariant cols == Kept(MirrorReadings(child, key[..i]))
    {
      assert MirrorReadings(child, key[..i + 1])[..i] == MirrorReadings(child, key[..i]);
      var c := child.FindColumn(key[i]);
      if c.None? {
        continue;
      }
      cols := cols + [c.value.name];
    }
    assert key[..|key|] == key;
  }

  /** resolveAnchored. */
  method ResolveAnchored(child: Table, target: Table, form: string) returns (cols: seq<string>, anchors: nat)
    ensures cols == Kept(AnchoredReadings(child, target.primaryKey, form))
    ensures anchors > 0 <==> exists k :: k in target.primaryKey && IsAnchored(child, form, k)
  {
    var key := target.primaryKey;
    cols, anchors := [], 0;
    for i := 0 to |key|
      invariant cols == Kept(AnchoredReadings(child, key[..i], form))
      invariant anchors > 0 <==> exists k :: k in key[..i] && IsAnchored(child, form, k)
    {
      assert AnchoredReadings(child, key[..i + 1], form)[..i] == AnchoredReadings(child, key[..i], form);
      assert key[..i + 1] == key[..i] + [key[i]];
      var c := child.FindColumn(Anchor(form, key[i]));
      if c.Some? {
        cols := cols + [c.value.name];
        anchors := anchors + 1;
        assert IsAnchored(child, form, key[i]);
        continue;
      }
      var own := child.FindColumn(key[i]);
      if own.Some? {
        cols := cols + [own.value.name];
      }
    }
    assert key[..|key|] == key;
  }

  // --- alignment ----------------------------------------------------------------------------

  /** A reading as long as the key has skipped nothing. */
  lemma {:induction false} NothingSkipped(readings: seq<Option<string>>)
    requires |Kept(readings)| == |readings|
    ensures forall i | 0 <= i < |readings| :: readings[i] == Some(Kept(readings)[i])
  {
    if readings != [] {
      NothingSkipped(readings[..|readings| - 1]);
    }
  }

  /** Position i of the reading is the column named like position i of the key. */
  predicate MirrorsKey(cols: seq<string>, key: seq<string>) {
    |cols| == |key| && forall i | 0 <= i < |key| :: EqualFold(cols[i], key[i])
  }

  predicate AnchorsKey(cols: seq<string>, key: seq<string>, form: string) {
    && |cols| == |key|
    && (forall i | 0 <= i < |key| :: EqualFold(cols[i], Anchor(form, key[i])) || EqualFold(cols[i], key[i]))
    && (exists i :: 0 <= i < |key| && EqualFold(cols[i], Anchor(form, key[i])))
  }

  lemma MirrorAligns(child: Table, key: seq<string>)
    requires |Kept(MirrorReadings(child, key))| == |key|
    ensures MirrorsKey(Kept(MirrorReadings(child, key)), key)
  {
    NothingSkipped(MirrorReadings(child, key));
    forall i | 0 <= i < |key| ensures EqualFold(Kept(MirrorReadings(child, key))[i], key[i]) {
      assert MirrorReadings(child, key)[i] == ReadMirror(child, key[i]);
    }
  }

  lemma AnchoredAligns(child: Table, key: seq<string>, form: string)
    requires |Kept(AnchoredReadings(child, key, form))| == |key|
    requires exists k :: k in key && IsAnchored(child, form, k)
    ensures AnchorsKey(Kept(AnchoredReadings(child, key, form)), key, form)
  {
    var readings := AnchoredReadings(child, key, form);
    var cols := Kept(readings);
    NothingSkipped(readings);
    forall i | 0 <= i < |key|
      ensures EqualFold(cols[i], Anchor(form, key[i])) || EqualFold(cols[i], key[i])
      ensures IsAnchored(child, form, key[i]) ==> EqualFold(cols[i], Anchor(form, key[i]))
    {
      assert readings[i] == ReadAnchored(child, form, key[i]);
    }
    var k :| k in key && IsAnchored(child, form, k);
    var i :| 0 <= i < |key| && key[i] == k;
    assert EqualFold(cols[i], Anchor(form, key[i]));
  }

  // --- one column twice -----------------------------------------------------------------------

  ghost predicate DistinctFolded(names: seq<string>) {
    forall i, j | 0 <= i < j < |names| :: !EqualFold(names[i], names[j])
  }

  /** A mirrored position and an anchored one go by the same name. */
  ghost predicate Collides(child: Table, key: seq<string>, form: string) {
    exists i, j :: 0 <= i < |key| && 0 <= j < |key| && i != j
      && !IsAnchored(child, form, key[i]) && IsAnchored(child, form, key[j])
      && EqualFold(key[i], Anchor(form, key[j]))
  }

  lemma AnchorInjective(form: string, a: string, b: string)
    ensures EqualFold(Anchor(form, a), Anchor(form, b)) <==> EqualFold(a, b)
  {
    LowerConcat(form + "_", a);
    LowerConcat(form + "_", b);
    assert Lower(form + "_" + a)[|form| + 1..] == Lower(a);
    assert Lower(form + "_" + b)[|form| + 1..] == Lower(b);
  }

  /** Whose name the column of position i has. */
  function NameAt(child: Table, form: string, k: string): string {
    if IsAnchored(child, form, k) then Anchor(form, k) else k
  }

  /** Names that differ in case only are read alike. */
  lemma ReadsFold(child: Table, form: string, a: string, b: string)
    requires EqualFold(a, b)
    ensures IsAnchored(child, form, a) == IsAnchored(child, form, b)
    ensures EqualFold(NameAt(child, form, a), NameAt(child, form, b))
  {
    AnchorInjective(form, a, b);
    FirstNamedFolds(child.columns, Anchor(form, a), Anchor(form, b));
  }

  /** Two positions read the same column: their names differ in case only, or one is mirrored and the other anchored. */
  lemma NamesMeet(child: Table, form: string, a: string, b: string)
    ensures EqualFold(NameAt(child, form, a), NameAt(child, form, b)) <==>
      || EqualFold(a, b)
      || (!IsAnchored(child, form, a) && IsAnchored(child, form, b) && EqualFold(a, Anchor(form, b)))
      || (IsAnchored(child, form, a) && !IsAnchored(child, form, b) && EqualFold(Anchor(form, a), b))
  {
    AnchorInjective(form, a, b);
    if EqualFold(a, b) { ReadsFold(child, form, a, b); }
  }

  lemma AnchoredNames(child: Table, key: seq<string>, form: string)
    requires |Kept(AnchoredReadings(child, key, form))| == |key|
    ensures forall i | 0 <= i < |key| ::
      EqualFold(Kept(AnchoredReadings(child, key, form))[i], NameAt(child, form, key[i]))
  {
    var readings := AnchoredReadings(child, key, form);
    NothingSkipped(readings);
    forall i | 0 <= i < |key| ensures EqualFold(Kept(readings)[i], NameAt(child, form, key[i])) {
      assert readings[i] == ReadAnchored(child, form, key[i]);
    }
  }

  /**
    An anchored reading uses one child column for two positions exactly when the key has
    names that differ in case only, or a mirrored and an anchored position go by one name.
   */
  lemma AnchoredRepeatsExactly(child: Table, key: seq<string>, form: string)
    requires |Kept(AnchoredReadings(child, key, form))| == |key|
    ensures DistinctFolded(Kept(AnchoredReadings(child, key, form)))
       <==> DistinctFolded(key) && !Collides(child, key, form)
  {
    var cols := Kept(AnchoredReadings(child, key, form));
    AnchoredNames(child, key, form);
    forall i, j | 0 <= i < |key| && 0 <= j < |key|
      ensures EqualFold(cols[i], cols[j]) <==> EqualFold(NameAt(child, form, key[i]), NameAt(child, form, key[j]))
      ensures EqualFold(cols[i], cols[j]) <==>
        || EqualFold(key[i], key[j])
        || (!IsAnchored(child, form, key[i]) && IsAnchored(child, form, key[j])
            && EqualFold(key[i], Anchor(form, key[j])))
        || (IsAnchored(child, form, key[i]) && !IsAnchored(child, form, key[j])
            && EqualFold(Anchor(form, key[i]), key[j]))
    {
      NamesMeet(child, form, key[i], key[j]);
    }
    if Collides(child, key, form) {
      var i, j :| 0 <= i < |key| && 0 <= j < |key| && i != j
        && !IsAnchored(child, form, key[i]) && IsAnchored(child, form, key[j])
        && EqualFold(key[i], Anchor(form, key[j]));
      assert EqualFold(cols[i], cols[j]) && EqualFold(cols[j], cols[i]);
    }
  }

  /** It happens: with the form x, the column x_y answers for the key column x_y and for y. */
  lemma AnchoredCanRepeat()
    ensures var child := Table("s", "c", [Column("x_y", "int4", false, "")], [], [], [], "");
            var key := ["x_y", "y"];
      DistinctFolded(key) && Kept(AnchoredReadings(child, key, "x")) == ["x_y", "x_y"]
  {
    var c := Column("x_y", "int4", false, "");
    var child := Table("s", "c", [c], [], [], [], "");
    var key := ["x_y", "y"];
    assert Anchor("x", "y") == "x_y";
    assert |Lower(Anchor("x", "x_y"))| == 5;
    assert child.FindColumn("x_y") == Some(c);
    assert !EqualFold("x_y", Anchor("x", "x_y"));
    assert FirstNamed([c], Anchor("x", "x_y")) == None by { assert [c][1..] == []; }
    var readings := AnchoredReadings(child, key, "x");
    assert readings == [Some("x_y"), Some("x_y")];
    assert readings[..1] == [Some("x_y")];
    assert readings[..1][..0] == [];
  }

  /** A mirror reading does exactly when the key has names that differ in case only. */
  lemma MirrorRepeatsExactly(child: Table, key: seq<string>)
    requires |Kept(MirrorReadings(child, key))| == |key|
    ensures DistinctFolded(Kept(MirrorReadings(child, key))) <==> DistinctFolded(key)
  {
    MirrorAligns(child, key);
  }
}
