/**
  The rendered pair as a lookup key, internal/infer/evidence.go: for names of which
  characters two different pairs of keys can be told apart by the text they are rendered to.
 */
module PairNames {
  import opened Text
  import opened Model
  import opened Evidence
  import opened EvidenceFold
  import opened EvidenceApply

  const DOT := '.'
  const COMMA := ','
  const SPACE := ' '

  /** The characters that names may have besides letters. */
  type Alphabet = char -> bool

  predicate IsLetter(c: char) { 'a' <= c <= 'z' || 'A' <= c <= 'Z' }

  predicate IsOver(a: Alphabet, name: string) { forall c | c in name :: a(c) || IsLetter(c) }

  predicate IsKeyOver(a: Alphabet, k: KeyRef) {
    IsOver(a, k.schema) && IsOver(a, k.table) && k.columns != [] && forall c | c in k.columns :: IsOver(a, c)
  }

  /** No dots; no commas or no spaces; and not all three bytes of the arrow. */
  predicate IsTellable(a: Alphabet) {
    !a(DOT) && !(a(COMMA) && a(SPACE)) && !(a(ARROW[0]) && a(ARROW[1]) && a(ARROW[2]))
  }

  // --- lists of columns ------------------------------------------------------------------------

  lemma {:induction false} JoinLacks(names: seq<string>, c: char)
    requires forall n | n in names :: c !in n
    requires c != COMMA && c != SPACE
    ensures c !in Join(names, ", ")
  {
    if |names| > 1 { JoinLacks(names[1..], c); }
  }

  lemma Separated(name: string, x: string)
    ensures name + ", " + x == name + [COMMA] + ([SPACE] + x)
    ensures name + ", " + x == (name + [COMMA]) + [SPACE] + x
  {
  }

  lemma JoinSplits(names: seq<string>)
    requires |names| > 1
    ensures Join(names, ", ") == names[0] + [COMMA] + ([SPACE] + Join(names[1..], ", "))
    ensures Join(names, ", ") == (names[0] + [COMMA]) + [SPACE] + Join(names[1..], ", ")
  {
    Separated(names[0], Join(names[1..], ", "));
  }

  lemma HasSeparator(names: seq<string>, sep: char)
    requires sep == COMMA || sep == SPACE
    ensures |names| > 1 ==> sep in Join(names, ", ")
  {
    if |names| > 1 {
      JoinSplits(names);
      assert Join(names, ", ")[|names[0]|] == COMMA && Join(names, ", ")[|names[0]| + 1] == SPACE;
    }
  }

  /** Of two joined lists, the first names and the joined others. */
  lemma HeadsAgree(a: seq<string>, b: seq<string>, sep: char)
    requires |a| > 1 && |b| > 1 && Join(a, ", ") == Join(b, ", ")
    requires (sep == COMMA || sep == SPACE) && sep !in a[0] && sep !in b[0]
    ensures a[0] == b[0] && Join(a[1..], ", ") == Join(b[1..], ", ")
  {
    var x, y := Join(a[1..], ", "), Join(b[1..], ", ");
    JoinSplits(a);
    JoinSplits(b);
    if sep == COMMA {
      SplitAtFirst(COMMA, a[0], [SPACE] + x, b[0], [SPACE] + y);
      assert ([SPACE] + x)[1..] == x && ([SPACE] + y)[1..] == y;
    } else {
      SplitAtFirst(SPACE, a[0] + [COMMA], x, b[0] + [COMMA], y);
      assert (a[0] + [COMMA])[..|a[0]|] == a[0] && (b[0] + [COMMA])[..|b[0]|] == b[0];
    }
  }

  /** Names without one of the two characters of the separator can be joined and told apart. */
  lemma {:induction false} JoinTellsApart(a: seq<string>, b: seq<string>, sep: char)
    requires a != [] && b != [] && (sep == COMMA || sep == SPACE)
    requires forall n | n in a :: sep !in n
    requires forall n | n in b :: sep !in n
    requires Join(a, ", ") == Join(b, ", ")
    ensures a == b
    decreases |a|
  {
    assert a[0] in a && b[0] in b;
    HasSeparator(a, sep);
    HasSeparator(b, sep);
    if |a| == 1 && |b| == 1 {
      assert a == [a[0]] && b == [b[0]];
    } else if |a| > 1 && |b| > 1 {
      HeadsAgree(a, b, sep);
      JoinTellsApart(a[1..], b[1..], sep);
      assert a == [a[0]] + a[1..] && b == [b[0]] + b[1..];
    }
  }

  /** The columns of a key as they are written. */
  function Rest(k: KeyRef): string {
    if |k.columns| == 1 then k.columns[0] else "(" + Join(k.columns, ", ") + ")"
  }

  lemma RestHas(k: KeyRef, sep: char)
    requires (sep == COMMA || sep == SPACE) && |k.columns| > 1
    ensures sep in Rest(k)
  {
    HasSeparator(k.columns, sep);
    var i :| 0 <= i < |Join(k.columns, ", ")| && Join(k.columns, ", ")[i] == sep;
    assert Rest(k)[i + 1] == sep;
  }

  lemma RestTellsApart(a: KeyRef, b: KeyRef, sep: char)
    requires a.columns != [] && b.columns != [] && (sep == COMMA || sep == SPACE)
    requires forall n | n in a.columns :: sep !in n
    requires forall n | n in b.columns :: sep !in n
    requires Rest(a) == Rest(b)
    ensures a.columns == b.columns
  {
    assert a.columns[0] in a.columns && b.columns[0] in b.columns;
    if |a.columns| > 1 { RestHas(a, sep); }
    if |b.columns| > 1 { RestHas(b, sep); }
    if |a.columns| == 1 && |b.columns| == 1 {
      assert a.columns == [a.columns[0]] && b.columns == [b.columns[0]];
    } else if |a.columns| > 1 && |b.columns| > 1 {
      var x, y := Join(a.columns, ", "), Join(b.columns, ", ");
      assert Rest(a)[1..|Rest(a)| - 1] == x && Rest(b)[1..|Rest(b)| - 1] == y;
      JoinTellsApart(a.columns, b.columns, sep);
    }
  }

  // --- where the arrow is --------------------------------------------------------------------

  predicate HasWholeArrow(s: string) { ARROW[0] in s && ARROW[1] in s && ARROW[2] in s }

  lemma ArrowAt(x: string, u: string, i: nat)
    requires i < |x + ARROW + u|
    ensures (x + ARROW + u)[i] ==
      if i < |x| then x[i] else if i < |x| + 3 then ARROW[i - |x|] else u[i - |x| - 3]
  {
  }

  /** Two arrows in one text do not overlap, so an earlier one leaves the later one whole. */
  lemma EarlierArrow(x: string, u: string, y: string, v: string)
    requires x + ARROW + u == y + ARROW + v && |x| < |y|
    ensures HasWholeArrow(u)
  {
    var k := |y|;
    forall j | 0 <= j < 3 ensures (x + ARROW + u)[k + j] == ARROW[j] {
      ArrowAt(y, v, k + j);
    }
    ArrowAt(x, u, k);
    ArrowAt(x, u, k + 1);
    ArrowAt(x, u, k + 2);
    assert k >= |x| + 3;
    assert u[k - |x| - 3] == ARROW[0] && u[k + 1 - |x| - 3] == ARROW[1] && u[k + 2 - |x| - 3] == ARROW[2];
  }

  lemma ArrowTellsApart(x: string, u: string, y: string, v: string)
    requires x + ARROW + u == y + ARROW + v && !HasWholeArrow(u) && !HasWholeArrow(v)
    ensures x == y && u == v
  {
    if |x| < |y| { EarlierArrow(x, u, y, v); }
    if |y| < |x| { EarlierArrow(y, v, x, u); }
    assert (x + ARROW + u)[..|x|] == x && (y + ARROW + v)[..|y|] == y;
    assert (x + ARROW + u)[|x| + 3..] == u && (y + ARROW + v)[|y| + 3..] == v;
  }

  // --- pairs ------------------------------------------------------------------------------------

  lemma Dotted(x: string, y: string, z: string)
    ensures x + "." + y + "." + z == x + [DOT] + (y + [DOT] + z)
  {
  }

  lemma StringParts(k: KeyRef)
    ensures k.String() == k.schema + [DOT] + (k.table + [DOT] + Rest(k))
  {
    Dotted(k.schema, k.table, Rest(k));
    if |k.columns| != 1 {
      assert k.schema + "." + k.table + ".(" == k.schema + "." + k.table + "." + "(";
    }
  }

  /** What stands between the dots of a rendered pair. */
  function Middle(child: KeyRef, parent: KeyRef): string { Rest(child) + ARROW + parent.schema }

  lemma PairParts(child: KeyRef, parent: KeyRef)
    ensures PairRender()(child, parent)
         == child.schema + [DOT] + (child.table + [DOT]
            + (Middle(child, parent) + [DOT] + (parent.table + [DOT] + Rest(parent))))
  {
    StringParts(child);
    StringParts(parent);
  }

  lemma NoDots(a: Alphabet, k: KeyRef)
    requires IsTellable(a) && IsKeyOver(a, k)
    ensures DOT !in k.schema && DOT !in k.table && DOT !in Rest(k)
  {
    forall n | n in k.columns ensures DOT !in n {
      assert IsOver(a, n);
    }
    JoinLacks(k.columns, DOT);
    if |k.columns| == 1 { assert k.columns[0] in k.columns; }
  }

  lemma PartsTellApart(a: Alphabet, c1: KeyRef, p1: KeyRef, c2: KeyRef, p2: KeyRef)
    requires IsTellable(a) && IsKeyOver(a, c1) && IsKeyOver(a, p1) && IsKeyOver(a, c2) && IsKeyOver(a, p2)
    requires PairRender()(c1, p1) == PairRender()(c2, p2)
    ensures c1.schema == c2.schema && c1.table == c2.table && Middle(c1, p1) == Middle(c2, p2)
    ensures p1.table == p2.table && Rest(p1) == Rest(p2)
  {
    PairParts(c1, p1);
    PairParts(c2, p2);
    NoDots(a, c1);
    NoDots(a, p1);
    NoDots(a, c2);
    NoDots(a, p2);
    var end1, end2 := p1.table + [DOT] + Rest(p1), p2.table + [DOT] + Rest(p2);
    var mid1, mid2 := Middle(c1, p1) + [DOT] + end1, Middle(c2, p2) + [DOT] + end2;
    SplitAtFirst(DOT, c1.schema, c1.table + [DOT] + mid1, c2.schema, c2.table + [DOT] + mid2);
    SplitAtFirst(DOT, c1.table, mid1, c2.table, mid2);
    SplitAtFirst(DOT, Middle(c1, p1), end1, Middle(c2, p2), end2);
    SplitAtFirst(DOT, p1.table, Rest(p1), p2.table, Rest(p2));
  }

  lemma NoWholeArrow(a: Alphabet, name: string)
    requires IsTellable(a) && IsOver(a, name)
    ensures !HasWholeArrow(name)
  {
  }

  lemma ColumnsTellApart(a: Alphabet, k: KeyRef, l: KeyRef)
    requires IsTellable(a) && IsKeyOver(a, k) && IsKeyOver(a, l) && Rest(k) == Rest(l)
    ensures k.columns == l.columns
  {
    var sep := if a(COMMA) then SPACE else COMMA;
    forall n | n in k.columns || n in l.columns ensures sep !in n {
      assert IsOver(a, n);
    }
    RestTellsApart(k, l, sep);
  }

  /** With names over such an alphabet, a rendered pair stands for one pair of keys. */
  lemma PairTellsApart(a: Alphabet, c1: KeyRef, p1: KeyRef, c2: KeyRef, p2: KeyRef)
    requires IsTellable(a) && IsKeyOver(a, c1) && IsKeyOver(a, p1) && IsKeyOver(a, c2) && IsKeyOver(a, p2)
    requires PairRender()(c1, p1) == PairRender()(c2, p2)
    ensures c1 == c2 && p1 == p2
  {
    PartsTellApart(a, c1, p1, c2, p2);
    NoWholeArrow(a, p1.schema);
    NoWholeArrow(a, p2.schema);
    ArrowTellsApart(Rest(c1), p1.schema, Rest(c2), p2.schema);
    ColumnsTellApart(a, c1, c2);
    ColumnsTellApart(a, p1, p2);
  }

  // --- exactly ------------------------------------------------------------------------------------

  /** Names over the alphabet, none of them empty. */
  predicate IsNamedOver(a: Alphabet, k: KeyRef) {
    IsKeyOver(a, k) && k.schema != "" && k.table != "" && forall c | c in k.columns :: c != ""
  }

  /** Two different pairs with one rendering. */
  ghost predicate Collide(a: Alphabet, c1: KeyRef, p1: KeyRef, c2: KeyRef, p2: KeyRef) {
    && IsNamedOver(a, c1) && IsNamedOver(a, p1) && IsNamedOver(a, c2) && IsNamedOver(a, p2)
    && (c1, p1) != (c2, p2) && PairRender()(c1, p1) == PairRender()(c2, p2)
  }

  const PARENT := SingleKey("p", "p", "p")

  lemma DotsCollide(a: Alphabet)
    requires a(DOT)
    ensures Collide(a, SingleKey("..", ".", "."), PARENT, SingleKey(".", "..", "."), PARENT)
  {
    assert SingleKey("..", ".", ".").String() == "......" == SingleKey(".", "..", ".").String();
  }

  lemma ListsCollide(a: Alphabet)
    requires a(COMMA) && a(SPACE)
    ensures Collide(a, KeyRef("s", "t", [",, ,", ","]), PARENT, KeyRef("s", "t", [",", ",, ,"]), PARENT)
  {
    var x, y := [",, ,", ","], [",", ",, ,"];
    assert x[1..] == [","] && y[1..] == [",, ,"];
    assert Join(x, ", ") == ",, ,, ," == Join(y, ", ");
    assert |x[0]| != |y[0]|;
  }

  lemma ArrowsCollide(a: Alphabet)
    requires a(ARROW[0]) && a(ARROW[1]) && a(ARROW[2])
    ensures Collide(a, SingleKey("s", "t", ARROW), SingleKey(ARROW + ARROW, "t", "c"),
                    SingleKey("s", "t", ARROW + ARROW), SingleKey(ARROW, "t", "c"))
  {
    var c1, p1 := SingleKey("s", "t", ARROW), SingleKey(ARROW + ARROW, "t", "c");
    var c2, p2 := SingleKey("s", "t", ARROW + ARROW), SingleKey(ARROW, "t", "c");
    PairParts(c1, p1);
    PairParts(c2, p2);
    assert Middle(c1, p1) == Middle(c2, p2);
    assert |c1.columns[0]| != |c2.columns[0]|;
  }

  /** The alphabets over which the rendering tells all pairs apart are exactly these. */
  lemma TellsApartExactly(a: Alphabet)
    ensures IsTellable(a) <==> forall c1, p1, c2, p2 :: !Collide(a, c1, p1, c2, p2)
  {
    if IsTellable(a) {
      forall c1, p1, c2, p2 ensures !Collide(a, c1, p1, c2, p2) {
        if Collide(a, c1, p1, c2, p2) { PairTellsApart(a, c1, p1, c2, p2); }
      }
    } else if a(DOT) {
      DotsCollide(a);
    } else if a(COMMA) && a(SPACE) {
      ListsCollide(a);
    } else {
      ArrowsCollide(a);
    }
  }

  ghost predicate AllOver(a: Alphabet, cs: seq<Candidate>) {
    forall i | 0 <= i < |cs| :: IsKeyOver(a, cs[i].child) && IsKeyOver(a, cs[i].parent)
  }

  /** So a list without a repeated pair of keys is a list without a repeated rendering. */
  lemma PlainPairsOnce(a: Alphabet, cs: seq<Candidate>)
    requires IsTellable(a) && AllOver(a, cs)
    ensures NoPairTwice(PairRender(), cs) <==> forall i, j | 0 <= i < j < |cs| :: cs[i].Identity() != cs[j].Identity()
  {
    forall i, j | 0 <= i < j < |cs|
      ensures At(PairRender(), cs[i]) == At(PairRender(), cs[j]) <==> cs[i].Identity() == cs[j].Identity()
    {
      if At(PairRender(), cs[i]) == At(PairRender(), cs[j]) {
        PairTellsApart(a, cs[i].child, cs[i].parent, cs[j].child, cs[j].parent);
      }
    }
  }

  /** A quoted identifier may hold a dot, and then two tables share every lookup key. */
  lemma RenderingCanCollide()
    ensures var a, b, p := SingleKey("s", "a.b", "c"), SingleKey("s.a", "b", "c"), SingleKey("s", "p", "id");
      a != b && PairRender()(a, p) == PairRender()(b, p)
  {
    var a, b := SingleKey("s", "a.b", "c"), SingleKey("s.a", "b", "c");
    assert a.String() == "s.a.b.c" == b.String();
  }
}
