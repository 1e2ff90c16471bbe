/**
  The signature of a reading, internal/infer/composite.go:161-167: the column names joined by
  commas and lowered. When it tells column lists apart, and so what the readings of a
  target are in terms of columns.
 */
module CompositeSignatures {
  import opened Text
  import opened Model
  import opened CompositeKeys
  import opened Composite

  const COMMA := ','

  function SignatureText(names: seq<string>): string { Lower(Join(names, ",")) }

  ghost predicate NoCommas(names: seq<string>) { forall n | n in names :: COMMA !in n }

  lemma LowerComma(s: string)
    ensures COMMA in Lower(s) <==> COMMA in s
  {
    assert forall i | 0 <= i < |s| :: Lower(s)[i] == COMMA <==> s[i] == COMMA;
    if COMMA in s {
      var i :| 0 <= i < |s| && s[i] == COMMA;
      assert Lower(s)[i] == COMMA;
    }
  }

  lemma SignatureSplits(names: seq<string>)
    requires |names| > 1
    ensures SignatureText(names) == Lower(names[0]) + [COMMA] + SignatureText(names[1..])
  {
    var rest := Join(names[1..], ",");
    assert Join(names, ",") == (names[0] + ",") + rest;
    LowerConcat(names[0] + ",", rest);
    LowerConcat(names[0], ",");
    assert Lower(",") == [COMMA];
  }

  lemma {:induction false} SignatureTellsApart(a: seq<string>, b: seq<string>)
    requires |a| == |b| && NoCommas(a) && NoCommas(b)
    requires SignatureText(a) == SignatureText(b)
    ensures SameColumns(a, b)
  {
    if |a| == 1 {
      assert Join(a, ",") == a[0] && Join(b, ",") == b[0];
    } else if |a| > 1 {
      assert a[0] in a && b[0] in b;
      SignatureSplits(a);
      SignatureSplits(b);
      LowerComma(a[0]);
      LowerComma(b[0]);
      SplitAtFirst(COMMA, Lower(a[0]), SignatureText(a[1..]), Lower(b[0]), SignatureText(b[1..]));
      SignatureTellsApart(a[1..], b[1..]);
      forall i | 0 <= i < |a| ensures EqualFold(a[i], b[i]) {
        if i > 0 { assert a[i] == a[1..][i - 1] && b[i] == b[1..][i - 1]; }
      }
    }
  }

  /** Two lists that differ and have one signature: the comma between two names is as good as one in a name. */
  lemma CommasCollide()
    ensures var a, b := [",,", ","], [",", ",,"];
      |a| == |b| && SignatureText(a) == SignatureText(b) && !SameColumns(a, b)
  {
    var a, b := [",,", ","], [",", ",,"];
    assert a[1..] == [","] && b[1..] == [",,"];
    assert Join(a, ",") == ",,,," == Join(b, ",");
    assert |Lower(a[0])| != |Lower(b[0])|;
  }

  /** Names over the alphabet, or letters. */
  predicate IsOver(a: char -> bool, name: string) {
    forall c | c in name :: a(c) || 'a' <= c <= 'z' || 'A' <= c <= 'Z'
  }

  /** Two lists of as many names over the alphabet, with one signature and different columns. */
  ghost predicate Confuses(a: char -> bool, x: seq<string>, y: seq<string>) {
    && |x| == |y| && (forall n | n in x + y :: n != "" && IsOver(a, n))
    && SignatureText(x) == SignatureText(y) && !SameColumns(x, y)
  }

  /** The signature tells column lists apart exactly over alphabets without the comma. */
  lemma TellsListsApartExactly(a: char -> bool)
    ensures !a(COMMA) <==> forall x, y :: !Confuses(a, x, y)
  {
    if a(COMMA) {
      CommasCollide();
      assert Confuses(a, [",,", ","], [",", ",,"]);
    } else {
      forall x, y ensures !Confuses(a, x, y) {
        if Confuses(a, x, y) {
          assert forall n | n in x || n in y :: n in x + y;
          SignatureTellsApart(x, y);
        }
      }
    }
  }

  // --- the readings, by their columns --------------------------------------------------------

  lemma ReadNamesHaveNoCommas(child: Table, target: CompositeTarget, m: KeyMatch)
    requires IsReading(child, target, m)
    requires forall c | c in child.columns :: COMMA !in c.name
    ensures NoCommas(m.columns)
  {
    ColumnsOfExactly(child, m.columns);
    forall n | n in m.columns ensures COMMA !in n {
      var c := child.FindColumn(n).value;
      LowerComma(n);
      LowerComma(c.name);
    }
  }

  /**
    Of a child whose column names have no commas: no two readings have the same columns, and
    every attempt that is a reading is there by its columns.
   */
  lemma ReadingsByColumns(child: Table, target: CompositeTarget, attempts: seq<KeyMatch>)
    requires forall c | c in child.columns :: COMMA !in c.name
    ensures var rs := Readable(child, target, attempts);
      && (forall i, j | 0 <= i < j < |rs| :: !SameColumns(rs[i].columns, rs[j].columns))
      && (forall m | m in attempts && IsReading(child, target, m) ::
            exists r :: r in rs && SameColumns(r.columns, m.columns))
  {
    var rs := Readable(child, target, attempts);
    ReadableExactly(child, target, attempts);
    forall i, j | 0 <= i < j < |rs| ensures !SameColumns(rs[i].columns, rs[j].columns) {
      if SameColumns(rs[i].columns, rs[j].columns) { JoinFolds(rs[i].columns, rs[j].columns); }
    }
    forall m | m in attempts && IsReading(child, target, m)
      ensures exists r :: r in rs && SameColumns(r.columns, m.columns)
    {
      var r :| r in rs && r.Signature() == m.Signature();
      ReadNamesHaveNoCommas(child, target, r);
      ReadNamesHaveNoCommas(child, target, m);
      SignatureTellsApart(r.columns, m.columns);
    }
  }
}
