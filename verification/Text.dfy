/**
  String helpers the program takes from Go's `strings` package. A Go string is a
  sequence of bytes; here each `char` stands for one byte. Case folding is ASCII.
 */
module Text {

  datatype Option<+T> = None | Some(value: T)

  function LowerChar(c: char): char {
    if 'A' <= c <= 'Z' then (c as int + 32) as char else c
  }

  function Lower(s: string): (r: string)
    ensures |r| == |s|
  {
    seq(|s|, i requires 0 <= i < |s| => LowerChar(s[i]))
  }

  /** strings.EqualFold. */
  predicate EqualFold(a: string, b: string) {
    Lower(a) == Lower(b)
  }

  /** The two letters are the same but for case. */
  predicate SameLetter(c: char, d: char) {
    || c == d
    || ('A' <= c <= 'Z' && d as int == c as int + 32)
    || ('A' <= d <= 'Z' && c as int == d as int + 32)
  }

  /** Letter by letter the same, but for case. */
  predicate Recased(s: string, t: string) { |s| == |t| && forall i | 0 <= i < |s| :: SameLetter(s[i], t[i]) }

  lemma FoldsExactly(a: string, b: string)
    ensures EqualFold(a, b) <==> Recased(a, b)
  {
    if EqualFold(a, b) {
      forall i | 0 <= i < |a| ensures SameLetter(a[i], b[i]) {
        assert Lower(a)[i] == Lower(b)[i];
      }
    }
    if Recased(a, b) {
      forall i | 0 <= i < |a| ensures Lower(a)[i] == Lower(b)[i] {
        assert SameLetter(a[i], b[i]);
      }
    }
  }

  lemma LowerConcat(a: string, b: string)
    ensures Lower(a + b) == Lower(a) + Lower(b)
  {
  }

  predicate HasPrefix(s: string, p: string) {
    p <= s
  }

  predicate HasSuffix(s: string, p: string) {
    |p| <= |s| && s[|s| - |p|..] == p
  }

  /** strings.Contains. */
  predicate Contains(s: string, part: string) {
    part <= s || (s != "" && Contains(s[1..], part))
  }

  lemma {:induction false} ContainsMiddle(a: string, part: string, b: string)
    ensures Contains(a + (part + b), part)
  {
    if a == "" {
      assert a + (part + b) == part + b;
    } else {
      assert (a + (part + b))[1..] == a[1..] + (part + b);
      ContainsMiddle(a[1..], part, b);
    }
  }

  /** A part is contained where there is something in front of it and something behind. */
  lemma {:induction false} ContainsExactly(s: string, part: string)
    ensures Contains(s, part) <==> exists a, b :: s == a + (part + b)
  {
    if part <= s {
      assert s == "" + (part + s[|part|..]);
    } else if s != "" && Contains(s[1..], part) {
      ContainsExactly(s[1..], part);
      var a, b :| s[1..] == a + (part + b);
      assert s == ([s[0]] + a) + (part + b);
    }
    if a, b :| s == a + (part + b) {
      ContainsMiddle(a, part, b);
    }
  }

  /** strings.Join. */
  function Join(parts: seq<string>, sep: string): string {
    if |parts| == 0 then ""
    else if |parts| == 1 then parts[0]
    else parts[0] + sep + Join(parts[1..], sep)
  }

  // --- trimming ---------------------------------------------------------------

  function TrimLeft(s: string, cut: char -> bool): (r: string)
    ensures |r| <= |s| && r == s[|s| - |r|..]
    ensures r != "" ==> !cut(r[0])
    ensures r == "" <==> forall c | c in s :: cut(c)
  {
    if s == "" then ""
    else
      assert s == [s[0]] + s[1..];
      if cut(s[0]) then TrimLeft(s[1..], cut) else s
  }

  function TrimRight(s: string, cut: char -> bool): (r: string)
    ensures |r| <= |s| && r == s[..|r|]
    ensures r != "" ==> !cut(r[|r| - 1])
    ensures r == "" <==> forall c | c in s :: cut(c)
  {
    if s == "" then ""
    else
      assert s == s[..|s| - 1] + [s[|s| - 1]];
      if cut(s[|s| - 1]) then TrimRight(s[..|s| - 1], cut) else s
  }

  /** strings.Trim and strings.TrimFunc. */
  function Trim(s: string, cut: char -> bool): (r: string)
    ensures |r| <= |s|
    ensures r == "" <==> forall c | c in s :: cut(c)
  {
    var t := TrimLeft(s, cut);
    assert s == s[..|s| - |t|] + t;
    TrimRight(t, cut)
  }

  lemma TrimKeeps(s: string, cut: char -> bool)
    requires s != "" && !cut(s[0]) && !cut(s[|s| - 1])
    ensures Trim(s, cut) == s
  {
    assert TrimLeft(s, cut) == s;
    assert TrimRight(s, cut) == s;
  }

  ghost predicate AllCut(x: string, cut: char -> bool) { forall c | c in x :: cut(c) }

  lemma AllCutConcat(x: string, y: string, cut: char -> bool)
    requires AllCut(x, cut) && AllCut(y, cut)
    ensures AllCut(x + y, cut)
  {
  }

  lemma {:induction false} TrimLeftTakes(s: string, cut: char -> bool) returns (a: string)
    ensures s == a + TrimLeft(s, cut) && AllCut(a, cut)
  {
    if s == "" || !cut(s[0]) {
      a := "";
    } else {
      var more := TrimLeftTakes(s[1..], cut);
      a := [s[0]] + more;
      AllCutConcat([s[0]], more, cut);
      Regroup([s[0]], more, TrimLeft(s[1..], cut));
    }
  }

  lemma {:induction false} TrimRightTakes(s: string, cut: char -> bool) returns (b: string)
    ensures s == TrimRight(s, cut) + b && AllCut(b, cut)
  {
    if s == "" || !cut(s[|s| - 1]) {
      b := "";
    } else {
      var n := |s| - 1;
      var more := TrimRightTakes(s[..n], cut);
      b := more + [s[n]];
      AllCutConcat(more, [s[n]], cut);
      Regroup(TrimRight(s[..n], cut), more, [s[n]]);
    }
  }

  /** What is trimmed off is what there is to cut at both ends. */
  lemma TrimTakes(s: string, cut: char -> bool) returns (a: string, b: string)
    ensures s == a + (Trim(s, cut) + b) && AllCut(a, cut) && AllCut(b, cut)
  {
    a := TrimLeftTakes(s, cut);
    b := TrimRightTakes(TrimLeft(s, cut), cut);
  }

  /** And no more is left to cut. */
  lemma TrimLeavesNone(s: string, cut: char -> bool)
    requires Trim(s, cut) != ""
    ensures !cut(Trim(s, cut)[0]) && !cut(Trim(s, cut)[|Trim(s, cut)| - 1])
  {
    var t := TrimLeft(s, cut);
    assert TrimRight(t, cut)[0] == t[0];
  }

  predicate IsUnderscore(c: char) { c == '_' }

  /** The ASCII space characters of strings.TrimSpace. */
  predicate IsBlank(c: char) {
    c == ' ' || '\t' <= c <= '\r'
  }

  function TrimSpace(s: string): string { Trim(s, IsBlank) }

  /** The first separator is where the first part ends. */
  lemma SplitAtFirst(sep: char, a: string, x: string, b: string, y: string)
    requires sep !in a && sep !in b
    requires a + [sep] + x == b + [sep] + y
    ensures a == b && x == y
  {
    var s := a + [sep] + x;
    assert forall i | 0 <= i < |a| :: s[i] == a[i];
    assert forall i | 0 <= i < |b| :: s[i] == b[i];
    assert s[|a|] == sep && s[|b|] == sep;
    assert |a| == |b|;
    assert s[..|a|] == a && (b + [sep] + y)[..|b|] == b;
    assert s[|a| + 1..] == x && (b + [sep] + y)[|b| + 1..] == y;
  }

  // --- slices ---------------------------------------------------------------

  /** Dropping n elements from a sequence cut at k and continued by u. */
  lemma DropCut<T>(s: seq<T>, k: nat, u: seq<T>, n: nat)
    requires n <= k <= |s|
    ensures (s[..k] + u)[n..] == s[n..][..k - n] + u
    ensures (s[..k] + u)[..n] == s[..n]
  {
  }

  lemma DropDrop<T>(s: seq<T>, n: nat, k: nat)
    requires n <= k <= |s|
    ensures s[n..][k - n..] == s[k..]
    ensures s[n..][..k - n] == s[n..k]
    ensures s[..n] + s[n..k] == s[..k]
  {
  }

  lemma Regroup<T>(a: seq<T>, b: seq<T>, c: seq<T>)
    ensures a + (b + c) == a + b + c
  {
  }
}
