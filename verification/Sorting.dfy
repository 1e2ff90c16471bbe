/**
  Sorting by a total preorder, and the byte order of strings: what sort.Strings and
  sort.SliceStable are used for in internal/infer.
 */
module Sorting {
  import opened Counting

  ghost predicate TotalPreorder<T(!new)>(le: (T, T) -> bool) {
    && (forall a, b :: le(a, b) || le(b, a))
    && (forall a, b, c :: le(a, b) && le(b, c) ==> le(a, c))
  }

  ghost predicate Sorted<T>(s: seq<T>, le: (T, T) -> bool) {
    forall i, j | 0 <= i < j < |s| :: le(s[i], s[j])
  }

  function Insert<T>(x: T, s: seq<T>, le: (T, T) -> bool): seq<T> {
    if s == [] || le(x, s[0]) then [x] + s else [s[0]] + Insert(x, s[1..], le)
  }

  function Sort<T>(s: seq<T>, le: (T, T) -> bool): seq<T> {
    if s == [] then [] else Insert(s[0], Sort(s[1..], le), le)
  }

  lemma SortedCons<T(!new)>(x: T, s: seq<T>, le: (T, T) -> bool)
    requires Sorted(s, le) && forall y | y in s :: le(x, y)
    ensures Sorted([x] + s, le)
  {
  }

  lemma FirstIsLeast<T(!new)>(s: seq<T>, le: (T, T) -> bool)
    requires TotalPreorder(le) && Sorted(s, le) && s != []
    ensures Sorted(s[1..], le) && forall y | y in s :: le(s[0], y)
  {
  }

  lemma {:induction false} InsertSorted<T(!new)>(x: T, s: seq<T>, le: (T, T) -> bool)
    requires TotalPreorder(le) && Sorted(s, le)
    ensures Sorted(Insert(x, s, le), le)
    ensures forall y :: y in Insert(x, s, le) <==> y == x || y in s
  {
    if s == [] {
    } else {
      FirstIsLeast(s, le);
      assert s == [s[0]] + s[1..];
      if le(x, s[0]) {
        SortedCons(x, s, le);
      } else {
        InsertSorted(x, s[1..], le);
        SortedCons(s[0], Insert(x, s[1..], le), le);
      }
    }
  }

  /** Sorted, and with the same elements. */
  lemma {:induction false} SortSorts<T(!new)>(s: seq<T>, le: (T, T) -> bool)
    requires TotalPreorder(le)
    ensures Sorted(Sort(s, le), le)
    ensures multiset(Sort(s, le)) == multiset(s)
  {
    if s != [] {
      SortSorts(s[1..], le);
      InsertSorted(s[0], Sort(s[1..], le), le);
      InsertPermutes(s[0], Sort(s[1..], le), le);
      assert s == [s[0]] + s[1..];
    }
  }

  /** The elements are the same whatever the comparison. */
  lemma {:induction false} SortPermutes<T>(s: seq<T>, le: (T, T) -> bool)
    ensures multiset(Sort(s, le)) == multiset(s)
    ensures |Sort(s, le)| == |s|
  {
    if s != [] {
      SortPermutes(s[1..], le);
      InsertPermutes(s[0], Sort(s[1..], le), le);
      assert s == [s[0]] + s[1..];
    }
  }

  lemma {:induction false} InsertPermutes<T>(x: T, s: seq<T>, le: (T, T) -> bool)
    ensures multiset(Insert(x, s, le)) == multiset(s) + multiset{x}
    ensures |Insert(x, s, le)| == |s| + 1
  {
    if s != [] && !le(x, s[0]) {
      InsertPermutes(x, s[1..], le);
      assert s == [s[0]] + s[1..];
    }
  }

  /** Those that come neither before x nor after it. */
  function Like<T>(x: T, le: (T, T) -> bool): T -> bool { y => le(x, y) && le(y, x) }

  lemma {:induction false} InsertStable<T(!new)>(y: T, s: seq<T>, x: T, le: (T, T) -> bool)
    requires TotalPreorder(le)
    ensures Filter(Insert(y, s, le), Like(x, le)) == Filter([y] + s, Like(x, le))
  {
    if s != [] && !le(y, s[0]) {
      InsertStable(y, s[1..], x, le);
      assert ([y] + s)[1..] == s && ([y] + s[1..])[1..] == s[1..];
      assert !(Like(x, le)(y) && Like(x, le)(s[0]));
    }
  }

  /** The sort is stable: those that compare equal keep their order. */
  lemma {:induction false} SortIsStable<T(!new)>(s: seq<T>, x: T, le: (T, T) -> bool)
    requires TotalPreorder(le)
    ensures Filter(Sort(s, le), Like(x, le)) == Filter(s, Like(x, le))
  {
    if s != [] {
      SortIsStable(s[1..], x, le);
      InsertStable(s[0], Sort(s[1..], le), x, le);
      assert s == [s[0]] + s[1..];
      assert ([s[0]] + Sort(s[1..], le))[1..] == Sort(s[1..], le);
    }
  }

  // --- strings --------------------------------------------------------------------------

  /** a <= b, byte by byte. */
  predicate StringLe(a: string, b: string) {
    a == "" || (b != "" && (a[0] < b[0] || (a[0] == b[0] && StringLe(a[1..], b[1..]))))
  }

  lemma {:induction false} StringLeTotal(a: string, b: string)
    ensures StringLe(a, b) || StringLe(b, a)
  {
    if a != "" && b != "" { StringLeTotal(a[1..], b[1..]); }
  }

  lemma {:induction false} StringLeTransitive(a: string, b: string, c: string)
    requires StringLe(a, b) && StringLe(b, c)
    ensures StringLe(a, c)
  {
    if a != "" && a[0] == b[0] == c[0] { StringLeTransitive(a[1..], b[1..], c[1..]); }
  }

  lemma {:induction false} StringLeAntisymmetric(a: string, b: string)
    requires StringLe(a, b) && StringLe(b, a)
    ensures a == b
  {
    if a != "" {
      StringLeAntisymmetric(a[1..], b[1..]);
      assert a == [a[0]] + a[1..] && b == [b[0]] + b[1..];
    }
  }

  /** Dictionary order: the one is the beginning of the other, or the smaller byte comes first where they part. */
  lemma {:induction false} StringLeExactly(a: string, b: string)
    ensures StringLe(a, b) <==> exists i: nat :: Parts(a, b, i)
  {
    if a == "" {
      assert Parts(a, b, 0);
    } else if b != "" {
      StringLeExactly(a[1..], b[1..]);
      if a[0] < b[0] {
        assert Parts(a, b, 0);
      } else if a[0] == b[0] {
        if i: nat :| Parts(a, b, i) {
          assert i > 0 && Parts(a[1..], b[1..], i - 1);
        }
        if i: nat :| Parts(a[1..], b[1..], i) {
          assert Parts(a, b, i + 1);
        }
      }
    }
  }

  /** a and b agree up to i; there a ends, or has the smaller byte. */
  predicate Parts(a: string, b: string, i: nat) {
    i <= |a| && i <= |b| && (forall k | 0 <= k < i :: a[k] == b[k]) && (i == |a| || (i < |b| && a[i] < b[i]))
  }

  function ByString(): (string, string) -> bool { (a, b) => StringLe(a, b) }

  lemma ByStringIsOrder()
    ensures TotalPreorder(ByString())
  {
    forall a, b ensures StringLe(a, b) || StringLe(b, a) { StringLeTotal(a, b); }
    forall a, b, c | StringLe(a, b) && StringLe(b, c) ensures StringLe(a, c) { StringLeTransitive(a, b, c); }
  }
}
