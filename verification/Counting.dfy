/**
  Counting: filters, multiplicities, duplicate-free lists and the sizes of their
  sets, the arithmetic behind count(*), count(DISTINCT ...) and GROUP BY.
 */
module Counting {
  import opened Text

  function Filter<T(!new)>(s: seq<T>, p: T -> bool): (r: seq<T>)
    ensures |r| <= |s|
    ensures forall x :: x in r <==> x in s && p(x)
  {
    if s == [] then []
    else
      assert s == [s[0]] + s[1..];
      (if p(s[0]) then [s[0]] else []) + Filter(s[1..], p)
  }

  /** count(*) FILTER (WHERE p). */
  function CountIf<T>(s: seq<T>, p: T -> bool): (n: nat)
    ensures n <= |s|
  {
    if s == [] then 0 else (if p(s[0]) then 1 else 0) + CountIf(s[1..], p)
  }

  function Multiplicity<T(==)>(s: seq<T>, x: T): nat {
    CountIf(s, y => y == x)
  }

  lemma {:induction false} CountSplit<T>(a: seq<T>, b: seq<T>, p: T -> bool)
    ensures CountIf(a + b, p) == CountIf(a, p) + CountIf(b, p)
  {
    if a == [] {
      assert a + b == b;
    } else {
      assert (a + b)[1..] == a[1..] + b;
      CountSplit(a[1..], b, p);
    }
  }

  lemma {:induction false} CountZero<T>(s: seq<T>, p: T -> bool)
    ensures CountIf(s, p) == 0 <==> forall x | x in s :: !p(x)
  {
    if s != [] {
      CountZero(s[1..], p);
      assert s == [s[0]] + s[1..];
    }
  }

  lemma {:induction false} CountSame<T>(s: seq<T>, p: T -> bool, q: T -> bool)
    requires forall x | x in s :: p(x) == q(x)
    ensures CountIf(s, p) == CountIf(s, q)
  {
    if s != [] {
      assert s == [s[0]] + s[1..];
      CountSame(s[1..], p, q);
    }
  }

  /** Taking one value out of a list takes its multiplicity off every count it is in. */
  lemma {:induction false} CountWithout<T(!new)>(s: seq<T>, x: T, p: T -> bool)
    ensures CountIf(s, p) == CountIf(Filter(s, y => y != x), p) + if p(x) then Multiplicity(s, x) else 0
  {
    if s != [] {
      CountWithout(s[1..], x, p);
      var rest := Filter(s[1..], y => y != x);
      if s[0] == x {
        assert Filter(s, y => y != x) == rest;
      } else {
        assert Filter(s, y => y != x) == [s[0]] + rest;
        CountSplit([s[0]], rest, p);
      }
    }
  }

  lemma {:induction false} MultiplicityWithout<T(!new)>(s: seq<T>, x: T, z: T)
    ensures Multiplicity(Filter(s, y => y != x), z) == if z == x then 0 else Multiplicity(s, z)
  {
    if z == x {
      CountZero(Filter(s, y => y != x), y => y == z);
    } else {
      CountWithout(s, x, y => y == z);
    }
  }

  lemma {:induction false} CountFiltered<T(!new)>(s: seq<T>, p: T -> bool, q: T -> bool, both: T -> bool)
    requires forall x | x in s :: both(x) <==> p(x) && q(x)
    ensures CountIf(Filter(s, p), q) == CountIf(s, both)
  {
    if s != [] {
      assert s == [s[0]] + s[1..];
      CountFiltered(s[1..], p, q, both);
      if p(s[0]) {
        assert Filter(s, p) == [s[0]] + Filter(s[1..], p);
        CountSplit([s[0]], Filter(s[1..], p), q);
      } else {
        assert Filter(s, p) == Filter(s[1..], p);
      }
    }
  }

  lemma {:induction false} MultiplicityFiltered<T(!new)>(s: seq<T>, p: T -> bool, x: T)
    requires p(x)
    ensures Multiplicity(Filter(s, p), x) == Multiplicity(s, x)
  {
    if s != [] {
      MultiplicityFiltered(s[1..], p, x);
      if p(s[0]) {
        assert Filter(s, p) == [s[0]] + Filter(s[1..], p);
        CountSplit([s[0]], Filter(s[1..], p), y => y == x);
      } else {
        assert Filter(s, p) == Filter(s[1..], p);
      }
    }
  }

  lemma MultiplicityPositive<T>(s: seq<T>, x: T)
    ensures Multiplicity(s, x) > 0 <==> x in s
  {
    CountZero(s, y => y == x);
  }

  // --- duplicate-free lists -----------------------------------------------------

  ghost predicate Distinct<T>(s: seq<T>) {
    forall i, j :: 0 <= i < j < |s| ==> s[i] != s[j]
  }

  ghost function SetOf<T>(s: seq<T>): set<T> {
    set x | x in s
  }

  lemma DistinctCons<T>(s: seq<T>)
    requires s != []
    ensures Distinct(s) <==> s[0] !in s[1..] && Distinct(s[1..])
  {
    var rest := s[1..];
    assert forall i | 0 <= i < |rest| :: rest[i] == s[i + 1];
    assert forall i | 1 <= i < |s| :: s[i] == rest[i - 1];
  }

  lemma DistinctSnoc<T>(s: seq<T>, x: T)
    ensures Distinct(s + [x]) <==> x !in s && Distinct(s)
  {
    var more := s + [x];
    assert forall i | 0 <= i < |s| :: more[i] == s[i];
    assert more[|s|] == x;
  }

  /** A list is at least as long as its set, and as long only without duplicates. */
  lemma DistinctMultiset<T>(s: seq<T>)
    ensures Distinct(s) <==> forall x :: multiset(s)[x] <= 1
    decreases |s|
  {
    if s != [] {
      var rest := s[1..];
      assert s == [s[0]] + rest;
      DistinctMultiset(rest);
      DistinctCons(s);
      assert forall x :: multiset(s)[x] == multiset(rest)[x] + if x == s[0] then 1 else 0;
      assert multiset(s)[s[0]] <= 1 <==> s[0] !in rest;
    }
  }

  lemma DistinctPart<T>(part: seq<T>, whole: seq<T>)
    requires multiset(part) <= multiset(whole) && Distinct(whole)
    ensures Distinct(part)
  {
    DistinctMultiset(part);
    DistinctMultiset(whole);
  }

  /** No two elements have the same key. */
  ghost predicate DistinctBy<T>(s: seq<T>, key: T -> string) {
    forall i, j | 0 <= i < j < |s| :: key(s[i]) != key(s[j])
  }

  lemma DistinctBySnoc<T>(s: seq<T>, x: T, key: T -> string)
    ensures DistinctBy(s + [x], key) <==> DistinctBy(s, key) && forall y | y in s :: key(y) != key(x)
  {
    var more := s + [x];
    assert forall i | 0 <= i < |s| :: more[i] == s[i];
    assert more[|s|] == x;
    if DistinctBy(more, key) {
      forall i, j | 0 <= i < j < |s| ensures key(s[i]) != key(s[j]) {
        assert key(more[i]) != key(more[j]);
      }
      forall y | y in s ensures key(y) != key(x) {
        var i :| 0 <= i < |s| && s[i] == y;
        assert key(more[i]) != key(more[|s|]);
      }
    }
  }

  /** A selection of elements with distinct keys, in any order, has distinct keys. */
  lemma DistinctByPart<T>(part: seq<T>, whole: seq<T>, key: T -> string)
    requires multiset(part) <= multiset(whole) && DistinctBy(whole, key)
    ensures DistinctBy(part, key)
  {
    assert Distinct(whole) by {
      forall i, j | 0 <= i < j < |whole| ensures whole[i] != whole[j] { assert key(whole[i]) != key(whole[j]); }
    }
    DistinctPart(part, whole);
    SubMultisetElements(part, whole);
    forall i, j | 0 <= i < j < |part| ensures key(part[i]) != key(part[j]) {
      assert part[i] in whole && part[j] in whole;
      var m :| 0 <= m < |whole| && whole[m] == part[i];
      var n :| 0 <= n < |whole| && whole[n] == part[j];
      assert m != n;
    }
  }

  // --- one list made from another ------------------------------------------------------

  /** What f gives, where it gives something, in order. */
  function SomeOf<A, B>(xs: seq<A>, f: A -> Option<B>): seq<B> {
    if xs == [] then []
    else
      var y := f(xs[|xs| - 1]);
      SomeOf(xs[..|xs| - 1], f) + if y.Some? then [y.value] else []
  }

  lemma SomeOfSnoc<A, B>(xs: seq<A>, x: A, f: A -> Option<B>)
    ensures SomeOf(xs + [x], f) == SomeOf(xs, f) + if f(x).Some? then [f(x).value] else []
  {
    assert (xs + [x])[..|xs|] == xs;
  }

  /** Where f always gives something, one result per element. */
  lemma {:induction false} SomeOfAll<A, B>(xs: seq<A>, f: A -> Option<B>)
    requires forall x | x in xs :: f(x).Some?
    ensures |SomeOf(xs, f)| == |xs| && forall i | 0 <= i < |xs| :: f(xs[i]) == Some(SomeOf(xs, f)[i])
  {
    if xs != [] {
      var n := |xs| - 1;
      assert xs[n] in xs;
      SomeOfAll(xs[..n], f);
    }
  }

  /** The lists f gives, one after the other. */
  function FlatMap<A, B>(xs: seq<A>, f: A -> seq<B>): seq<B> {
    if xs == [] then [] else FlatMap(xs[..|xs| - 1], f) + f(xs[|xs| - 1])
  }

  lemma {:induction false} FlatMapIsFrom<A, B>(xs: seq<A>, f: A -> seq<B>)
    ensures forall y | y in FlatMap(xs, f) :: exists x :: x in xs && y in f(x)
    ensures forall x, y | x in xs && y in f(x) :: y in FlatMap(xs, f)
  {
    if xs != [] {
      var n := |xs| - 1;
      FlatMapIsFrom(xs[..n], f);
      assert xs == xs[..n] + [xs[n]];
      forall y | y in FlatMap(xs, f) ensures exists x :: x in xs && y in f(x) {
        if y in f(xs[n]) {
          assert xs[n] in xs;
        } else {
          assert y in FlatMap(xs[..n], f);
          var x :| x in xs[..n] && y in f(x);
          assert x in xs;
        }
      }
    }
  }

  lemma {:induction false} FlatMapSame<A, B>(xs: seq<A>, f: A -> seq<B>, g: A -> seq<B>)
    requires forall x | x in xs :: f(x) == g(x)
    ensures FlatMap(xs, f) == FlatMap(xs, g)
  {
    if xs != [] {
      var n := |xs| - 1;
      assert xs[n] in xs;
      FlatMapSame(xs[..n], f, g);
    }
  }

  /** Where f gives at most one result, with the key of its element, distinct keys stay distinct. */
  lemma {:induction false} FlatMapApart<A, B>(xs: seq<A>, f: A -> seq<B>, key: A -> string, made: B -> string)
    requires DistinctBy(xs, key)
    requires forall x | x in xs :: f(x) == [] || (|f(x)| == 1 && made(f(x)[0]) == key(x))
    ensures DistinctBy(FlatMap(xs, f), made)
  {
    if xs != [] {
      var before, x := xs[..|xs| - 1], xs[|xs| - 1];
      assert xs == before + [x];
      DistinctBySnoc(before, x, key);
      FlatMapApart(before, f, key, made);
      if f(x) != [] {
        FlatMapIsFrom(before, f);
        assert f(x) == [f(x)[0]];
        DistinctBySnoc(FlatMap(before, f), f(x)[0], made);
      }
    }
  }

  /** f of every element, in order. */
  function Mapped<A, B>(xs: seq<A>, f: A -> B): (ys: seq<B>)
    ensures |ys| == |xs|
  {
    seq(|xs|, i requires 0 <= i < |xs| => f(xs[i]))
  }

  lemma MappedConcat<A, B>(a: seq<A>, b: seq<A>, f: A -> B)
    ensures Mapped(a + b, f) == Mapped(a, f) + Mapped(b, f)
  {
  }

  lemma MappedWithout<A, B>(xs: seq<A>, j: nat, f: A -> B)
    requires j < |xs|
    ensures multiset(Mapped(xs, f)) == multiset(Mapped(xs[..j] + xs[j + 1..], f)) + multiset{f(xs[j])}
  {
    MappedConcat(xs[..j], xs[j + 1..], f);
    assert Mapped(xs[..j], f) + [f(xs[j])] + Mapped(xs[j + 1..], f) == Mapped(xs, f);
  }

  lemma RemoveOne<T>(a: seq<T>, b: seq<T>) returns (j: nat)
    requires a != [] && multiset(a) == multiset(b)
    ensures j < |b| && b[j] == a[0]
    ensures multiset(a[1..]) == multiset(b[..j] + b[j + 1..])
  {
    assert a == [a[0]] + a[1..];
    assert a[0] in multiset(a) && a[0] in b;
    j :| 0 <= j < |b| && b[j] == a[0];
    MultisetDrop(b, j);
    assert multiset(a[1..]) == multiset(a) - multiset{a[0]};
  }

  /** The images of a list, counted, depend on its elements and not on their order. */
  lemma {:induction false} MappedPermutes<A, B>(a: seq<A>, b: seq<A>, f: A -> B)
    requires multiset(a) == multiset(b)
    ensures multiset(Mapped(a, f)) == multiset(Mapped(b, f))
    decreases |a|
  {
    if a == [] {
      assert |multiset(b)| == 0;
    } else {
      var j := RemoveOne(a, b);
      MappedPermutes(a[1..], b[..j] + b[j + 1..], f);
      MappedWithout(b, j, f);
      MappedWithout(a, 0, f);
      assert a[..0] + a[1..] == a[1..];
    }
  }

  /** What is made of the elements that are kept, in order. */
  function Collect<A, B>(xs: seq<A>, keep: A -> bool, make: A -> B): seq<B> {
    if xs == [] then []
    else
      var x := xs[|xs| - 1];
      Collect(xs[..|xs| - 1], keep, make) + if keep(x) then [make(x)] else []
  }

  lemma CollectSnoc<A, B>(xs: seq<A>, x: A, keep: A -> bool, make: A -> B)
    ensures Collect(xs + [x], keep, make) == Collect(xs, keep, make) + if keep(x) then [make(x)] else []
  {
    assert (xs + [x])[..|xs|] == xs;
  }

  lemma CollectNext<A, B>(xs: seq<A>, i: nat, keep: A -> bool, make: A -> B)
    requires i < |xs|
    ensures Collect(xs[..i + 1], keep, make) == Collect(xs[..i], keep, make) + if keep(xs[i]) then [make(xs[i])] else []
  {
    assert xs[..i + 1][..i] == xs[..i];
  }

  lemma {:induction false} CollectExactly<A, B>(xs: seq<A>, keep: A -> bool, make: A -> B)
    ensures forall x | x in xs && keep(x) :: make(x) in Collect(xs, keep, make)
    ensures forall y | y in Collect(xs, keep, make) :: exists x :: x in xs && keep(x) && make(x) == y
  {
    if xs != [] {
      var n := |xs| - 1;
      assert xs == xs[..n] + [xs[n]];
      CollectExactly(xs[..n], keep, make);
    }
  }

  lemma {:induction false} CollectApart<A, B>(xs: seq<A>, keep: A -> bool, make: A -> B, key: A -> string,
                                              made: B -> string)
    requires DistinctBy(xs, key) && forall x | x in xs :: made(make(x)) == key(x)
    ensures DistinctBy(Collect(xs, keep, make), made)
  {
    if xs != [] {
      var n := |xs| - 1;
      assert xs == xs[..n] + [xs[n]];
      DistinctBySnoc(xs[..n], xs[n], key);
      CollectApart(xs[..n], keep, make, key, made);
      CollectExactly(xs[..n], keep, make);
      DistinctBySnoc(Collect(xs[..n], keep, make), make(xs[n]), made);
    }
  }

  lemma {:induction false} SetSize<T>(s: seq<T>)
    ensures |SetOf(s)| <= |s|
    ensures |SetOf(s)| == |s| <==> Distinct(s)
  {
    if s == [] {
      assert SetOf(s) == {};
    } else {
      var rest := s[1..];
      SetSize(rest);
      DistinctCons(s);
      assert s == [s[0]] + rest;
      assert SetOf(s) == SetOf(rest) + {s[0]};
    }
  }

  lemma {:induction false} SubsetSize<T>(a: set<T>, b: set<T>)
    requires a <= b
    ensures |a| <= |b|
  {
    if a != {} {
      var x :| x in a;
      SubsetSize(a - {x}, b - {x});
    }
  }

  // --- part of a list -------------------------------------------------------------

  lemma MultisetDrop<T>(s: seq<T>, i: nat)
    requires i < |s|
    ensures multiset(s) == multiset(s[..i] + s[i + 1..]) + multiset{s[i]}
  {
    assert s == s[..i] + [s[i]] + s[i + 1..];
  }

  lemma MultisetCancel<T>(a: multiset<T>, b: multiset<T>, x: T)
    requires a + multiset{x} <= b + multiset{x}
    ensures a <= b
  {
    forall y | y in a
      ensures a[y] <= b[y]
    {
      assert (a + multiset{x})[y] <= (b + multiset{x})[y];
    }
  }

  lemma MultisetGrow<T>(a: multiset<T>, b: multiset<T>, x: T)
    requires a <= b
    ensures a + multiset{x} <= b + multiset{x}
  {
  }

  /** A sub-multiset counts no more of anything. */
  lemma {:induction false} CountMonotone<T>(part: seq<T>, whole: seq<T>, p: T -> bool)
    requires multiset(part) <= multiset(whole)
    ensures CountIf(part, p) <= CountIf(whole, p)
  {
    if part != [] {
      assert part == [part[0]] + part[1..];
      assert part[0] in multiset(whole);
      var i :| 0 <= i < |whole| && whole[i] == part[0];
      var rest := whole[..i] + whole[i + 1..];
      MultisetDrop(whole, i);
      assert multiset(part) == multiset(part[1..]) + multiset{part[0]};
      MultisetCancel(multiset(part[1..]), multiset(rest), part[0]);
      CountMonotone(part[1..], rest, p);
      assert whole == whole[..i] + ([whole[i]] + whole[i + 1..]);
      CountSplit(whole[..i], [whole[i]] + whole[i + 1..], p);
      CountSplit([whole[i]], whole[i + 1..], p);
      CountSplit(whole[..i], whole[i + 1..], p);
    }
  }

  lemma SubMultisetElements<T>(part: seq<T>, whole: seq<T>)
    requires multiset(part) <= multiset(whole)
    ensures forall x | x in part :: x in whole
  {
    forall x | x in part ensures x in whole {
      assert x in multiset(part);
    }
  }

  // --- GROUP BY ---------------------------------------------------------------------

  datatype Group<T> = Group(key: T, n: nat)

  function Keys<T>(groups: seq<Group<T>>): (keys: seq<T>)
    ensures |keys| == |groups|
  {
    seq(|groups|, i requires 0 <= i < |groups| => groups[i].key)
  }

  /** What GROUP BY with count(*) may answer: every value once, in any order, with its multiplicity. */
  ghost predicate IsGrouping<T>(s: seq<T>, groups: seq<Group<T>>) {
    && Distinct(Keys(groups))
    && (forall g | g in groups :: g.key in s && g.n == Multiplicity(s, g.key))
    && (forall x | x in s :: x in Keys(groups))
  }

  /** One such answer. */
  function GroupBy<T(==,!new)>(s: seq<T>): seq<Group<T>>
    decreases |s|
  {
    if s == [] then []
    else [Group(s[0], Multiplicity(s, s[0]))] + GroupBy(Filter(s[1..], y => y != s[0]))
  }

  /** sum(n) FILTER (WHERE p). */
  function SumIf<T>(groups: seq<Group<T>>, p: T -> bool): nat {
    if groups == [] then 0
    else (if p(groups[0].key) then groups[0].n else 0) + SumIf(groups[1..], p)
  }

  /** coalesce(max(n), 0). */
  function MaxN<T>(groups: seq<Group<T>>): (m: nat)
    ensures forall g | g in groups :: g.n <= m
  {
    if groups == [] then 0
    else
      assert groups == [groups[0]] + groups[1..];
      var rest := MaxN(groups[1..]);
      if groups[0].n >= rest then groups[0].n else rest
  }

  lemma {:induction false} MaxAttained<T>(groups: seq<Group<T>>) returns (i: nat)
    requires groups != []
    ensures i < |groups| && groups[i].n == MaxN(groups)
  {
    if groups[0].n >= MaxN(groups[1..]) {
      i := 0;
    } else {
      i := MaxAttained(groups[1..]);
      i := i + 1;
    }
  }

  lemma KeysCons<T>(groups: seq<Group<T>>)
    requires groups != []
    ensures Keys(groups) == [groups[0].key] + Keys(groups[1..])
  {
  }

  lemma KeyInKeys<T>(groups: seq<Group<T>>)
    ensures forall g | g in groups :: g.key in Keys(groups)
  {
    forall g | g in groups ensures g.key in Keys(groups) {
      var i :| 0 <= i < |groups| && groups[i] == g;
      assert Keys(groups)[i] == g.key;
    }
  }

  /** Without its first group, a grouping groups what is left of the list. */
  lemma GroupingTail<T(!new)>(s: seq<T>, groups: seq<Group<T>>)
    requires groups != [] && IsGrouping(s, groups)
    ensures IsGrouping(Filter(s, y => y != groups[0].key), groups[1..])
  {
    var x := groups[0].key;
    var rest := Filter(s, y => y != x);
    KeysCons(groups);
    DistinctCons(Keys(groups));
    KeyInKeys(groups[1..]);
    forall g | g in groups[1..]
      ensures g.key in rest && g.n == Multiplicity(rest, g.key)
    {
      assert g in groups;
      assert g.key in Keys(groups[1..]);
      MultiplicityWithout(s, x, g.key);
    }
    forall y | y in rest ensures y in Keys(groups[1..]) {
      assert y in Keys(groups);
    }
  }

  /** Summing the counts of the groups counts the rows. */
  lemma {:induction false} GroupSum<T(!new)>(s: seq<T>, groups: seq<Group<T>>, p: T -> bool)
    requires IsGrouping(s, groups)
    ensures SumIf(groups, p) == CountIf(s, p)
    decreases |groups|
  {
    if groups == [] {
      CountZero(s, p);
      assert forall x | x in s :: x in Keys(groups);
    } else {
      GroupingTail(s, groups);
      GroupSum(Filter(s, y => y != groups[0].key), groups[1..], p);
      CountWithout(s, groups[0].key, p);
    }
  }

  lemma KeysOnce<T>(x: T, n: nat, groups: seq<Group<T>>)
    ensures Keys([Group(x, n)] + groups) == [x] + Keys(groups)
  {
  }

  /** A group for the first element, in front of a grouping of the others. */
  lemma GroupingCons<T(!new)>(s: seq<T>, groups: seq<Group<T>>)
    requires s != [] && IsGrouping(Filter(s[1..], y => y != s[0]), groups)
    ensures IsGrouping(s, [Group(s[0], Multiplicity(s, s[0]))] + groups)
  {
    var x := s[0];
    var rest := Filter(s[1..], y => y != x);
    var more := [Group(x, Multiplicity(s, x))] + groups;
    assert s == [x] + s[1..];
    assert Filter(s, y => y != x) == rest;
    KeysOnce(x, Multiplicity(s, x), groups);
    KeysBelong(rest, groups);
    assert forall k | k in Keys(groups) :: k in SetOf(Keys(groups)) && k in rest;
    DistinctCons(Keys(more));
    assert Keys(more)[1..] == Keys(groups);
    forall g | g in more ensures g.key in s && g.n == Multiplicity(s, g.key) {
      if g in groups {
        MultiplicityWithout(s, x, g.key);
      }
    }
  }

  lemma {:induction false} GroupByGroups<T(!new)>(s: seq<T>)
    ensures IsGrouping(s, GroupBy(s))
    decreases |s|
  {
    if s != [] {
      GroupByGroups(Filter(s[1..], y => y != s[0]));
      GroupingCons(s, GroupBy(Filter(s[1..], y => y != s[0])));
    }
  }

  lemma KeysBelong<T>(s: seq<T>, groups: seq<Group<T>>)
    requires IsGrouping(s, groups)
    ensures SetOf(Keys(groups)) == SetOf(s)
  {
    forall x | x in Keys(groups) ensures x in s {
      var i :| 0 <= i < |groups| && Keys(groups)[i] == x;
      assert groups[i] in groups;
    }
  }

  /** count(*) over the groups: as many as the list has different values. */
  lemma GroupCount<T(!new)>(s: seq<T>, groups: seq<Group<T>>)
    requires IsGrouping(s, groups)
    ensures |groups| == |SetOf(s)|
  {
    KeysBelong(s, groups);
    SetSize(Keys(groups));
  }

  ghost function Such<T(!new)>(s: seq<T>, p: T -> bool): set<T> {
    set x | x in s && p(x)
  }

  lemma SuchWithout<T(!new)>(s: seq<T>, x: T, p: T -> bool)
    requires x in s
    ensures |Such(s, p)| == |Such(Filter(s, y => y != x), p)| + if p(x) then 1 else 0
  {
    var rest := Such(Filter(s, y => y != x), p);
    assert x !in rest;
    if p(x) {
      assert Such(s, p) == rest + {x};
    } else {
      assert Such(s, p) == rest;
    }
  }

  /** count(*) FILTER (WHERE p) over the groups: as many as the list has different values with p. */
  lemma {:induction false} GroupCountIf<T(!new)>(s: seq<T>, groups: seq<Group<T>>, p: T -> bool)
    requires IsGrouping(s, groups)
    ensures CountIf(Keys(groups), p) == |Such(s, p)|
    decreases |groups|
  {
    if groups == [] {
      assert forall x | x in s :: x in Keys(groups);
      assert Such(s, p) == {};
    } else {
      var x := groups[0].key;
      assert groups[0] in groups;
      GroupingTail(s, groups);
      GroupCountIf(Filter(s, y => y != x), groups[1..], p);
      SuchWithout(s, x, p);
      KeysCons(groups);
      CountSplit([x], Keys(groups[1..]), p);
    }
  }

  /** The largest group, taken as often as there are groups, covers every row. */
  lemma {:induction false} MaxCovers<T>(groups: seq<Group<T>>, m: nat, p: T -> bool)
    requires forall g | g in groups :: g.n <= m
    ensures SumIf(groups, p) <= m * |groups|
  {
    if groups != [] {
      assert groups == [groups[0]] + groups[1..];
      MaxCovers(groups[1..], m, p);
      assert m * |groups| == m + m * |groups[1..]|;
    }
  }
}
