/**
  Grouping by a textual key, first occurrence first: a map of lists beside the order
  of its keys. resolveAmbiguity groups matches by signature this way, and
  groupEvidence groups equalities by object and table pair.
 */
module Grouping {
  import opened Counting

  function WithKey<T>(key: T -> string, k: string): T -> bool { (x: T) => key(x) == k }

  function KeyAmong<T>(key: T -> string, ks: seq<string>): T -> bool { (x: T) => key(x) in ks }

  /** The elements with one key, in their own order. */
  function GroupOf<T(!new)>(xs: seq<T>, key: T -> string, k: string): seq<T> { Filter(xs, WithKey(key, k)) }

  lemma {:induction false} GroupSnoc<T(!new)>(xs: seq<T>, x: T, key: T -> string, k: string)
    ensures GroupOf(xs + [x], key, k) == GroupOf(xs, key, k) + if key(x) == k then [x] else []
  {
    if xs == [] {
      assert xs + [x] == [x];
    } else {
      assert (xs + [x])[1..] == xs[1..] + [x];
      GroupSnoc(xs[1..], x, key, k);
    }
  }

  lemma {:induction false} GroupEmpty<T(!new)>(xs: seq<T>, key: T -> string, k: string)
    requires forall x | x in xs :: key(x) != k
    ensures GroupOf(xs, key, k) == []
  {
    if xs != [] { GroupEmpty(xs[1..], key, k); }
  }

  /** One group per key, each the elements of that key, the keys in order of appearance. */
  ghost predicate Groups<T(!new)>(xs: seq<T>, key: T -> string, groups: map<string, seq<T>>, order: seq<string>) {
    && Distinct(order)
    && (forall k :: k in order <==> k in groups)
    && (forall x | x in xs :: key(x) in order)
    && (forall k | k in groups :: groups[k] == GroupOf(xs, key, k) && groups[k] != [])
  }

  lemma GroupsStep<T(!new)>(xs: seq<T>, x: T, key: T -> string, groups: map<string, seq<T>>, order: seq<string>)
    requires Groups(xs, key, groups, order)
    ensures key(x) in groups ==> Groups(xs + [x], key, groups[key(x) := groups[key(x)] + [x]], order)
    ensures key(x) !in groups ==> Groups(xs + [x], key, groups[key(x) := [x]], order + [key(x)])
  {
    forall k ensures GroupOf(xs + [x], key, k) == GroupOf(xs, key, k) + if key(x) == k then [x] else [] {
      GroupSnoc(xs, x, key, k);
    }
    DistinctSnoc(order, key(x));
    if key(x) !in groups {
      forall y | y in xs ensures key(y) != key(x) {
        assert key(y) in order;
      }
      GroupEmpty(xs, key, key(x));
    }
  }

  method GroupInOrder<T(!new)>(xs: seq<T>, key: T -> string) returns (groups: map<string, seq<T>>, order: seq<string>)
    ensures Groups(xs, key, groups, order)
  {
    groups, order := map[], [];
    for i := 0 to |xs|
      invariant Groups(xs[..i], key, groups, order)
    {
      var k := key(xs[i]);
      assert xs[..i + 1] == xs[..i] + [xs[i]];
      GroupsStep(xs[..i], xs[i], key, groups, order);
      if k !in groups {
        order := order + [k];
        groups := groups[k := [xs[i]]];
      } else {
        groups := groups[k := groups[k] + [xs[i]]];
      }
    }
    assert xs[..|xs|] == xs;
  }

  // --- the groups together are the list ----------------------------------------------------

  lemma {:induction false} AmongNone<T(!new)>(xs: seq<T>, key: T -> string)
    ensures Filter(xs, KeyAmong(key, [])) == []
  {
    if xs != [] { AmongNone(xs[1..], key); }
  }

  lemma {:induction false} AmongOneMore<T(!new)>(xs: seq<T>, key: T -> string, ks: seq<string>, k: string)
    requires k !in ks
    ensures multiset(Filter(xs, KeyAmong(key, ks + [k])))
         == multiset(Filter(xs, KeyAmong(key, ks))) + multiset(GroupOf(xs, key, k))
  {
    if xs != [] {
      assert xs == [xs[0]] + xs[1..];
      AmongOneMore(xs[1..], key, ks, k);
    }
  }

  lemma {:induction false} AmongAll<T(!new)>(xs: seq<T>, key: T -> string, ks: seq<string>)
    requires forall x | x in xs :: key(x) in ks
    ensures Filter(xs, KeyAmong(key, ks)) == xs
  {
    if xs != [] {
      assert xs == [xs[0]] + xs[1..];
      AmongAll(xs[1..], key, ks);
    }
  }

  lemma {:induction false} TwoInGroup<T(!new)>(xs: seq<T>, i: nat, j: nat, key: T -> string, k: string)
    requires i < j < |xs| && key(xs[i]) == k && key(xs[j]) == k
    ensures |GroupOf(xs, key, k)| >= 2
  {
    if i > 0 {
      TwoInGroup(xs[1..], i - 1, j - 1, key, k);
    } else {
      assert xs[1..][j - 1] == xs[j];
      assert xs[j] in GroupOf(xs[1..], key, k);
    }
  }
}
