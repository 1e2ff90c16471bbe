/**
  Lists of candidates without a repeated pair: no two candidates of such a list are
  about the same child and parent.
 */
module Pairs {
  import opened Model
  import opened Counting

  function RefOf(): Table -> string { (t: Table) => t.Ref() }

  function ParentRefOf(): Candidate -> string { (c: Candidate) => c.parent.TableRef() }

  ghost predicate DistinctPairs(cs: seq<Candidate>) {
    forall i, j | 0 <= i < j < |cs| :: cs[i].Identity() != cs[j].Identity()
  }

  lemma ParentsApart(cs: seq<Candidate>)
    requires DistinctBy(cs, ParentRefOf())
    ensures DistinctPairs(cs)
  {
    forall i, j | 0 <= i < j < |cs| ensures cs[i].Identity() != cs[j].Identity() {
      assert ParentRefOf()(cs[i]) != ParentRefOf()(cs[j]);
    }
  }

  lemma PairsConcat(a: seq<Candidate>, b: seq<Candidate>)
    requires DistinctPairs(a) && DistinctPairs(b)
    requires forall x, y | x in a && y in b :: x.child != y.child
    ensures DistinctPairs(a + b)
  {
    forall i, j | 0 <= i < j < |a + b| ensures (a + b)[i].Identity() != (a + b)[j].Identity() {
      if i < |a| && |a| <= j {
        assert (a + b)[i] in a && (a + b)[j] in b;
      }
    }
  }
}
