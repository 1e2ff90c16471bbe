/**
  Tables as sequences of rows, SQL's comparison of cells, and the constraint the
  program looks for: a MATCH SIMPLE foreign key, section 11.8 of
  ISO/IEC 9075-2:2003.
 */
module Relational {

  datatype Cell = Null | Val(v: int)

  /** A row of a table, or a row cut down to the columns of a key. */
  type Row = seq<Cell>

  /** The columns of a key, in key order, as positions in the row. */
  type Key = seq<nat>

  datatype Table = Table(width: nat, rows: seq<Row>)

  predicate WellFormed(t: Table) {
    forall r | r in t.rows :: |r| == t.width
  }

  predicate KeyOf(k: Key, t: Table) {
    forall i | 0 <= i < |k| :: k[i] < t.width
  }

  /** A candidate relationship: two keys of the same arity. */
  datatype Pair = Pair(child: Table, childKey: Key, parent: Table, parentKey: Key)

  predicate WellFormedPair(p: Pair) {
    && WellFormed(p.child) && WellFormed(p.parent)
    && KeyOf(p.childKey, p.child) && KeyOf(p.parentKey, p.parent)
    && |p.childKey| == |p.parentKey|
  }

  // --- the constraint ---------------------------------------------------------

  /** A row with a null in the key. */
  ghost predicate Exempt(r: Row, k: Key)
    requires forall i | 0 <= i < |k| :: k[i] < |r|
  {
    exists i :: 0 <= i < |k| && r[k[i]] == Null
  }

  /** The rows agree on their keys, position by position. */
  ghost predicate Agree(q: Row, parentKey: Key, r: Row, childKey: Key)
    requires |parentKey| == |childKey|
    requires forall i | 0 <= i < |childKey| :: childKey[i] < |r| && parentKey[i] < |q|
  {
    forall i | 0 <= i < |childKey| :: q[parentKey[i]] == r[childKey[i]]
  }

  /** The constraint: a row with a null in the key is exempt, any other has a parent. */
  ghost predicate MatchSimple(p: Pair)
    requires WellFormedPair(p)
  {
    forall r | r in p.child.rows ::
      Exempt(r, p.childKey) || exists q | q in p.parent.rows :: Agree(q, p.parentKey, r, p.childKey)
  }

  // --- projections ------------------------------------------------------------

  function Project(r: Row, k: Key): Row
    requires forall i | 0 <= i < |k| :: k[i] < |r|
  {
    seq(|k|, i requires 0 <= i < |k| => r[k[i]])
  }

  /** The rows of a table cut down to a key: SELECT key FROM t. */
  function Select(t: Table, k: Key): (s: seq<Row>)
    requires WellFormed(t) && KeyOf(k, t)
    ensures |s| == |t.rows|
    ensures forall r | r in s :: |r| == |k|
  {
    seq(|t.rows|, i requires 0 <= i < |t.rows| => Project(t.rows[i], k))
  }

  predicate NullFree(r: Row) {
    forall i | 0 <= i < |r| :: r[i].Val?
  }

  function IsNullFree(): Row -> bool { r => NullFree(r) }

  /** num_nulls(...) of SQL. */
  function NumNulls(r: Row): (n: nat)
    ensures n <= |r|
    ensures n == 0 <==> NullFree(r)
  {
    if r == [] then 0
    else
      assert r == [r[0]] + r[1..];
      (if r[0].Null? then 1 else 0) + NumNulls(r[1..])
  }

  // --- SQL's three-valued comparison ------------------------------------------

  datatype Truth = True | False | Unknown

  function SqlEqual(a: Cell, b: Cell): Truth {
    if a.Null? || b.Null? then Unknown else if a.v == b.v then True else False
  }

  function SqlAnd(a: Truth, b: Truth): Truth {
    if a == False || b == False then False else if a == Unknown || b == Unknown then Unknown else True
  }

  /** p.k1 = c.v1 AND p.k2 = c.v2 AND ... */
  function SqlMatch(p: Row, c: Row): Truth
    requires |p| == |c|
  {
    if p == [] then True else SqlAnd(SqlEqual(p[0], c[0]), SqlMatch(p[1..], c[1..]))
  }

  /** The join condition is true of equal null-free tuples and of nothing else. */
  lemma {:induction false} SqlMatchIsEquality(p: Row, c: Row)
    requires |p| == |c|
    ensures SqlMatch(p, c) == True <==> p == c && NullFree(c)
  {
    if p != [] {
      SqlMatchIsEquality(p[1..], c[1..]);
      assert p == [p[0]] + p[1..] && c == [c[0]] + c[1..];
    }
  }

  /** EXISTS (SELECT 1 FROM parent p WHERE ...): some row makes the condition true. */
  predicate Exists(parents: seq<Row>, c: Row)
    requires forall p | p in parents :: |p| == |c|
  {
    exists i :: 0 <= i < |parents| && SqlMatch(parents[i], c) == True
  }

  lemma ExistsIsMembership(parents: seq<Row>, c: Row)
    requires forall p | p in parents :: |p| == |c|
    ensures Exists(parents, c) <==> NullFree(c) && c in parents
  {
    forall i | 0 <= i < |parents|
      ensures SqlMatch(parents[i], c) == True <==> parents[i] == c && NullFree(c)
    {
      SqlMatchIsEquality(parents[i], c);
    }
  }

  // --- the constraint on projections -------------------------------------------

  /** A tuple the constraint checks and that has no parent. */
  predicate Orphan(parents: seq<Row>, c: Row) {
    NullFree(c) && c !in parents
  }

  lemma ProjectionAgrees(q: Row, parentKey: Key, r: Row, childKey: Key)
    requires |parentKey| == |childKey|
    requires forall i | 0 <= i < |childKey| :: childKey[i] < |r| && parentKey[i] < |q|
    ensures Project(q, parentKey) == Project(r, childKey) <==> Agree(q, parentKey, r, childKey)
  {
    var a, b := Project(q, parentKey), Project(r, childKey);
    assert forall i | 0 <= i < |childKey| :: a[i] == q[parentKey[i]] && b[i] == r[childKey[i]];
  }

  lemma ProjectionExempt(r: Row, k: Key)
    requires forall i | 0 <= i < |k| :: k[i] < |r|
    ensures NullFree(Project(r, k)) <==> !Exempt(r, k)
  {
    var a := Project(r, k);
    assert forall i | 0 <= i < |k| :: a[i] == r[k[i]];
  }

  /** Row i violates the constraint exactly when its key tuple is an orphan. */
  lemma OrphanRow(p: Pair, i: nat)
    requires WellFormedPair(p) && i < |p.child.rows|
    ensures var r := p.child.rows[i];
      Orphan(Select(p.parent, p.parentKey), Select(p.child, p.childKey)[i]) <==>
        !Exempt(r, p.childKey) && !exists q | q in p.parent.rows :: Agree(q, p.parentKey, r, p.childKey)
  {
    var r, ps := p.child.rows[i], Select(p.parent, p.parentKey);
    var c := Project(r, p.childKey);
    ProjectionExempt(r, p.childKey);
    forall j | 0 <= j < |ps|
      ensures ps[j] == c <==> Agree(p.parent.rows[j], p.parentKey, r, p.childKey)
    {
      ProjectionAgrees(p.parent.rows[j], p.parentKey, r, p.childKey);
    }
    if q :| q in p.parent.rows && Agree(q, p.parentKey, r, p.childKey) {
      var j :| 0 <= j < |ps| && p.parent.rows[j] == q;
      assert ps[j] == c;
    }
  }

  /** The constraint holds exactly when no key tuple of the child is an orphan. */
  lemma MatchSimpleByProjection(p: Pair)
    requires WellFormedPair(p)
    ensures MatchSimple(p) <==>
      forall c | c in Select(p.child, p.childKey) :: !Orphan(Select(p.parent, p.parentKey), c)
  {
    var cs, ps := Select(p.child, p.childKey), Select(p.parent, p.parentKey);
    forall i | 0 <= i < |cs| {
      OrphanRow(p, i);
    }
    if forall c | c in cs :: !Orphan(ps, c) {
      forall r | r in p.child.rows
        ensures Exempt(r, p.childKey) || exists q | q in p.parent.rows :: Agree(q, p.parentKey, r, p.childKey)
      {
        var i :| 0 <= i < |cs| && p.child.rows[i] == r;
        assert !Orphan(ps, cs[i]);
      }
    }
  }
}
