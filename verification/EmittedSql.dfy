/**
  The meaning of the SQL that internal/report/sql.go writes into its artifacts:
  antiJoin as a condition, orphanQuery as the listing it filters, violationQuery
  as its count. They ask a second time what the validation measured; the proof is
  that they ask the same thing.
 */
module EmittedSql {
  import opened Relational
  import opened Counting
  import opened ValidationQuery

  /** c.column IS NOT NULL, and p.parentColumn = c.childColumn. */
  datatype Clause = IsNotNull(column: nat) | Equals(parentColumn: nat, childColumn: nat)

  datatype Condition = Condition(notNull: seq<Clause>, match_: seq<Clause>)

  ghost function NotNulls(child: Key): seq<Clause> {
    seq(|child|, i requires 0 <= i < |child| => IsNotNull(child[i]))
  }

  ghost function Matches(child: Key, parent: Key, n: nat): seq<Clause>
    requires n <= |child| && n <= |parent|
  {
    seq(n, i requires 0 <= i < n => Equals(parent[i], child[i]))
  }

  /** antiJoin: the clauses it appends, column by column. */
  method AntiJoin(child: Key, parent: Key) returns (c: Condition)
    ensures c.notNull == NotNulls(child)
    ensures c.match_ == Matches(child, parent, if |child| <= |parent| then |child| else |parent|)
  {
    var notNull, match_ := [], [];
    for i := 0 to |child|
      invariant notNull == NotNulls(child[..i])
      invariant match_ == Matches(child, parent, if i <= |parent| then i else |parent|)
    {
      notNull := notNull + [IsNotNull(child[i])];
      assert child[..i + 1] == child[..i] + [child[i]];
      if i < |parent| {
        match_ := match_ + [Equals(parent[i], child[i])];
      }
    }
    assert child[..|child|] == child;
    return Condition(notNull, match_);
  }

  // --- what the condition means -------------------------------------------------------

  ghost function ClauseHolds(c: Clause, p: Row, r: Row): Truth
    requires c.IsNotNull? ==> c.column < |r|
    requires c.Equals? ==> c.parentColumn < |p| && c.childColumn < |r|
  {
    match c
    case IsNotNull(i) => if r[i].Val? then True else False
    case Equals(i, j) => SqlEqual(p[i], r[j])
  }

  ghost predicate Applies(cs: seq<Clause>, p: nat, r: nat) {
    forall c | c in cs :: (c.IsNotNull? ==> c.column < r) && (c.Equals? ==> c.parentColumn < p && c.childColumn < r)
  }

  /** The clauses joined by AND. */
  ghost function AllHold(cs: seq<Clause>, p: Row, r: Row): Truth
    requires Applies(cs, |p|, |r|)
  {
    if cs == [] then True
    else
      assert cs == [cs[0]] + cs[1..];
      SqlAnd(ClauseHolds(cs[0], p, r), AllHold(cs[1..], p, r))
  }

  lemma {:induction false} AllHoldTrue(cs: seq<Clause>, p: Row, r: Row)
    requires Applies(cs, |p|, |r|)
    ensures AllHold(cs, p, r) == True <==> forall c | c in cs :: ClauseHolds(c, p, r) == True
  {
    if cs != [] {
      assert cs == [cs[0]] + cs[1..];
      AllHoldTrue(cs[1..], p, r);
    }
  }

  /** WHERE notNull AND NOT EXISTS (SELECT 1 FROM parent p WHERE match), on row r of the child. */
  ghost predicate Selected(cond: Condition, parent: Table, r: Row)
    requires WellFormed(parent)
    requires Applies(cond.notNull, 0, |r|) && Applies(cond.match_, parent.width, |r|)
  {
    && AllHold(cond.notNull, [], r) == True
    && !exists q | q in parent.rows :: AllHold(cond.match_, q, r) == True
  }

  ghost function ConditionOf(p: Pair): Condition
    requires WellFormedPair(p)
  {
    Condition(NotNulls(p.childKey), Matches(p.childKey, p.parentKey, |p.childKey|))
  }

  lemma ConditionApplies(p: Pair)
    requires WellFormedPair(p)
    ensures Applies(ConditionOf(p).notNull, 0, p.child.width)
    ensures Applies(ConditionOf(p).match_, p.parent.width, p.child.width)
  {
  }

  lemma NotNullHolds(k: Key, r: Row)
    requires forall i | 0 <= i < |k| :: k[i] < |r|
    ensures AllHold(NotNulls(k), [], r) == True <==> !Exempt(r, k)
  {
    var cs := NotNulls(k);
    AllHoldTrue(cs, [], r);
    forall i | 0 <= i < |k|
      ensures ClauseHolds(cs[i], [], r) == True <==> r[k[i]] != Null
    {
    }
    if forall c | c in cs :: ClauseHolds(c, [], r) == True {
      forall i | 0 <= i < |k| ensures r[k[i]] != Null {
        assert cs[i] in cs;
      }
    }
  }

  lemma MatchHolds(p: Pair, q: Row, r: Row)
    requires WellFormedPair(p) && |q| == p.parent.width && |r| == p.child.width
    ensures Applies(ConditionOf(p).match_, |q|, |r|)
    ensures !Exempt(r, p.childKey) ==>
      (AllHold(ConditionOf(p).match_, q, r) == True <==> Agree(q, p.parentKey, r, p.childKey))
  {
    ConditionApplies(p);
    var cs := ConditionOf(p).match_;
    AllHoldTrue(cs, q, r);
    if !Exempt(r, p.childKey) {
      forall i | 0 <= i < |cs|
        ensures ClauseHolds(cs[i], q, r) == True <==> q[p.parentKey[i]] == r[p.childKey[i]]
      {
        assert r[p.childKey[i]] != Null;
      }
      if forall c | c in cs :: ClauseHolds(c, q, r) == True {
        forall i | 0 <= i < |cs| ensures q[p.parentKey[i]] == r[p.childKey[i]] {
          assert cs[i] in cs;
        }
      }
    }
  }

  /** The emitted condition selects exactly the rows whose key tuple is an orphan. */
  lemma SelectedIsOrphan(p: Pair, i: nat)
    requires WellFormedPair(p) && i < |p.child.rows|
    ensures Applies(ConditionOf(p).notNull, 0, |p.child.rows[i]|)
    ensures Applies(ConditionOf(p).match_, p.parent.width, |p.child.rows[i]|)
    ensures Selected(ConditionOf(p), p.parent, p.child.rows[i])
       <==> Orphan(Select(p.parent, p.parentKey), Select(p.child, p.childKey)[i])
  {
    var r := p.child.rows[i];
    ConditionApplies(p);
    NotNullHolds(p.childKey, r);
    forall q | q in p.parent.rows {
      MatchHolds(p, q, r);
    }
    OrphanRow(p, i);
  }

  // --- the two queries ------------------------------------------------------------------

  ghost function Pick(keys: seq<Row>, keep: seq<bool>): seq<Row>
    requires |keep| == |keys|
  {
    if keys == [] then [] else (if keep[0] then [keys[0]] else []) + Pick(keys[1..], keep[1..])
  }

  /** Which rows of the child the condition selects. */
  ghost function Kept(p: Pair): (keep: seq<bool>)
    requires WellFormedPair(p)
    ensures |keep| == |p.child.rows|
  {
    ConditionApplies(p);
    seq(|p.child.rows|, i requires 0 <= i < |p.child.rows| => Selected(ConditionOf(p), p.parent, p.child.rows[i]))
  }

  /** Their key tuples: what orphanQuery groups, and violationQuery counts. */
  ghost function SelectedRows(p: Pair): seq<Row>
    requires WellFormedPair(p)
  {
    Pick(Select(p.child, p.childKey), Kept(p))
  }

  ghost function ViolationQuery(p: Pair): nat
    requires WellFormedPair(p)
  {
    |SelectedRows(p)|
  }

  /** Any answer the server may give to orphanQuery; its ORDER BY picks one of them. */
  ghost predicate IsOrphanListing(p: Pair, groups: seq<Group<Row>>)
    requires WellFormedPair(p)
  {
    IsGrouping(SelectedRows(p), groups)
  }

  lemma {:induction false} PickIsFilter(keys: seq<Row>, keep: seq<bool>, f: Row -> bool)
    requires |keep| == |keys|
    requires forall i | 0 <= i < |keys| :: keep[i] == f(keys[i])
    ensures Pick(keys, keep) == Filter(keys, f)
  {
    if keys != [] {
      PickIsFilter(keys[1..], keep[1..], f);
    }
  }

  lemma SelectedRowsAreOrphans(p: Pair)
    requires WellFormedPair(p)
    ensures SelectedRows(p) == Filter(Select(p.child, p.childKey), IsOrphan(Select(p.parent, p.parentKey)))
  {
    var cs, f, keep := Select(p.child, p.childKey), IsOrphan(Select(p.parent, p.parentKey)), Kept(p);
    forall i | 0 <= i < |cs| ensures keep[i] == f(cs[i]) {
      SelectedIsOrphan(p, i);
    }
    PickIsFilter(cs, keep, f);
  }

  lemma {:induction false} FilterLength(s: seq<Row>, f: Row -> bool)
    ensures |Filter(s, f)| == CountIf(s, f)
  {
    if s != [] { FilterLength(s[1..], f); }
  }

  lemma ListingCounts(p: Pair, listing: seq<Group<Row>>)
    requires WellFormedPair(p) && IsOrphanListing(p, listing)
    ensures var scanned, orphan := Select(p.child, p.childKey), IsOrphan(Select(p.parent, p.parentKey));
      && |listing| == |Such(scanned, orphan)|
      && SumIf(listing, Anything()) == CountIf(scanned, orphan)
      && ViolationQuery(p) == CountIf(scanned, orphan)
  {
    var scanned, parents := Select(p.child, p.childKey), Select(p.parent, p.parentKey);
    var orphans := Filter(scanned, IsOrphan(parents));
    SelectedRowsAreOrphans(p);
    FilterLength(scanned, IsOrphan(parents));
    GroupCount(orphans, listing);
    assert SetOf(orphans) == Such(scanned, IsOrphan(parents));
    GroupSum(orphans, listing, Anything());
    CountAll(orphans);
  }

  /**
    The emitted SQL agrees with what was measured on a full read: the listing has
    orphan_vals groups, their counts add up to orphan_rows, the violation count is
    orphan_rows, and it is zero exactly when the constraint holds.
   */
  lemma EmittedAgreesWithMeasured(p: Pair, listing: seq<Group<Row>>)
    requires WellFormedPair(p) && IsOrphanListing(p, listing)
    ensures var m := Measure(p.child, p);
      && |listing| == m.orphanVals
      && SumIf(listing, Anything()) == m.orphanRows
      && ViolationQuery(p) == m.orphanRows
      && (ViolationQuery(p) == 0 <==> MatchSimple(p))
      && (listing == [] <==> MatchSimple(p))
  {
    var scanned, parents := Select(p.child, p.childKey), Select(p.parent, p.parentKey);
    ListingCounts(p, listing);
    GroupByGroups(Filter(scanned, IsNullFree()));
    QueryCountsRows(scanned, parents, ChildVals(scanned), |p.childKey|);
    OrphanCountsAgree(scanned, parents, ChildVals(scanned), |p.childKey|);
    NoOrphansIsMatchSimple(p);
  }

  /** What the listing accuses: tuples without a parent, each once, with the rows that carry it. */
  lemma ListingAccusesOrphans(p: Pair, listing: seq<Group<Row>>)
    requires WellFormedPair(p) && IsOrphanListing(p, listing)
    ensures var scanned, parents := Select(p.child, p.childKey), Select(p.parent, p.parentKey);
      && Distinct(Keys(listing))
      && (forall g | g in listing :: Orphan(parents, g.key) && g.n == Multiplicity(scanned, g.key) > 0)
      && (forall r | r in scanned && Orphan(parents, r) :: r in Keys(listing))
  {
    var scanned, parents := Select(p.child, p.childKey), Select(p.parent, p.parentKey);
    SelectedRowsAreOrphans(p);
    forall g | g in listing
      ensures Orphan(parents, g.key) && g.n == Multiplicity(scanned, g.key) > 0
    {
      MultiplicityFiltered(scanned, IsOrphan(parents), g.key);
      MultiplicityPositive(scanned, g.key);
    }
  }
}
