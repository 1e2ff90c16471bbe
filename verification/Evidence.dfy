/**
  Join evidence, internal/infer/evidence.go: what a group of equalities states about
  keys, independent of the candidates it is folded into.
 */
module Evidence {
  import opened Text
  import opened Model
  import opened Scoring
  import opened Counting
  import opened Sorting
  import opened Grouping
  import opened CompositeKeys

  datatype JoinSource = FromView | FromFunction | FromStatements

  /** One equality between two columns, and the object that states it; it carries no direction. */
  datatype JoinEvidence = JoinEvidence(left: ColumnRef, right: ColumnRef, source: JoinSource, site: string)

  function SignalFor(source: JoinSource): (k: SignalKind)
    ensures IsJoinKind(k)
  {
    match source
    case FromView => JoinInView
    case FromFunction => JoinInFunction
    case FromStatements => JoinInStatements
  }

  function JoinWeight(k: SignalKind): real {
    if k == JoinInFunction then JOIN_IN_FUNCTION
    else if k == JoinInStatements then JOIN_IN_STATEMENTS
    else JOIN_IN_VIEW
  }

  /** What a join is worth, by what states it. */
  lemma SourcesWeigh(source: JoinSource)
    ensures JoinWeight(SignalFor(source)) ==
      match source case FromView => 0.50 case FromFunction => 0.45 case FromStatements => 0.40
    ensures forall other: JoinSource :: SignalFor(other) == SignalFor(source) ==> other == source
    ensures SignalFor(FromView) == JoinInView && SignalFor(FromFunction) == JoinInFunction
  {
  }

  // --- rendered pairs ------------------------------------------------------------------------

  /** The three bytes of the arrow between child and parent. */
  const ARROW := "\U{E2}\U{86}\U{92}"

  function PairKey(child: string, parent: string): string { child + ARROW + parent }

  // --- groups ----------------------------------------------------------------------------------

  /** The equalities that stem from one object and are between the same two tables. */
  datatype EvidenceGroup = EvidenceGroup(source: JoinSource, left: string, right: string, joins: seq<JoinEvidence>)

  function SourceName(s: JoinSource): string {
    match s case FromView => "view" case FromFunction => "function" case FromStatements => "statements"
  }

  /** The two table refs, the smaller first: left and right do not matter to a group. */
  function OrderedPair(ev: JoinEvidence): (string, string) {
    var l, r := ev.left.TableRef(), ev.right.TableRef();
    if StringLe(l, r) then (l, r) else (r, l)
  }

  function GroupKey(): JoinEvidence -> string {
    (ev: JoinEvidence) =>
      SourceName(ev.source) + "\0" + ev.site + "\0" + OrderedPair(ev).0 + "\0" + OrderedPair(ev).1
  }

  /** The same two tables, whichever is on the left. */
  predicate SameTables(a: JoinEvidence, b: JoinEvidence) {
    || (a.left.TableRef() == b.left.TableRef() && a.right.TableRef() == b.right.TableRef())
    || (a.left.TableRef() == b.right.TableRef() && a.right.TableRef() == b.left.TableRef())
  }

  lemma OrderedPairExactly(a: JoinEvidence, b: JoinEvidence)
    ensures OrderedPair(a) == OrderedPair(b) <==> SameTables(a, b)
  {
    StringLeTotal(a.left.TableRef(), a.right.TableRef());
    StringLeTotal(b.left.TableRef(), b.right.TableRef());
    if StringLe(a.left.TableRef(), a.right.TableRef()) && StringLe(a.right.TableRef(), a.left.TableRef()) {
      StringLeAntisymmetric(a.left.TableRef(), a.right.TableRef());
    }
  }

  predicate NoNul(s: string) { '\0' !in s }

  /** Equalities go into one group exactly if they stem from one object and are between the same two tables. */
  lemma GroupsExactly(a: JoinEvidence, b: JoinEvidence)
    requires NoNul(a.site) && NoNul(a.left.TableRef()) && NoNul(a.right.TableRef())
    requires NoNul(b.site) && NoNul(b.left.TableRef()) && NoNul(b.right.TableRef())
    ensures GroupKey()(a) == GroupKey()(b) <==> a.source == b.source && a.site == b.site && SameTables(a, b)
  {
    OrderedPairExactly(a, b);
    if GroupKey()(a) == GroupKey()(b) {
      PartsAreEqual(SourceName(a.source), a.site, OrderedPair(a).0, OrderedPair(a).1,
                    SourceName(b.source), b.site, OrderedPair(b).0, OrderedPair(b).1);
      SourceNamesDiffer(a.source, b.source);
    }
  }

  lemma PartsAreEqual(s: string, t: string, l: string, r: string, s': string, t': string, l': string, r': string)
    requires NoNul(s) && NoNul(t) && NoNul(l) && NoNul(s') && NoNul(t') && NoNul(l')
    requires s + "\0" + t + "\0" + l + "\0" + r == s' + "\0" + t' + "\0" + l' + "\0" + r'
    ensures s == s' && t == t' && l == l' && r == r'
  {
    assert s + "\0" + t + "\0" + l + "\0" + r == s + ['\0'] + (t + ['\0'] + (l + ['\0'] + r));
    assert s' + "\0" + t' + "\0" + l' + "\0" + r' == s' + ['\0'] + (t' + ['\0'] + (l' + ['\0'] + r'));
    SplitAtFirst('\0', s, t + ['\0'] + (l + ['\0'] + r), s', t' + ['\0'] + (l' + ['\0'] + r'));
    SplitAtFirst('\0', t, l + ['\0'] + r, t', l' + ['\0'] + r');
    SplitAtFirst('\0', l, r, l', r');
  }

  lemma SourceNamesDiffer(a: JoinSource, b: JoinSource)
    ensures SourceName(a) == SourceName(b) <==> a == b
    ensures NoNul(SourceName(a))
  {
    assert |SourceName(FromView)| == 4 && |SourceName(FromFunction)| == 8 && |SourceName(FromStatements)| == 10;
  }

  function GroupWith(joins: seq<JoinEvidence>): EvidenceGroup
    requires joins != []
  {
    EvidenceGroup(joins[0].source, OrderedPair(joins[0]).0, OrderedPair(joins[0]).1, joins)
  }

  function AllJoins(groups: seq<EvidenceGroup>): seq<JoinEvidence> {
    if groups == [] then [] else AllJoins(groups[..|groups| - 1]) + groups[|groups| - 1].joins
  }

  /** Nonempty groups, each with every equality of its key. */
  ghost predicate AreGroups(groups: seq<EvidenceGroup>, evidence: seq<JoinEvidence>, key: JoinEvidence -> string) {
    forall g | g in groups ::
      g.joins != [] && g == GroupWith(g.joins) && g.joins == GroupOf(evidence, key, key(g.joins[0]))
  }

  /** The groups of these keys, holding the equalities of these keys. */
  ghost predicate Gathered(groups: seq<EvidenceGroup>, evidence: seq<JoinEvidence>, key: JoinEvidence -> string,
                           ks: seq<string>) {
    && AreGroups(groups, evidence, key)
    && multiset(AllJoins(groups)) == multiset(Filter(evidence, KeyAmong(key, ks)))
  }

  lemma AllJoinsSnoc(groups: seq<EvidenceGroup>, g: EvidenceGroup)
    ensures AllJoins(groups + [g]) == AllJoins(groups) + g.joins
  {
    assert (groups + [g])[..|groups|] == groups;
  }

  lemma GatheredOneMore(groups: seq<EvidenceGroup>, evidence: seq<JoinEvidence>, key: JoinEvidence -> string,
                        ks: seq<string>, k: string)
    requires Gathered(groups, evidence, key, ks) && k !in ks && GroupOf(evidence, key, k) != []
    ensures Gathered(groups + [GroupWith(GroupOf(evidence, key, k))], evidence, key, ks + [k])
  {
    var joins := GroupOf(evidence, key, k);
    assert joins[0] in joins;
    AmongOneMore(evidence, key, ks, k);
    AllJoinsSnoc(groups, GroupWith(joins));
  }

  /** groupEvidence: the groups together hold every equality, as often as it was stated. */
  method GroupEvidence(evidence: seq<JoinEvidence>, key: JoinEvidence -> string) returns (groups: seq<EvidenceGroup>)
    ensures AreGroups(groups, evidence, key)
    ensures multiset(AllJoins(groups)) == multiset(evidence)
  {
    var index, order := GroupInOrder(evidence, key);
    groups := [];
    AmongNone(evidence, key);
    for i := 0 to |order|
      invariant Gathered(groups, evidence, key, order[..i])
    {
      assert order[..i + 1] == order[..i] + [order[i]];
      GatheredOneMore(groups, evidence, key, order[..i], order[i]);
      groups := groups + [GroupWith(index[order[i]])];
    }
    assert order[..|order|] == order;
    AmongAll(evidence, key, order);
  }

  // --- a composite key in a group --------------------------------------------------------------

  /** The equality, parent side first if it is on either side. */
  function Facing(ev: JoinEvidence, parentRef: string): (ColumnRef, ColumnRef) {
    if ev.left.TableRef() == parentRef then (ev.left, ev.right) else (ev.right, ev.left)
  }

  predicate Faces(ev: JoinEvidence, parentRef: string, childRef: string) {
    Facing(ev, parentRef).0.TableRef() == parentRef && Facing(ev, parentRef).1.TableRef() == childRef
  }

  /** The equality is about this parent column and this child column. */
  predicate Equates(ev: JoinEvidence, parentRef: string, childRef: string, parent: string, child: string) {
    Faces(ev, parentRef, childRef)
    && Lower(Facing(ev, parentRef).0.column) == parent && Facing(ev, parentRef).1.column == child
  }

  predicate Pairs(p: ColumnRef, c: ColumnRef, parentRef: string, childRef: string, parent: string, child: string) {
    p.TableRef() == parentRef && c.TableRef() == childRef && Lower(p.column) == parent && c.column == child
  }

  /** Between two tables: one side is the parent's column and the other the child's, whichever way it is written. */
  lemma EquatesExactly(ev: JoinEvidence, parentRef: string, childRef: string, parent: string, child: string)
    requires parentRef != childRef
    ensures Equates(ev, parentRef, childRef, parent, child) <==>
      || Pairs(ev.left, ev.right, parentRef, childRef, parent, child)
      || Pairs(ev.right, ev.left, parentRef, childRef, parent, child)
  {
  }

  /** keyMapping: parent column to child column, unless one parent column has two counterparts. */
  function MappingOf(joins: seq<JoinEvidence>, parentRef: string, childRef: string): Option<map<string, string>> {
    if joins == [] then Some(map[])
    else
      var ev := joins[|joins| - 1];
      match MappingOf(joins[..|joins| - 1], parentRef, childRef)
      case None => None
      case Some(m) =>
        if !Faces(ev, parentRef, childRef) then Some(m)
        else
          var k, c := Lower(Facing(ev, parentRef).0.column), Facing(ev, parentRef).1.column;
          if k in m && !EqualFold(m[k], c) then None else Some(m[k := c])
  }

  lemma {:induction false} NoMappingStays(joins: seq<JoinEvidence>, i: nat, parentRef: string, childRef: string)
    requires i <= |joins| && MappingOf(joins[..i], parentRef, childRef).None?
    ensures MappingOf(joins, parentRef, childRef).None?
  {
    if i < |joins| {
      assert joins[..|joins| - 1][..i] == joins[..i];
      NoMappingStays(joins[..|joins| - 1], i, parentRef, childRef);
    } else {
      assert joins[..i] == joins;
    }
  }

  method KeyMapping(joins: seq<JoinEvidence>, parentRef: string, childRef: string)
    returns (r: Option<map<string, string>>)
    ensures r == MappingOf(joins, parentRef, childRef)
  {
    var out: map<string, string> := map[];
    for i := 0 to |joins|
      invariant MappingOf(joins[..i], parentRef, childRef) == Some(out)
    {
      assert joins[..i + 1][..i] == joins[..i];
      var p, c := joins[i].left, joins[i].right;
      if p.TableRef() != parentRef {
        p, c := joins[i].right, joins[i].left;
      }
      if p.TableRef() != parentRef || c.TableRef() != childRef {
        continue;
      }
      var k := Lower(p.column);
      if k in out && !EqualFold(out[k], c.column) {
        NoMappingStays(joins, i + 1, parentRef, childRef);
        return None;
      }
      out := out[k := c.column];
    }
    assert joins[..|joins|] == joins;
    return Some(out);
  }

  /** Some equality pairs the two columns. */
  ghost predicate Stated(joins: seq<JoinEvidence>, parentRef: string, childRef: string, parent: string, child: string) {
    exists ev :: ev in joins && Equates(ev, parentRef, childRef, parent, child)
  }

  ghost predicate TwoCounterparts(joins: seq<JoinEvidence>, parentRef: string, childRef: string) {
    exists k, a, b :: Stated(joins, parentRef, childRef, k, a) && Stated(joins, parentRef, childRef, k, b) &&
      !EqualFold(a, b)
  }

  ghost predicate IsMapping(m: map<string, string>, joins: seq<JoinEvidence>, parentRef: string, childRef: string) {
    && (forall k | k in m :: Stated(joins, parentRef, childRef, k, m[k]))
    && (forall k, c | Stated(joins, parentRef, childRef, k, c) :: k in m && EqualFold(m[k], c))
  }

  lemma StatedSnoc(joins: seq<JoinEvidence>, ev: JoinEvidence, parentRef: string, childRef: string, k: string,
                   c: string)
    ensures Stated(joins + [ev], parentRef, childRef, k, c) <==>
      Stated(joins, parentRef, childRef, k, c) || Equates(ev, parentRef, childRef, k, c)
  {
    if Stated(joins, parentRef, childRef, k, c) {
      var e :| e in joins && Equates(e, parentRef, childRef, k, c);
      assert e in joins + [ev];
    }
    if Equates(ev, parentRef, childRef, k, c) { assert ev in joins + [ev]; }
  }

  /** There is a mapping unless some parent column is equated to two child columns, and it holds what is stated. */
  lemma {:induction false} MappingExactly(joins: seq<JoinEvidence>, parentRef: string, childRef: string)
    ensures MappingOf(joins, parentRef, childRef).None? <==> TwoCounterparts(joins, parentRef, childRef)
    ensures MappingOf(joins, parentRef, childRef).Some? ==>
      IsMapping(MappingOf(joins, parentRef, childRef).value, joins, parentRef, childRef)
  {
    if joins != [] {
      var n := |joins| - 1;
      var ev := joins[n];
      MappingExactly(joins[..n], parentRef, childRef);
      assert joins == joins[..n] + [ev];
      forall k, c ensures Stated(joins, parentRef, childRef, k, c) <==>
        Stated(joins[..n], parentRef, childRef, k, c) || Equates(ev, parentRef, childRef, k, c)
      {
        StatedSnoc(joins[..n], ev, parentRef, childRef, k, c);
      }
      if Faces(ev, parentRef, childRef) {
        assert Equates(ev, parentRef, childRef, Lower(Facing(ev, parentRef).0.column), Facing(ev, parentRef).1.column);
      }
    }
  }

  /** The child columns of the key's positions: none may be missing, none may serve twice. */
  function NamesFrom(m: map<string, string>, key: seq<string>): Option<seq<string>> {
    if key == [] then Some([])
    else
      var k := Lower(key[|key| - 1]);
      match NamesFrom(m, key[..|key| - 1])
      case None => None
      case Some(names) =>
        if k !in m || Lower(m[k]) in Folded(names) then None else Some(names + [m[k]])
  }

  function Folded(names: seq<string>): set<string> { set n | n in names :: Lower(n) }

  lemma {:induction false} NoNamesStays(m: map<string, string>, key: seq<string>, i: nat)
    requires i <= |key| && NamesFrom(m, key[..i]).None?
    ensures NamesFrom(m, key).None?
  {
    if i < |key| {
      assert key[..|key| - 1][..i] == key[..i];
      NoNamesStays(m, key[..|key| - 1], i);
    } else {
      assert key[..i] == key;
    }
  }

  /** The loop over the key in applyCompositeOriented. */
  method ChildNames(m: map<string, string>, key: seq<string>) returns (r: Option<seq<string>>)
    ensures r == NamesFrom(m, key)
  {
    var names: seq<string> := [];
    var used: set<string> := {};
    for i := 0 to |key|
      invariant NamesFrom(m, key[..i]) == Some(names)
      invariant used == Folded(names)
    {
      assert key[..i + 1][..i] == key[..i];
      var k := Lower(key[i]);
      if k !in m || Lower(m[k]) in used {
        NoNamesStays(m, key, i + 1);
        return None;
      }
      used := used + {Lower(m[k])};
      names := names + [m[k]];
    }
    assert key[..|key|] == key;
    return Some(names);
  }

  /** One child column per position, each the counterpart of its position, and no column twice. */
  lemma {:induction false} NamesFromExactly(m: map<string, string>, key: seq<string>)
    ensures NamesFrom(m, key).Some? ==>
      var names := NamesFrom(m, key).value;
      && |names| == |key| && DistinctFolded(names)
      && forall i | 0 <= i < |key| :: Lower(key[i]) in m && names[i] == m[Lower(key[i])]
    ensures NamesFrom(m, key).Some? <==>
      && (forall k | k in key :: Lower(k) in m)
      && (forall i, j | 0 <= i < j < |key| && Lower(key[i]) in m && Lower(key[j]) in m ::
            !EqualFold(m[Lower(key[i])], m[Lower(key[j])]))
  {
    if key != [] {
      var n := |key| - 1;
      NamesFromExactly(m, key[..n]);
      assert key == key[..n] + [key[n]];
      if NamesFrom(m, key[..n]).Some? && Lower(key[n]) in m {
        var names := NamesFrom(m, key[..n]).value;
        assert Lower(m[Lower(key[n])]) in Folded(names) <==>
          exists i :: 0 <= i < n && EqualFold(names[i], m[Lower(key[n])]);
      }
    }
  }
}
