/**
  The uniqueness probe of internal/validate/keyprobe.go: three counts of a full
  scan, and the proof that they decide whether the columns are a key.
 */
module KeyProbe {
  import opened Relational
  import opened Counting

  datatype Verdict = Confirmed | Unverified

  datatype Reason = NoReason | NotUnique | TimeCeiling | NoPrivilege

  datatype Result = Result(columns: Key, verdict: Verdict, reason: Reason)

  /** What running the probe query ends in; the failures are those resolveError tells apart. */
  datatype Reply = Answer(total: nat, distinct: nat, nulls: nat) | TimedOut | Unprivileged | Failed

  datatype Outcome<T> = Ok(value: T) | Error

  function HasNull(): Row -> bool { r => !NullFree(r) }

  /**
    count(DISTINCT (a, b, ...)). A row constructor of two or more columns is never
    null itself, so it is counted with the nulls in it; a single column is a plain
    value, and null values are not counted.
   */
  ghost function CountDistinct(rows: seq<Row>, arity: nat): nat {
    if arity == 1 then |SetOf(Filter(rows, IsNullFree()))| else |SetOf(rows)|
  }

  lemma FilteredOneMore(rows: seq<Row>, r: Row, p: Row -> bool)
    ensures SetOf(Filter(rows + [r], p)) == SetOf(Filter(rows, p)) + if p(r) then {r} else {}
  {
  }

  lemma SizeOneMore(a: set<Row>, r: Row)
    ensures |a + {r}| == |a| + if r in a then 0 else 1
  {
    if r in a { assert a + {r} == a; }
  }

  lemma NothingCounted(arity: nat)
    ensures CountDistinct([], arity) == 0
  {
    assert SetOf<Row>([]) == {};
  }

  /** A row counts once, by its first occurrence; a null in a single column does not count at all. */
  lemma OneRowMore(rows: seq<Row>, r: Row, arity: nat)
    ensures CountDistinct(rows + [r], arity)
         == CountDistinct(rows, arity) + if r in rows || (arity == 1 && !NullFree(r)) then 0 else 1
  {
    if arity == 1 {
      FilteredOneMore(rows, r, IsNullFree());
      SizeOneMore(SetOf(Filter(rows, IsNullFree())), r);
    } else {
      assert SetOf(rows + [r]) == SetOf(rows) + {r};
      SizeOneMore(SetOf(rows), r);
    }
  }

  /** The query's answer on a table. */
  ghost function Probe(t: Table, k: Key): Reply
    requires WellFormed(t) && KeyOf(k, t)
  {
    var rows := Select(t, k);
    Answer(|rows|, CountDistinct(rows, |k|), CountIf(rows, HasNull()))
  }

  /** probeOne, given the reply; Error is a failure that makes the other results untrustworthy too. */
  function ProbeOne(k: Key, reply: Reply): Outcome<Result> {
    match reply
    case TimedOut => Ok(Result(k, Unverified, TimeCeiling))
    case Unprivileged => Ok(Result(k, Unverified, NoPrivilege))
    case Failed => Error
    case Answer(total, distinct, nulls) =>
      if total == distinct && nulls == 0 then Ok(Result(k, Confirmed, NoReason))
      else Ok(Result(k, Unverified, NotUnique))
  }

  /** What a primary key promises: no nulls, and no two rows alike in the key. */
  ghost predicate IsKey(t: Table, k: Key)
    requires WellFormed(t) && KeyOf(k, t)
  {
    && (forall r | r in t.rows :: !Exempt(r, k))
    && (forall i, j | 0 <= i < j < |t.rows| :: !Agree(t.rows[i], k, t.rows[j], k))
  }

  lemma IsKeyByProjection(t: Table, k: Key)
    requires WellFormed(t) && KeyOf(k, t)
    ensures IsKey(t, k) <==> (forall r | r in Select(t, k) :: NullFree(r)) && Distinct(Select(t, k))
  {
    var rows := Select(t, k);
    forall i | 0 <= i < |t.rows|
      ensures NullFree(rows[i]) <==> !Exempt(t.rows[i], k)
    {
      ProjectionExempt(t.rows[i], k);
    }
    forall i, j | 0 <= i < j < |t.rows|
      ensures rows[i] == rows[j] <==> Agree(t.rows[i], k, t.rows[j], k)
    {
      ProjectionAgrees(t.rows[i], k, t.rows[j], k);
    }
    if forall r | r in rows :: NullFree(r) {
      forall r | r in t.rows ensures !Exempt(r, k) {
        var i :| 0 <= i < |t.rows| && t.rows[i] == r;
        assert rows[i] in rows;
      }
    }
    if IsKey(t, k) {
      forall r | r in rows ensures NullFree(r) {
        var i :| 0 <= i < |rows| && rows[i] == r;
        assert t.rows[i] in t.rows;
      }
    }
  }

  lemma {:induction false} KeepAll(s: seq<Row>, p: Row -> bool)
    requires forall r | r in s :: p(r)
    ensures Filter(s, p) == s
  {
    if s != [] {
      KeepAll(s[1..], p);
    }
  }

  /** A completed probe confirms exactly the column sets that are keys of the table, at every arity. */
  lemma ConfirmedIsKey(t: Table, k: Key)
    requires WellFormed(t) && KeyOf(k, t)
    ensures ProbeOne(k, Probe(t, k)) == Ok(Result(k, if IsKey(t, k) then Confirmed else Unverified,
                                                  if IsKey(t, k) then NoReason else NotUnique))
  {
    var rows := Select(t, k);
    CountZero(rows, HasNull());
    SetSize(rows);
    IsKeyByProjection(t, k);
    if forall r | r in rows :: NullFree(r) {
      KeepAll(rows, IsNullFree());
    }
  }

  /** Only a reply with counts confirms. */
  lemma OnlyAnswersConfirm(k: Key, reply: Reply)
    ensures var o := ProbeOne(k, reply);
      && (o.Error? <==> reply == Failed)
      && (o.Ok? && o.value.verdict == Confirmed ==> reply.Answer?)
  {
  }

  /** ProbeUniqueness: one result per candidate, in order, unless one of them fails for good. */
  method ProbeUniqueness(candidates: seq<Key>, replies: seq<Reply>) returns (out: Outcome<seq<Result>>)
    requires |replies| == |candidates|
    ensures out.Error? <==> Failed in replies
    ensures out.Ok? ==> |out.value| == |candidates|
    ensures out.Ok? ==> forall i | 0 <= i < |candidates| :: Ok(out.value[i]) == ProbeOne(candidates[i], replies[i])
  {
    var results := [];
    for i := 0 to |candidates|
      invariant |results| == i
      invariant Failed !in replies[..i]
      invariant forall j | 0 <= j < i :: Ok(results[j]) == ProbeOne(candidates[j], replies[j])
    {
      var one := ProbeOne(candidates[i], replies[i]);
      if one.Error? {
        return Error;
      }
      results := results + [one.value];
      assert replies[..i + 1] == replies[..i] + [replies[i]];
    }
    assert replies[..|candidates|] == replies;
    return Ok(results);
  }
}
