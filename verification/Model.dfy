/**
  The catalog and candidate model of internal/model, without the texts a user
  reads: a signal's detail and a candidate's reason are left out.
 */
module Model {
  import opened Text

  // --- references -----------------------------------------------------------------

  datatype ColumnRef = ColumnRef(schema: string, table: string, column: string) {
    function TableRef(): string { schema + "." + table }

    function String(): string { schema + "." + table + "." + column }
  }

  /** Columns are in key order, and the order is part of the key. */
  datatype KeyRef = KeyRef(schema: string, table: string, columns: seq<string>) {
    function TableRef(): string { schema + "." + table }

    function String(): string {
      if |columns| == 1 then schema + "." + table + "." + columns[0]
      else schema + "." + table + ".(" + Join(columns, ", ") + ")"
    }

    function ColumnRefs(): (refs: seq<ColumnRef>)
      ensures |refs| == |columns|
    {
      seq(|columns|, i requires 0 <= i < |columns| => ColumnRef(schema, table, columns[i]))
    }
  }

  function SingleKey(schema: string, table: string, column: string): KeyRef {
    KeyRef(schema, table, [column])
  }

  // --- tables ---------------------------------------------------------------------

  datatype Column = Column(name: string, baseType: string, nullable: bool, comment: string)

  datatype Index = Index(columns: seq<string>)

  datatype ForeignKey = ForeignKey(columns: seq<string>)

  datatype Table = Table(
    schema: string,
    name: string,
    columns: seq<Column>,
    primaryKey: seq<string>,
    foreignKeys: seq<ForeignKey>,
    indexes: seq<Index>,
    comment: string)
  {
    function Ref(): string { schema + "." + name }

    /** Table.Column: the first column of that name, names compared without case. */
    function FindColumn(wanted: string): (r: Option<Column>)
      ensures r.Some? ==> r.value in columns && EqualFold(r.value.name, wanted)
      ensures r.None? ==> forall c | c in columns :: !EqualFold(c.name, wanted)
    {
      FirstNamed(columns, wanted)
    }
  }

  function FirstNamed(columns: seq<Column>, wanted: string): (r: Option<Column>)
    ensures r.Some? ==> r.value in columns && EqualFold(r.value.name, wanted)
    ensures r.None? ==> forall c | c in columns :: !EqualFold(c.name, wanted)
  {
    if columns == [] then None
    else
      assert columns == [columns[0]] + columns[1..];
      if EqualFold(columns[0].name, wanted) then Some(columns[0])
      else FirstNamed(columns[1..], wanted)
  }

  /** Column lookup cannot tell names apart that differ in case only. */
  lemma {:induction false} FirstNamedFolds(columns: seq<Column>, a: string, b: string)
    requires EqualFold(a, b)
    ensures FirstNamed(columns, a) == FirstNamed(columns, b)
  {
    if columns != [] { FirstNamedFolds(columns[1..], a, b); }
  }

  /** Of several columns that go by the name, it is the first. */
  lemma {:induction false} FirstNamedIsFirst(columns: seq<Column>, wanted: string, i: nat)
    requires i < |columns| && EqualFold(columns[i].name, wanted)
    requires forall j | 0 <= j < i :: !EqualFold(columns[j].name, wanted)
    ensures FirstNamed(columns, wanted) == Some(columns[i])
  {
    if i > 0 { FirstNamedIsFirst(columns[1..], wanted, i - 1); }
  }

  /** Some index opens with the given columns, in the given order. */
  predicate IndexLeads(indexes: seq<Index>, wanted: seq<string>) {
    wanted != [] && exists x | x in indexes ::
      |x.columns| >= |wanted| && forall i | 0 <= i < |wanted| :: EqualFold(x.columns[i], wanted[i])
  }

  /** An index that opens with columns opens with the first of them, and with one column by its first. */
  lemma IndexLeadsByFront(indexes: seq<Index>, wanted: seq<string>, n: nat)
    requires 0 < n <= |wanted|
    ensures IndexLeads(indexes, wanted) ==> IndexLeads(indexes, wanted[..n])
    ensures IndexLeads(indexes, wanted[..1]) <==>
      exists x | x in indexes :: x.columns != [] && EqualFold(x.columns[0], wanted[0])
  {
    if IndexLeads(indexes, wanted) {
      var x :| x in indexes && |x.columns| >= |wanted|
        && forall i | 0 <= i < |wanted| :: EqualFold(x.columns[i], wanted[i]);
      assert forall i | 0 <= i < n :: EqualFold(x.columns[i], wanted[..n][i]);
    }
    if x :| x in indexes && x.columns != [] && EqualFold(x.columns[0], wanted[0]) {
      assert forall i | 0 <= i < 1 :: EqualFold(x.columns[i], wanted[..1][i]);
    }
    if IndexLeads(indexes, wanted[..1]) {
      var x :| x in indexes && |x.columns| >= 1 && forall i | 0 <= i < 1 :: EqualFold(x.columns[i], wanted[..1][i]);
      assert EqualFold(x.columns[0], wanted[..1][0]);
    }
  }

  // --- types ----------------------------------------------------------------------

  /** Ordered from worst to best. */
  datatype TypeMatch = Incompatible | Compatible | Identical {
    function Rank(): nat { match this case Incompatible => 0 case Compatible => 1 case Identical => 2 }
  }

  function IntegerWidth(t: string): nat {
    if t == "int2" then 1 else if t == "int4" then 2 else if t == "int8" then 3 else 0
  }

  predicate IsTextual(t: string) { t == "text" || t == "varchar" || t == "bpchar" }

  function CompareTypes(child: string, parent: string): TypeMatch {
    if child == "" || parent == "" then Incompatible
    else if child == parent then Identical
    else if IntegerWidth(child) > 0 then
      if IntegerWidth(parent) > 0 && IntegerWidth(child) <= IntegerWidth(parent) then Compatible else Incompatible
    else if IsTextual(child) && IsTextual(parent) then Compatible
    else Incompatible
  }

  /** The largest value of an integer type. */
  function Largest(t: string): Option<int> {
    if t == "int2" then Some(32767)
    else if t == "int4" then Some(2147483647)
    else if t == "int8" then Some(9223372036854775807)
    else None
  }

  /**
    A child's type fits a key's if it is the same, if both are integers and the key's type
    holds every value of the child's, or if both are character types; and never without a name.
   */
  lemma TypesFitByRange(child: string, parent: string)
    ensures CompareTypes(child, parent) == Identical <==> child == parent != ""
    ensures CompareTypes(child, parent) != Incompatible <==>
      || child == parent != ""
      || (Largest(child).Some? && Largest(parent).Some? && Largest(child).value <= Largest(parent).value)
      || (child in {"text", "varchar", "bpchar"} && parent in {"text", "varchar", "bpchar"})
  {
  }

  /** What fits into a type fits into every type that one fits into. */
  lemma TypesCompose(a: string, b: string, c: string)
    requires CompareTypes(a, b) != Incompatible && CompareTypes(b, c) != Incompatible
    ensures CompareTypes(a, c) != Incompatible
  {
  }

  // --- candidates -----------------------------------------------------------------

  datatype SignalKind =
    | ExactName | NormalizedName | NameSimilarity
    | IdenticalType | CompatibleType
    | UniqueTarget | AmbiguousTarget
    | CompositeArity
    | ChildIndexed | CommentMention | NotNull
    | JoinInView | JoinInFunction | JoinInStatements
    | GenericDomain | RangeViolation | CardViolation
    | StatsUnavailable

  predicate IsJoinKind(k: SignalKind) { k == JoinInView || k == JoinInFunction || k == JoinInStatements }

  datatype Signal = Signal(kind: SignalKind, weight: real)

  predicate Has(signals: seq<Signal>, k: SignalKind) { exists i :: 0 <= i < |signals| && signals[i].kind == k }

  lemma HasConcat(a: seq<Signal>, b: seq<Signal>, k: SignalKind)
    ensures Has(a + b, k) <==> Has(a, k) || Has(b, k)
  {
    if Has(a, k) {
      var i :| 0 <= i < |a| && a[i].kind == k;
      assert (a + b)[i].kind == k;
    }
    if Has(b, k) {
      var i :| 0 <= i < |b| && b[i].kind == k;
      assert (a + b)[|a| + i].kind == k;
    }
  }

  datatype Verdict = Confirmed | Broken | Weak | Rejected | Unvalidated

  datatype Candidate = Candidate(
    child: KeyRef,
    parent: KeyRef,
    signals: seq<Signal>,
    metaScore: real,
    validated: bool,
    verdict: Verdict)
  {
    predicate HasSignal(k: SignalKind) { Has(signals, k) }

    /** What a candidate is about, whatever is said about it. */
    function Identity(): (KeyRef, KeyRef) { (child, parent) }
  }
}
