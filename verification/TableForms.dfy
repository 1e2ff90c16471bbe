/**
  The forms of a table name, internal/profile/normalize.go:90-165: the name itself,
  without a prefix, in the singular, and both. Which form a match is credited with
  decides its score.
 */
module TableForms {
  import opened Text
  import opened Profile

  /** From strongest to weakest. */
  datatype Origin = Exact | PrefixStripped | Depluralized | PrefixAndDepluralized {
    function Rank(): nat {
      match this
      case Exact => 0
      case PrefixStripped => 1
      case Depluralized => 2
      case PrefixAndDepluralized => 3
    }
  }

  /** The name itself is the strongest, then without its prefix, then in the singular, then both. */
  lemma RanksInOrder()
    ensures Exact.Rank() < PrefixStripped.Rank() < Depluralized.Rank() < PrefixAndDepluralized.Rank()
  {
  }

  datatype Form = Form(value: string, origin: Origin)

  function Normal(s: string): string { Lower(TrimSpace(s)) }

  // --- the singulars -------------------------------------------------------------------

  predicate RuleApplies(name: string, rule: PluralRule) {
    HasSuffix(name, rule.suffix) && |rule.suffix| < |name|
  }

  function Singular(name: string, rule: PluralRule): string
    requires RuleApplies(name, rule)
  {
    name[..|name| - |rule.suffix|] + rule.singular
  }

  /** depluralize: every rule that applies contributes a form. */
  function Singulars(name: string, rules: seq<PluralRule>): seq<string> {
    if rules == [] then []
    else
      var last := rules[|rules| - 1];
      Singulars(name, rules[..|rules| - 1]) + if RuleApplies(name, last) then [Singular(name, last)] else []
  }

  /** Some letters in front of the rule's ending, which the singular ending takes the place of. */
  ghost predicate IsSingularOf(name: string, v: string, r: PluralRule) {
    exists stem :: stem != "" && name == stem + r.suffix && v == stem + r.singular
  }

  lemma SingularExactly(name: string, v: string, r: PluralRule)
    ensures RuleApplies(name, r) && v == Singular(name, r) <==> IsSingularOf(name, v, r)
  {
    if RuleApplies(name, r) && v == Singular(name, r) {
      var stem := name[..|name| - |r.suffix|];
      assert stem != "" && name == stem + r.suffix && v == stem + r.singular;
    }
    if stem :| stem != "" && name == stem + r.suffix && v == stem + r.singular {
      assert name[..|name| - |r.suffix|] == stem && name[|name| - |r.suffix|..] == r.suffix;
    }
  }

  /** The singulars of a name: by every rule whose ending it has. */
  lemma {:induction false} SingularsExactly(name: string, rules: seq<PluralRule>, v: string)
    ensures v in Singulars(name, rules) <==> exists r :: r in rules && IsSingularOf(name, v, r)
  {
    if rules != [] {
      var n := |rules| - 1;
      SingularsExactly(name, rules[..n], v);
      SingularExactly(name, v, rules[n]);
      assert rules == rules[..n] + [rules[n]];
    }
  }

  /** The two rules take the same off some name. */
  ghost predicate TakeTheSame(a: PluralRule, b: PluralRule) {
    exists name :: RuleApplies(name, a) && RuleApplies(name, b) && |a.suffix| == |b.suffix|
  }

  ghost predicate AppliesToAll(r: PluralRule) { forall name :: name != "" ==> RuleApplies(name, r) }

  lemma SameExactly(a: PluralRule, b: PluralRule)
    ensures TakeTheSame(a, b) <==> a.suffix == b.suffix
    ensures AppliesToAll(a) <==> a.suffix == ""
  {
    var name := "x" + a.suffix;
    assert name[1..] == a.suffix;
    if a.suffix == b.suffix { assert RuleApplies(name, a) && RuleApplies(name, b); }
    if a.suffix != "" { assert !RuleApplies("x", a); }
  }

  /** Plural rules are accepted exactly if none applies to every name, and no two take the same off any name. */
  lemma PluralRulesExactly(rules: seq<PluralRule>)
    ensures PluralRulesAreValid(rules) <==>
      && (forall r | r in rules :: !AppliesToAll(r))
      && forall i, j | 0 <= i < j < |rules| :: !TakeTheSame(rules[i], rules[j])
  {
    forall r ensures AppliesToAll(r) <==> r.suffix == "" { SameExactly(r, r); }
    forall i, j | 0 <= i < j < |rules| ensures TakeTheSame(rules[i], rules[j]) <==> rules[i].suffix == rules[j].suffix {
      SameExactly(rules[i], rules[j]);
    }
  }

  method Depluralize(name: string, rules: seq<PluralRule>) returns (out: seq<string>)
    ensures out == Singulars(name, rules)
  {
    out := [];
    for i := 0 to |rules|
      invariant out == Singulars(name, rules[..i])
    {
      assert rules[..i + 1][..i] == rules[..i];
      if !HasSuffix(name, rules[i].suffix) {
        continue;
      }
      var stem := name[..|name| - |rules[i].suffix|];
      if stem == "" {
        continue;
      }
      out := out + [stem + rules[i].singular];
    }
    assert rules[..|rules|] == rules;
  }

  // --- the forms -------------------------------------------------------------------------

  function Values(forms: seq<Form>): (vs: seq<string>)
    ensures |vs| == |forms|
  {
    seq(|forms|, i requires 0 <= i < |forms| => forms[i].value)
  }

  /** The `add` of TableForms: no empty value, and no value twice. */
  function Add(forms: seq<Form>, value: string, origin: Origin): seq<Form> {
    if value == "" || value in Values(forms) then forms else forms + [Form(value, origin)]
  }

  function AddAll(forms: seq<Form>, values: seq<string>, origin: Origin): seq<Form> {
    if values == [] then forms
    else Add(AddAll(forms, values[..|values| - 1], origin), values[|values| - 1], origin)
  }

  function Stripped(p: Profile, name: string): Option<string> {
    match First(AtStart, name, p.tablePrefixes)
    case Some(prefix) => Some(Without(AtStart, name, prefix))
    case None => None
  }

  /** Of a valid profile: the name without the longest prefix that comes off, if there is one. */
  lemma StrippedExactly(p: Profile, name: string)
    requires IsValid(p)
    ensures Stripped(p, name).Some? <==> exists a :: a in p.tablePrefixes && ComesOff(AtStart, name, a)
    ensures Stripped(p, name).Some? ==> IsLeft(AtStart, name, p.tablePrefixes, Stripped(p, name).value)
  {
    StripLeaves(AtStart, name, p.tablePrefixes);
  }

  /** The forms of a name, given the name without its prefix and the singulars of both. */
  function FormsFrom(name: string, stripped: Option<string>, whole: seq<string>, rest: seq<string>): seq<Form> {
    var exact := Add([], name, Exact);
    match stripped
    case None => AddAll(exact, whole, Depluralized)
    case Some(part) => AddAll(AddAll(Add(exact, part, PrefixStripped), whole, Depluralized), rest,
                              PrefixAndDepluralized)
  }

  function SingularsOf(p: Profile, name: Option<string>): seq<string> {
    match name case None => [] case Some(n) => Singulars(n, p.plural)
  }

  function FormsOf(p: Profile, table: string): seq<Form> {
    var name := Normal(table);
    if name == "" then []
    else FormsFrom(name, Stripped(p, name), Singulars(name, p.plural), SingularsOf(p, Stripped(p, name)))
  }

  /** The growing list of forms with the set of values seen. */
  class FormList {
    var forms: seq<Form>
    var seen: set<string>

    ghost predicate Valid()
      reads this
    {
      forall v :: v in seen <==> v in Values(forms)
    }

    constructor ()
      ensures Valid() && forms == []
    {
      forms, seen := [], {};
    }

    method Append(value: string, origin: Origin)
      requires Valid()
      modifies this
      ensures Valid() && forms == Add(old(forms), value, origin)
    {
      if value == "" || value in seen {
        return;
      }
      seen := seen + {value};
      assert Values(forms + [Form(value, origin)]) == Values(forms) + [value];
      forms := forms + [Form(value, origin)];
    }

    method AppendAll(values: seq<string>, origin: Origin)
      requires Valid()
      modifies this
      ensures Valid() && forms == AddAll(old(forms), values, origin)
    {
      for i := 0 to |values|
        invariant Valid() && forms == AddAll(old(forms), values[..i], origin)
      {
        assert values[..i + 1][..i] == values[..i];
        Append(values[i], origin);
      }
      assert values[..|values|] == values;
    }
  }

  method DeriveForms(p: Profile, table: string) returns (forms: seq<Form>)
    ensures forms == FormsOf(p, table)
  {
    var name := Normal(table);
    if name == "" {
      return [];
    }
    var list := new FormList();
    list.Append(name, Exact);
    var stripped := "";
    for i := 0 to |p.tablePrefixes|
      invariant list.Valid() && list.forms == Add([], name, Exact) && fresh(list)
      invariant stripped == ""
      invariant First(AtStart, name, p.tablePrefixes) == First(AtStart, name, p.tablePrefixes[i..])
    {
      if Applies(AtStart, name, p.tablePrefixes[i]) {
        stripped := Without(AtStart, name, p.tablePrefixes[i]);
        list.Append(stripped, PrefixStripped);
        assert First(AtStart, name, p.tablePrefixes) == Some(p.tablePrefixes[i]);
        break;
      }
      assert p.tablePrefixes[i..][1..] == p.tablePrefixes[i + 1..];
    }
    assert stripped == "" <==> Stripped(p, name).None?;
    assert stripped != "" ==> Stripped(p, name) == Some(stripped);
    var singulars := Depluralize(name, p.plural);
    list.AppendAll(singulars, Depluralized);
    if stripped != "" {
      singulars := Depluralize(stripped, p.plural);
      list.AppendAll(singulars, PrefixAndDepluralized);
    }
    return list.forms;
  }

  // --- matching ----------------------------------------------------------------------------

  function Find(forms: seq<Form>, value: string): Option<Form> {
    if forms == [] then None
    else if forms[0].value == value then Some(forms[0])
    else Find(forms[1..], value)
  }

  /** Profile.Match. */
  function Match(p: Profile, entity: string, table: string): Option<Form> {
    if Normal(entity) == "" then None else Find(FormsOf(p, table), Normal(entity))
  }

  /** How a name comes to be the entity: the strongest way, by the rules rather than by the list. */
  function Strongest(p: Profile, entity: string, name: string): Option<Origin> {
    StrongestFrom(entity, name, Stripped(p, name), Singulars(name, p.plural), SingularsOf(p, Stripped(p, name)))
  }

  function StrongestFrom(entity: string, name: string, stripped: Option<string>, whole: seq<string>,
                         rest: seq<string>): Option<Origin> {
    if entity == name then Some(Exact)
    else if stripped == Some(entity) then Some(PrefixStripped)
    else if entity in whole then Some(Depluralized)
    else if stripped.Some? && entity in rest then Some(PrefixAndDepluralized)
    else None
  }

  lemma {:induction false} FindAppend(forms: seq<Form>, f: Form, value: string)
    ensures Find(forms + [f], value) ==
      if Find(forms, value).Some? then Find(forms, value) else if f.value == value then Some(f) else None
  {
    if forms != [] {
      assert (forms + [f])[1..] == forms[1..] + [f];
      FindAppend(forms[1..], f, value);
    }
  }

  lemma {:induction false} FindIsMembership(forms: seq<Form>, value: string)
    ensures Find(forms, value).Some? <==> value in Values(forms)
    ensures Find(forms, value).Some? ==> Find(forms, value).value in forms && Find(forms, value).value.value == value
  {
    if forms != [] {
      FindIsMembership(forms[1..], value);
      assert Values(forms) == [forms[0].value] + Values(forms[1..]);
      assert forms == [forms[0]] + forms[1..];
    }
  }

  /** What adding one value changes: only the lookup of that value, and only if it was not there. */
  lemma FindAdd(forms: seq<Form>, value: string, origin: Origin, wanted: string)
    requires wanted != ""
    ensures Find(Add(forms, value, origin), wanted) ==
      if Find(forms, wanted).Some? then Find(forms, wanted)
      else if value == wanted then Some(Form(value, origin)) else None
  {
    FindIsMembership(forms, value);
    FindIsMembership(forms, wanted);
    FindAppend(forms, Form(value, origin), wanted);
  }

  lemma {:induction false} FindAddAll(forms: seq<Form>, values: seq<string>, origin: Origin, wanted: string)
    requires wanted != ""
    ensures Find(AddAll(forms, values, origin), wanted) ==
      if Find(forms, wanted).Some? then Find(forms, wanted)
      else if wanted in values then Some(Form(wanted, origin)) else None
  {
    if values != [] {
      var n := |values| - 1;
      assert values == values[..n] + [values[n]];
      FindAddAll(forms, values[..n], origin, wanted);
      FindAdd(AddAll(forms, values[..n], origin), values[n], origin, wanted);
    }
  }

  lemma FindIsStrongest(e: string, name: string, stripped: Option<string>, whole: seq<string>, rest: seq<string>)
    requires e != ""
    ensures Find(FormsFrom(name, stripped, whole, rest), e) ==
      match StrongestFrom(e, name, stripped, whole, rest)
      case Some(origin) => Some(Form(e, origin))
      case None => None
  {
    var exact := Add([], name, Exact);
    FindAdd([], name, Exact, e);
    match stripped
    case None => FindAddAll(exact, whole, Depluralized, e);
    case Some(part) =>
      var second := Add(exact, part, PrefixStripped);
      FindAdd(exact, part, PrefixStripped, e);
      FindAddAll(second, whole, Depluralized, e);
      FindAddAll(AddAll(second, whole, Depluralized), rest, PrefixAndDepluralized, e);
  }

  lemma {:induction false} NoSingulars(rules: seq<PluralRule>)
    ensures Singulars("", rules) == []
  {
    if rules != [] { NoSingulars(rules[..|rules| - 1]); }
  }

  /** A blank name comes to be nothing. */
  lemma BlankIsNothing(p: Profile, entity: string)
    requires entity != ""
    ensures Strongest(p, entity, "") == None
  {
    NoSingulars(p.plural);
    NoneApplies(p.tablePrefixes);
  }

  lemma {:induction false} NoneApplies(affixes: seq<string>)
    ensures First(AtStart, "", affixes) == None
  {
    if affixes != [] { NoneApplies(affixes[1..]); }
  }

  /** A match is credited with the strongest way its name comes to be the entity. */
  lemma MatchIsStrongest(p: Profile, entity: string, table: string)
    requires Normal(entity) != ""
    ensures Match(p, entity, table) ==
      match Strongest(p, Normal(entity), Normal(table))
      case Some(origin) => Some(Form(Normal(entity), origin))
      case None => None
  {
    var name := Normal(table);
    if name == "" {
      BlankIsNothing(p, Normal(entity));
    } else {
      FindIsStrongest(Normal(entity), name, Stripped(p, name), Singulars(name, p.plural),
                      SingularsOf(p, Stripped(p, name)));
    }
  }

  // --- every value once -----------------------------------------------------------------------

  ghost predicate Proper(forms: seq<Form>) {
    && "" !in Values(forms)
    && forall i, j | 0 <= i < j < |forms| :: forms[i].value != forms[j].value
  }

  lemma AddProper(forms: seq<Form>, value: string, origin: Origin)
    requires Proper(forms)
    ensures Proper(Add(forms, value, origin))
  {
    if value != "" && value !in Values(forms) {
      var more := forms + [Form(value, origin)];
      assert Values(more) == Values(forms) + [value];
      assert forall i | 0 <= i < |forms| :: Values(forms)[i] == forms[i].value;
    }
  }

  lemma {:induction false} AddAllProper(forms: seq<Form>, values: seq<string>, origin: Origin)
    requires Proper(forms)
    ensures Proper(AddAll(forms, values, origin))
  {
    if values != [] {
      var n := |values| - 1;
      AddAllProper(forms, values[..n], origin);
      AddProper(AddAll(forms, values[..n], origin), values[n], origin);
    }
  }

  /** A table answers to each of its forms once, and to no empty one. */
  lemma FormsAreProper(p: Profile, table: string)
    ensures Proper(FormsOf(p, table))
  {
    var name := Normal(table);
    if name != "" {
      var exact := Add([], name, Exact);
      AddProper([], name, Exact);
      match Stripped(p, name)
      case None =>
        AddAllProper(exact, Singulars(name, p.plural), Depluralized);
      case Some(stripped) =>
        var second := Add(exact, stripped, PrefixStripped);
        AddProper(exact, stripped, PrefixStripped);
        AddAllProper(second, Singulars(name, p.plural), Depluralized);
        AddAllProper(AddAll(second, Singulars(name, p.plural), Depluralized), Singulars(stripped, p.plural),
                     PrefixAndDepluralized);
    }
  }
}
