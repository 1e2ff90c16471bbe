/**
  Naming profiles: internal/profile/profile.go and normalize.go. A profile strips
  the first affix that applies; its validation is meant to make the first one the
  longest one.
 */
module Profile {
  import opened Text

  datatype PluralRule = PluralRule(suffix: string, singular: string)

  datatype Profile = Profile(
    name: string,
    columnSuffixes: seq<string>,
    columnPrefixes: seq<string>,
    tablePrefixes: seq<string>,
    typeSuffixes: seq<string>,
    genericEntities: seq<string>,
    plural: seq<PluralRule>)

  // --- one affix --------------------------------------------------------------------

  function TrimUnderscores(s: string): string { Trim(s, IsUnderscore) }

  /** Which end of a name an affix stands at. */
  datatype End = AtEnd | AtStart

  predicate HasAffix(end: End, name: string, affix: string) {
    match end
    case AtEnd => HasSuffix(name, affix)
    case AtStart => HasPrefix(name, affix)
  }

  function Without(end: End, name: string, affix: string): string
    requires HasAffix(end, name, affix)
  {
    match end
    case AtEnd => name[..|name| - |affix|]
    case AtStart => name[|affix|..]
  }

  /** trimSuffix and trimPrefix succeed: the affix is there, and leaves something other than underscores. */
  predicate Applies(end: End, name: string, affix: string) {
    affix != "" && HasAffix(end, name, affix) && TrimUnderscores(Without(end, name, affix)) != ""
  }

  function AppliesTo(end: End, name: string): string -> bool { affix => Applies(end, name, affix) }

  function FirstSuch(p: string -> bool, xs: seq<string>): (r: Option<string>)
    ensures r.Some? ==> r.value in xs && p(r.value)
    ensures r.None? <==> forall x | x in xs :: !p(x)
  {
    if xs == [] then None
    else
      assert xs == [xs[0]] + xs[1..];
      if p(xs[0]) then Some(xs[0]) else FirstSuch(p, xs[1..])
  }

  /** The first affix of the list that applies. */
  function First(end: End, name: string, affixes: seq<string>): (r: Option<string>)
    ensures r.Some? ==> r.value in affixes && Applies(end, name, r.value)
    ensures r.None? <==> forall a | a in affixes :: !Applies(end, name, a)
  {
    assert forall a | a in affixes :: AppliesTo(end, name)(a) == Applies(end, name, a);
    FirstSuch(AppliesTo(end, name), affixes)
  }

  function Strip(end: End, name: string, affixes: seq<string>): string {
    match First(end, name, affixes)
    case Some(affix) => Without(end, name, affix)
    case None => name
  }

  // --- validation of an affix list -----------------------------------------------------

  predicate NoDuplicates(items: seq<string>) {
    && "" !in items
    && forall i, j | 0 <= i < j < |items| :: items[i] != items[j]
  }

  /** checkNoDuplicates. */
  method CheckNoDuplicates(items: seq<string>) returns (ok: bool)
    ensures ok <==> NoDuplicates(items)
  {
    var seen: set<string> := {};
    for i := 0 to |items|
      invariant seen == set k | 0 <= k < i :: items[k]
      invariant NoDuplicates(items[..i])
    {
      if items[i] == "" || items[i] in seen {
        return false;
      }
      seen := seen + {items[i]};
    }
    assert items[..|items|] == items;
    return true;
  }

  /** An affix stands before a longer one it is the end, or the start, of. */
  predicate Shadows(end: End, items: seq<string>, i: nat, j: nat)
    requires i < j < |items|
  {
    |items[j]| > |items[i]| && HasAffix(end, items[j], items[i])
  }

  predicate Ordered(end: End, items: seq<string>) {
    forall i, j | 0 <= i < j < |items| :: !Shadows(end, items, i, j)
  }

  /** checkSuffixOrder and checkPrefixOrder. */
  method CheckOrder(end: End, items: seq<string>) returns (ok: bool)
    ensures ok <==> Ordered(end, items)
  {
    for i := 0 to |items|
      invariant forall a, b | 0 <= a < b < |items| && a < i :: !Shadows(end, items, a, b)
    {
      for j := i + 1 to |items|
        invariant forall a, b | 0 <= a < b < |items| && a < i :: !Shadows(end, items, a, b)
        invariant forall b | i < b < j :: !Shadows(end, items, i, b)
      {
        if |items[j]| > |items[i]| && HasAffix(end, items[j], items[i]) {
          assert Shadows(end, items, i, j);
          return false;
        }
      }
    }
    return true;
  }

  predicate PluralRulesAreValid(rules: seq<PluralRule>) {
    && (forall r | r in rules :: r.suffix != "")
    && forall i, j | 0 <= i < j < |rules| :: rules[i].suffix != rules[j].suffix
  }

  method CheckPlural(rules: seq<PluralRule>) returns (ok: bool)
    ensures ok <==> PluralRulesAreValid(rules)
  {
    var seen: set<string> := {};
    for i := 0 to |rules|
      invariant seen == set k | 0 <= k < i :: rules[k].suffix
      invariant PluralRulesAreValid(rules[..i])
    {
      if rules[i].suffix == "" || rules[i].suffix in seen {
        assert rules[i] in rules;
        return false;
      }
      seen := seen + {rules[i].suffix};
    }
    assert rules[..|rules|] == rules;
    return true;
  }

  predicate ListsAreUnique(p: Profile) {
    && NoDuplicates(p.columnSuffixes) && NoDuplicates(p.columnPrefixes) && NoDuplicates(p.tablePrefixes)
    && NoDuplicates(p.typeSuffixes) && NoDuplicates(p.genericEntities)
  }

  method CheckLists(p: Profile) returns (ok: bool)
    ensures ok <==> ListsAreUnique(p)
  {
    var sets := [p.columnSuffixes, p.columnPrefixes, p.tablePrefixes, p.typeSuffixes, p.genericEntities];
    for i := 0 to |sets|
      invariant forall k | 0 <= k < i :: NoDuplicates(sets[k])
    {
      var unique := CheckNoDuplicates(sets[i]);
      if !unique {
        return false;
      }
    }
    assert NoDuplicates(sets[0]) && NoDuplicates(sets[1]) && NoDuplicates(sets[2]);
    assert NoDuplicates(sets[3]) && NoDuplicates(sets[4]);
    return true;
  }

  predicate IsValid(p: Profile) {
    && TrimSpace(p.name) != ""
    && p.plural != []
    && ListsAreUnique(p)
    && Ordered(AtEnd, p.columnSuffixes) && Ordered(AtStart, p.columnPrefixes) && Ordered(AtStart, p.tablePrefixes)
    && PluralRulesAreValid(p.plural)
  }

  /** Profile.Validate. */
  method Validate(p: Profile) returns (ok: bool)
    ensures ok <==> IsValid(p)
  {
    if TrimSpace(p.name) == "" || |p.plural| == 0 {
      return false;
    }
    ok := CheckLists(p);
    if !ok { return; }
    ok := CheckOrder(AtEnd, p.columnSuffixes);
    if !ok { return; }
    ok := CheckOrder(AtStart, p.columnPrefixes);
    if !ok { return; }
    ok := CheckOrder(AtStart, p.tablePrefixes);
    if !ok { return; }
    ok := CheckPlural(p.plural);
  }

  /** Nothing more than a name and a plural rule is asked for, and neither can be left out. */
  lemma NameAndRuleAreRequired(p: Profile)
    requires IsValid(p)
    ensures !IsValid(p.(plural := [])) && !IsValid(p.(name := " ")) && !IsValid(p.(name := ""))
    ensures IsValid(Profile("x", [], [], [], [], [], [PluralRule("s", "")]))
  {
    var minimal := Profile("x", [], [], [], [], [], [PluralRule("s", "")]);
    assert TrimSpace("x") == "x" by { TrimKeeps("x", IsBlank); }
    assert forall r | r in minimal.plural :: r.suffix == "s";
  }

  // --- first match is longest match ------------------------------------------------------

  /** Nothing that passes is longer than the first that passes. */
  ghost predicate LongestFirst(p: string -> bool, xs: seq<string>) {
    forall x | x in xs && p(x) :: FirstSuch(p, xs).Some? && |x| <= |FirstSuch(p, xs).value|
  }

  /** No affix that applies is longer than the one that is stripped. */
  ghost predicate FirstIsLongest(end: End, name: string, affixes: seq<string>) {
    LongestFirst(AppliesTo(end, name), affixes)
  }

  /** Two affixes of one name: the shorter is an affix of the longer. */
  lemma AffixesNest(end: End, name: string, short: string, long: string)
    requires HasAffix(end, name, short) && HasAffix(end, name, long) && |short| <= |long|
    ensures HasAffix(end, long, short)
  {
    match end
    case AtEnd =>
      assert long == name[|name| - |long|..];
      assert long[|long| - |short|..] == name[|name| - |short|..];
    case AtStart =>
      assert short == name[..|short|] && long == name[..|long|];
      assert long[..|short|] == short;
  }

  lemma {:induction false} FallingIsLongestFirst(p: string -> bool, xs: seq<string>)
    requires forall i, j | 0 <= i < j < |xs| && p(xs[i]) && p(xs[j]) :: |xs[j]| <= |xs[i]|
    ensures LongestFirst(p, xs)
  {
    if xs != [] {
      assert xs == [xs[0]] + xs[1..];
      if p(xs[0]) {
        forall x | x in xs && p(x) ensures |x| <= |xs[0]| {
          var j :| 0 <= j < |xs| && xs[j] == x;
        }
      } else {
        FallingIsLongestFirst(p, xs[1..]);
      }
    }
  }

  lemma OrderedFirstIsLongest(end: End, name: string, affixes: seq<string>)
    requires Ordered(end, affixes)
    ensures FirstIsLongest(end, name, affixes)
  {
    forall i, j | 0 <= i < j < |affixes| && Applies(end, name, affixes[i]) && Applies(end, name, affixes[j])
      ensures |affixes[j]| <= |affixes[i]|
    {
      assert !Shadows(end, affixes, i, j);
      if |affixes[i]| <= |affixes[j]| { AffixesNest(end, name, affixes[i], affixes[j]); }
    }
    FallingIsLongestFirst(AppliesTo(end, name), affixes);
  }

  /** A name in which `long` applies, and everything shorter that it ends or starts with. */
  function Witness(end: End, long: string): string {
    match end
    case AtEnd => "x" + long
    case AtStart => long + "x"
  }

  lemma WitnessApplies(end: End, long: string, affix: string)
    requires affix != "" && HasAffix(end, long, affix)
    ensures Applies(end, Witness(end, long), affix)
  {
    var name := Witness(end, long);
    match end
    case AtEnd =>
      assert name[|name| - |affix|..] == long[|long| - |affix|..];
      var left := name[..|name| - |affix|];
      assert left[0] == 'x';
      assert 'x' in left;
    case AtStart =>
      assert name[..|affix|] == long[..|affix|];
      var left := name[|affix|..];
      assert left[|left| - 1] == 'x';
      assert 'x' in left;
  }

  /** Nothing longer than `long` applies in the witness, and nothing else as long. */
  lemma WitnessBound(end: End, long: string, affix: string)
    requires long != "" && Applies(end, Witness(end, long), affix)
    ensures |affix| <= |long| && (|affix| == |long| ==> affix == long)
  {
    var name := Witness(end, long);
    if |affix| <= |long| {
      match end
      case AtEnd => assert name[|name| - |long|..] == long;
      case AtStart => assert name[..|long|] == long;
    }
  }

  /** The first match is no later than any match. */
  lemma {:induction false} FirstAtMost(p: string -> bool, xs: seq<string>, i: nat) returns (k: nat)
    requires i < |xs| && p(xs[i])
    ensures k <= i && FirstSuch(p, xs) == Some(xs[k])
  {
    if p(xs[0]) {
      k := 0;
    } else {
      k := FirstAtMost(p, xs[1..], i - 1);
      k := k + 1;
    }
  }

  /** A shorter one that passes earlier keeps the one longest from being first. */
  lemma EarlierWins(p: string -> bool, xs: seq<string>, i: nat, j: nat)
    requires NoDuplicates(xs) && i < j < |xs| && p(xs[i]) && p(xs[j])
    requires forall x | x in xs && p(x) :: |x| < |xs[j]| || x == xs[j]
    ensures !LongestFirst(p, xs)
  {
    var k := FirstAtMost(p, xs, i);
    assert xs[k] != xs[j];
    assert xs[j] in xs && xs[k] in xs;
  }

  lemma ShadowedIsNotLongest(end: End, affixes: seq<string>, i: nat, j: nat)
    requires NoDuplicates(affixes) && i < j < |affixes| && Shadows(end, affixes, i, j)
    ensures !FirstIsLongest(end, Witness(end, affixes[j]), affixes)
  {
    var short, long := affixes[i], affixes[j];
    assert short in affixes && long in affixes;
    var name := Witness(end, long);
    assert HasAffix(end, long, long);
    WitnessApplies(end, long, long);
    WitnessApplies(end, long, short);
    forall x | x in affixes && Applies(end, name, x) ensures |x| < |long| || x == long {
      WitnessBound(end, long, x);
    }
    EarlierWins(AppliesTo(end, name), affixes, i, j);
  }

  /**
    What the check of the order is worth, for a list without duplicates: it accepts
    exactly the lists for which the first match is the longest in every name.
   */
  lemma OrderIsLongestMatch(end: End, affixes: seq<string>)
    requires NoDuplicates(affixes)
    ensures Ordered(end, affixes) <==> forall name :: FirstIsLongest(end, name, affixes)
  {
    if Ordered(end, affixes) {
      forall name ensures FirstIsLongest(end, name, affixes) {
        OrderedFirstIsLongest(end, name, affixes);
      }
    } else {
      var i, j :| 0 <= i < j < |affixes| && Shadows(end, affixes, i, j);
      ShadowedIsNotLongest(end, affixes, i, j);
    }
  }

  // --- the entity of a column -----------------------------------------------------------------

  function EntityName(p: Profile, column: string): string {
    var name := Lower(TrimSpace(column));
    if name == "" then ""
    else TrimUnderscores(Strip(AtStart, Strip(AtEnd, name, p.columnSuffixes), p.columnPrefixes))
  }

  /** One of the two loops of EntityName: the first affix that applies is taken off. */
  method StripFirst(end: End, start: string, affixes: seq<string>) returns (name: string)
    ensures name == Strip(end, start, affixes)
  {
    name := start;
    for i := 0 to |affixes|
      invariant First(end, start, affixes) == First(end, start, affixes[i..])
      invariant name == start
    {
      if Applies(end, name, affixes[i]) {
        name := Without(end, name, affixes[i]);
        return;
      }
      assert affixes[i..][1..] == affixes[i + 1..];
    }
  }

  method DeriveEntityName(p: Profile, column: string) returns (entity: string)
    ensures entity == EntityName(p, column)
  {
    var name := Lower(TrimSpace(column));
    if name == "" {
      return "";
    }
    name := StripFirst(AtEnd, name, p.columnSuffixes);
    name := StripFirst(AtStart, name, p.columnPrefixes);
    return TrimUnderscores(name);
  }

  lemma StripLeavesSomething(end: End, name: string, affixes: seq<string>)
    requires TrimUnderscores(name) != ""
    ensures TrimUnderscores(Strip(end, name, affixes)) != ""
  {
  }

  lemma LowerKeepsUnderscores(s: string)
    ensures (forall c | c in Lower(s) :: c == '_') <==> (forall c | c in s :: c == '_')
  {
    var l := Lower(s);
    assert forall i | 0 <= i < |s| :: l[i] == '_' <==> s[i] == '_';
    if forall c | c in l :: c == '_' {
      forall c | c in s ensures c == '_' {
        var i :| 0 <= i < |s| && s[i] == c;
        assert l[i] in l;
      }
    }
    if forall c | c in s :: c == '_' {
      forall c | c in l ensures c == '_' {
        var i :| 0 <= i < |l| && l[i] == c;
        assert s[i] in s;
      }
    }
  }

  /** A column has an entity exactly when it is more than blanks and underscores, whatever the profile. */
  lemma EntityIsEmptyExactly(p: Profile, column: string)
    ensures EntityName(p, column) == "" <==> forall c | c in TrimSpace(column) :: c == '_'
  {
    var name := Lower(TrimSpace(column));
    LowerKeepsUnderscores(TrimSpace(column));
    if TrimUnderscores(name) != "" {
      StripLeavesSomething(AtEnd, name, p.columnSuffixes);
      StripLeavesSomething(AtStart, Strip(AtEnd, name, p.columnSuffixes), p.columnPrefixes);
    } else {
      NothingToStrip(AtEnd, name, p.columnSuffixes);
      NothingToStrip(AtStart, name, p.columnPrefixes);
    }
  }

  lemma NothingToStrip(end: End, name: string, affixes: seq<string>)
    requires TrimUnderscores(name) == ""
    ensures Strip(end, name, affixes) == name
  {
    forall a | a in affixes ensures !Applies(end, name, a) {
      if HasAffix(end, name, a) {
        assert forall c | c in Without(end, name, a) :: c in name;
      }
    }
  }

  /** The name is the affix with rest beside it, and rest is more than underscores. */
  predicate Leaves(end: End, name: string, affix: string, rest: string) {
    && affix != ""
    && name == (match end case AtEnd => rest + affix case AtStart => affix + rest)
    && exists c :: c in rest && c != '_'
  }

  /** The affix can be taken off. */
  ghost predicate ComesOff(end: End, name: string, affix: string) { exists rest :: Leaves(end, name, affix, rest) }

  /** rest is left of the name once the longest affix that comes off is off, or the name if there is none. */
  ghost predicate IsLeft(end: End, name: string, affixes: seq<string>, rest: string) {
    if exists a :: a in affixes && ComesOff(end, name, a) then
      exists a :: a in affixes && Leaves(end, name, a, rest) &&
        forall b | b in affixes && ComesOff(end, name, b) :: |b| <= |a|
    else rest == name
  }

  lemma LeavesExactly(end: End, name: string, affix: string, rest: string)
    ensures Applies(end, name, affix) && rest == Without(end, name, affix) <==> Leaves(end, name, affix, rest)
  {
    match end
    case AtEnd =>
      if HasSuffix(name, affix) { assert name == name[..|name| - |affix|] + affix; }
      if name == rest + affix { assert name[|rest|..] == affix && name[..|rest|] == rest; }
    case AtStart =>
      if HasPrefix(name, affix) { assert name == affix + name[|affix|..]; }
      if name == affix + rest { assert name[..|affix|] == affix && name[|affix|..] == rest; }
  }

  lemma AppliesExactly(end: End, name: string, affix: string)
    ensures Applies(end, name, affix) <==> ComesOff(end, name, affix)
  {
    if Applies(end, name, affix) {
      LeavesExactly(end, name, affix, Without(end, name, affix));
    }
    if ComesOff(end, name, affix) {
      var rest :| Leaves(end, name, affix, rest);
      LeavesExactly(end, name, affix, rest);
    }
  }

  /** Of an ordered list without duplicates, what is stripped is the longest affix that comes off. */
  lemma StripLeaves(end: End, name: string, affixes: seq<string>)
    requires Ordered(end, affixes) && NoDuplicates(affixes)
    ensures IsLeft(end, name, affixes, Strip(end, name, affixes))
    ensures First(end, name, affixes).Some? <==> exists a :: a in affixes && ComesOff(end, name, a)
  {
    OrderedFirstIsLongest(end, name, affixes);
    forall a ensures Applies(end, name, a) <==> ComesOff(end, name, a) {
      AppliesExactly(end, name, a);
    }
    var first := First(end, name, affixes);
    if first.Some? {
      LeavesExactly(end, name, first.value, Without(end, name, first.value));
      LongestComesOff(end, name, affixes, first.value);
    }
  }

  lemma LongestComesOff(end: End, name: string, affixes: seq<string>, long: string)
    requires FirstIsLongest(end, name, affixes) && First(end, name, affixes) == Some(long)
    ensures forall b | b in affixes && ComesOff(end, name, b) :: |b| <= |long|
  {
    forall b | b in affixes && ComesOff(end, name, b) ensures |b| <= |long| {
      AppliesExactly(end, name, b);
      assert AppliesTo(end, name)(b);
    }
  }

  /**
    The entity of a column, by a valid profile: the name in small letters and without blanks
    around it, first without the longest suffix, then without the longest prefix, and without
    underscores around what is left.
   */
  lemma EntityExactly(p: Profile, column: string)
    requires IsValid(p)
    ensures exists middle, rest ::
      && IsLeft(AtEnd, Lower(TrimSpace(column)), p.columnSuffixes, middle)
      && IsLeft(AtStart, middle, p.columnPrefixes, rest)
      && EntityName(p, column) == TrimUnderscores(rest)
  {
    var name := Lower(TrimSpace(column));
    var middle := Strip(AtEnd, name, p.columnSuffixes);
    var rest := Strip(AtStart, middle, p.columnPrefixes);
    StripLeaves(AtEnd, name, p.columnSuffixes);
    StripLeaves(AtStart, middle, p.columnPrefixes);
    if name == "" {
      NothingToStrip(AtEnd, name, p.columnSuffixes);
      NothingToStrip(AtStart, middle, p.columnPrefixes);
    }
    assert EntityName(p, column) == TrimUnderscores(rest);
  }
}
