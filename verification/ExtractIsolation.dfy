/**
  Statements are isolated: what is found in `t1 ; t2` is what is found in t1
  followed by what is found in t2. No alias and no backward walk crosses the
  semicolon, and no forward jump does unless t1 leaves a subquery open.
 */
module ExtractIsolation {
  import opened ScanLoop
  import opened Extract

  const SEMICOLON := Token(Symbol, ";")

  /** The parenthesis that brings the depth to zero is there. */
  predicate Closes(ts: seq<Token>, i: nat, depth: int)
    requires i <= |ts|
    decreases |ts| - i
  {
    if i == |ts| then false
    else if IsSymbol(ts, i, "(") then Closes(ts, i + 1, depth + 1)
    else if IsSymbol(ts, i, ")") then depth == 1 || Closes(ts, i + 1, depth - 1)
    else Closes(ts, i + 1, depth)
  }

  /** Every parenthesis that opens a subquery is closed in the statement. */
  predicate SubqueriesClose(ts: seq<Token>) {
    forall i | 0 <= i < |ts| :: IsSymbol(ts, i, "(") && OpensSubquery(ts, i) ==> Closes(ts, i, 0)
  }

  /** Reading a FROM list from index i meets a subquery that is not closed. */
  predicate MeetsOpen(tb: Tables, ts: seq<Token>, i: nat)
    requires i <= |ts|
    decreases |ts| - i, 1
  {
    if IsSymbol(ts, i, "(") then
      if OpensSubquery(ts, i) then
        !Closes(ts, i, 0) || MeetsOpenFurther(tb, ts, i, ReadAlias(tb, ts, SkipParens(ts, i, 0)).next)
      else MeetsOpen(tb, ts, i + 1)
    else
      var parts := DottedName(tb, ts, i, true);
      parts.names != [] && MeetsOpenFurther(tb, ts, i, ReadAlias(tb, ts, parts.next).next)
  }

  predicate MeetsOpenFurther(tb: Tables, ts: seq<Token>, i: nat, next: nat)
    requires i < next <= |ts|
    decreases |ts| - i, 0
  {
    IsSymbol(ts, next, ",") && MeetsOpen(tb, ts, next + 1)
  }

  predicate StartsList(t: Token) { t.kind == Ident && (t.text == "from" || t.text == "join") }

  /** The scan, from index i on, comes to a FROM or JOIN whose list has a subquery that is not closed. */
  predicate Reaches(tb: Tables, ts: seq<Token>, i: nat, aliases: Aliases)
    requires i <= |ts|
    decreases |ts| - i
  {
    i < |ts| &&
    ((StartsList(ts[i]) && MeetsOpen(tb, ts, i + 1)) ||
     var t := Visit(tb, ts, i, aliases); Reaches(tb, ts, t.next, t.aliases))
  }

  /** Scanning the statement never runs into an open subquery. */
  predicate Contained(tb: Tables, ts: seq<Token>) { !Reaches(tb, ts, 0, map[]) }

  /** A statement with something after it: the semicolon, and the rest. */
  function Followed(t1: seq<Token>, t2: seq<Token>): seq<Token> {
    t1 + ([SEMICOLON] + t2)
  }

  /** Within the first statement, tokens test the same with and without the rest. */
  lemma SameTests(t1: seq<Token>, t2: seq<Token>, i: int, text: string)
    requires i <= |t1| && text != ";"
    ensures |Followed(t1, t2)| == |t1| + 1 + |t2|
    ensures 0 <= i < |t1| ==> Followed(t1, t2)[i] == t1[i]
    ensures i == |t1| ==> Followed(t1, t2)[i] == SEMICOLON
    ensures IsName(Followed(t1, t2), i) == IsName(t1, i)
    ensures IsSymbol(Followed(t1, t2), i, text) == IsSymbol(t1, i, text)
    ensures IsWord(Followed(t1, t2), i, text) == IsWord(t1, i, text)
  {
  }

  lemma {:induction false} DottedNameStops(tb: Tables, t1: seq<Token>, t2: seq<Token>, i: nat, first: bool)
    requires i <= |t1|
    ensures DottedName(tb, Followed(t1, t2), i, first) == DottedName(tb, t1, i, first)
    decreases |t1| - i
  {
    SameTests(t1, t2, i, ".");
    if IsName(t1, i) {
      SameTests(t1, t2, i + 1, ".");
      if IsSymbol(t1, i + 1, ".") {
        DottedNameStops(tb, t1, t2, i + 2, false);
      }
    }
  }

  lemma {:induction false} NamesEndingStops(t1: seq<Token>, t2: seq<Token>, i: int)
    requires i < |t1|
    ensures NamesEndingAt(Followed(t1, t2), i) == NamesEndingAt(t1, i)
    decreases i
  {
    SameTests(t1, t2, i, ".");
    SameTests(t1, t2, i - 1, ".");
    if IsName(t1, i) && IsSymbol(t1, i - 1, ".") {
      NamesEndingStops(t1, t2, i - 2);
    }
  }

  lemma ReadAliasStops(tb: Tables, t1: seq<Token>, t2: seq<Token>, i: nat)
    requires i <= |t1|
    ensures ReadAlias(tb, Followed(t1, t2), i) == ReadAlias(tb, t1, i)
  {
    SameTests(t1, t2, i, "as");
    if IsWord(t1, i, "as") {
      SameTests(t1, t2, i + 1, "as");
    }
  }

  lemma {:induction false} SkipParensStops(t1: seq<Token>, t2: seq<Token>, i: nat, depth: int)
    requires i <= |t1| && Closes(t1, i, depth)
    ensures SkipParens(Followed(t1, t2), i, depth) == SkipParens(t1, i, depth)
    decreases |t1| - i
  {
    SameTests(t1, t2, i, "(");
    SameTests(t1, t2, i, ")");
    if IsSymbol(t1, i, "(") {
      SkipParensStops(t1, t2, i + 1, depth + 1);
    } else if IsSymbol(t1, i, ")") {
      if depth != 1 { SkipParensStops(t1, t2, i + 1, depth - 1); }
    } else {
      SkipParensStops(t1, t2, i + 1, depth);
    }
  }

  lemma OpensSubqueryStops(t1: seq<Token>, t2: seq<Token>, i: nat)
    requires i < |t1|
    ensures OpensSubquery(Followed(t1, t2), i) == OpensSubquery(t1, i)
  {
    SameTests(t1, t2, i + 1, "select");
    SameTests(t1, t2, i + 1, "values");
    SameTests(t1, t2, i + 1, "with");
  }

  lemma {:induction false} CollectStops(tb: Tables, t1: seq<Token>, t2: seq<Token>, i: nat, aliases: Aliases)
    requires i <= |t1| && !MeetsOpen(tb, t1, i)
    ensures Collect(tb, Followed(t1, t2), i, aliases) == Collect(tb, t1, i, aliases)
    decreases |t1| - i, 1
  {
    var ts := Followed(t1, t2);
    SameTests(t1, t2, i, "(");
    if IsSymbol(t1, i, "(") {
      OpensSubqueryStops(t1, t2, i);
      if OpensSubquery(t1, i) {
        SkipParensStops(t1, t2, i, 0);
        var j := SkipParens(t1, i, 0);
        ReadAliasStops(tb, t1, t2, j);
        CollectMoreStops(tb, t1, t2, i, ReadAlias(tb, t1, j).next, aliases);
      } else {
        CollectStops(tb, t1, t2, i + 1, aliases);
      }
    } else {
      DottedNameStops(tb, t1, t2, i, true);
      var parts := DottedName(tb, t1, i, true);
      if parts.names != [] {
        ReadAliasStops(tb, t1, t2, parts.next);
        var alias := ReadAlias(tb, t1, parts.next);
        CollectMoreStops(tb, t1, t2, i, alias.next, Enter(aliases, TableRef(parts.names), alias.name));
      }
    }
  }

  lemma CollectMoreStops(tb: Tables, t1: seq<Token>, t2: seq<Token>, i: nat, next: nat, aliases: Aliases)
    requires i < next <= |t1| && !MeetsOpenFurther(tb, t1, i, next)
    ensures CollectMore(tb, Followed(t1, t2), i, next, aliases) == CollectMore(tb, t1, i, next, aliases)
    decreases |t1| - i, 0
  {
    SameTests(t1, t2, next, ",");
    if IsSymbol(t1, next, ",") {
      CollectStops(tb, t1, t2, next + 1, aliases);
    }
  }

  lemma LikeOperatorStops(t1: seq<Token>, t2: seq<Token>, i: nat)
    requires i <= |t1|
    ensures LikeOperator(Followed(t1, t2), i) == LikeOperator(t1, i)
  {
    SameTests(t1, t2, i, "");
  }

  lemma SameViewSameTurn(tb: Tables, t: Token, a: View, b: View, i: nat, aliases: Aliases)
    requires a.left == b.left && a.right == b.right && a.like == b.like
    requires StartsList(t) ==> a.from == b.from
    ensures VisitToken(tb, t, a, i, aliases) == VisitToken(tb, t, b, i, aliases)
  {
  }

  /** A turn within the first statement is the turn of the statement alone, unless it meets an open subquery. */
  lemma VisitStops(tb: Tables, t1: seq<Token>, t2: seq<Token>, i: nat, aliases: Aliases)
    requires i < |t1| && !(StartsList(t1[i]) && MeetsOpen(tb, t1, i + 1))
    ensures Visit(tb, Followed(t1, t2), i, aliases) == Visit(tb, t1, i, aliases)
  {
    var ts := Followed(t1, t2);
    SameTests(t1, t2, i, "");
    if i > 0 { NamesEndingStops(t1, t2, i - 1); }
    DottedNameStops(tb, t1, t2, i + 1, true);
    LikeOperatorStops(t1, t2, i + 1);
    if StartsList(t1[i]) {
      CollectStops(tb, t1, t2, i + 1, aliases);
    }
    SameViewSameTurn(tb, t1[i], Around(tb, ts, i, aliases), Around(tb, t1, i, aliases), i, aliases);
  }

  lemma ThenThen(a: Findings, b: Findings, c: Findings)
    ensures a.Then(b).Then(c) == a.Then(b.Then(c))
    ensures NOTHING.Then(a) == a
  {
  }

  lemma {:induction false} FirstStatement(tb: Tables, t1: seq<Token>, t2: seq<Token>, i: nat, aliases: Aliases)
    requires i <= |t1| && !Reaches(tb, t1, i, aliases)
    ensures ExtractFrom(tb, Followed(t1, t2), i, aliases)
         == ExtractFrom(tb, t1, i, aliases).Then(ExtractFrom(tb, Followed(t1, t2), |t1| + 1, map[]))
    decreases |t1| - i
  {
    var ts := Followed(t1, t2);
    var rest := ExtractFrom(tb, ts, |t1| + 1, map[]);
    if i == |t1| {
      SameTests(t1, t2, i, "");
      assert Visit(tb, ts, i, aliases) == Turn(NOTHING, map[], i + 1);
      ThenThen(rest, NOTHING, NOTHING);
    } else {
      VisitStops(tb, t1, t2, i, aliases);
      var t := Visit(tb, t1, i, aliases);
      FirstStatement(tb, t1, t2, t.next, t.aliases);
      ThenThen(t.found, ExtractFrom(tb, t1, t.next, t.aliases), rest);
    }
  }

  // --- the second statement, which starts from nothing -------------------------------

  /** Where index i of t2 is in the whole. */
  function Shift(t1: seq<Token>, i: nat): nat { |t1| + 1 + i }

  lemma ShiftedTests(t1: seq<Token>, t2: seq<Token>, i: int, text: string)
    requires -1 <= i && text != ";"
    ensures var k := |t1| + 1 + i;
      && |Followed(t1, t2)| == |t1| + 1 + |t2|
      && (0 <= i < |t2| ==> Followed(t1, t2)[k] == t2[i])
      && IsName(Followed(t1, t2), k) == IsName(t2, i)
      && IsSymbol(Followed(t1, t2), k, text) == IsSymbol(t2, i, text)
      && IsWord(Followed(t1, t2), k, text) == IsWord(t2, i, text)
  {
  }

  lemma {:induction false} DottedNameShifts(tb: Tables, t1: seq<Token>, t2: seq<Token>, i: nat, first: bool)
    requires i <= |t2|
    ensures var a, b := DottedName(tb, Followed(t1, t2), Shift(t1, i), first), DottedName(tb, t2, i, first);
      a.names == b.names && a.next == Shift(t1, b.next)
    decreases |t2| - i
  {
    ShiftedTests(t1, t2, i, ".");
    if IsName(t2, i) {
      ShiftedTests(t1, t2, i + 1, ".");
      if IsSymbol(t2, i + 1, ".") {
        DottedNameShifts(tb, t1, t2, i + 2, false);
      }
    }
  }

  /** A backward walk ends at the semicolon as it would at the start. */
  lemma {:induction false} NamesEndingShifts(t1: seq<Token>, t2: seq<Token>, i: int)
    requires -1 <= i < |t2|
    ensures NamesEndingAt(Followed(t1, t2), |t1| + 1 + i) == NamesEndingAt(t2, i)
    decreases i
  {
    ShiftedTests(t1, t2, i, ".");
    if IsName(t2, i) {
      ShiftedTests(t1, t2, i - 1, ".");
      if IsSymbol(t2, i - 1, ".") {
        NamesEndingShifts(t1, t2, i - 2);
      }
    }
  }

  lemma ReadAliasShifts(tb: Tables, t1: seq<Token>, t2: seq<Token>, i: nat)
    requires i <= |t2|
    ensures var a, b := ReadAlias(tb, Followed(t1, t2), Shift(t1, i)), ReadAlias(tb, t2, i);
      a.name == b.name && a.next == Shift(t1, b.next)
  {
    ShiftedTests(t1, t2, i, "as");
    ShiftedTests(t1, t2, i + 1, "as");
  }

  lemma {:induction false} SkipParensShifts(t1: seq<Token>, t2: seq<Token>, i: nat, depth: int)
    requires i <= |t2|
    ensures SkipParens(Followed(t1, t2), Shift(t1, i), depth) == Shift(t1, SkipParens(t2, i, depth))
    decreases |t2| - i
  {
    ShiftedTests(t1, t2, i, "(");
    ShiftedTests(t1, t2, i, ")");
    if i == |t2| {
    } else if IsSymbol(t2, i, "(") {
      SkipParensShifts(t1, t2, i + 1, depth + 1);
    } else if IsSymbol(t2, i, ")") {
      if depth != 1 { SkipParensShifts(t1, t2, i + 1, depth - 1); }
    } else {
      SkipParensShifts(t1, t2, i + 1, depth);
    }
  }

  lemma OpensShifts(t1: seq<Token>, t2: seq<Token>, i: nat)
    ensures OpensSubquery(Followed(t1, t2), Shift(t1, i)) == OpensSubquery(t2, i)
  {
    ShiftedTests(t1, t2, i + 1, "select");
    ShiftedTests(t1, t2, i + 1, "values");
    ShiftedTests(t1, t2, i + 1, "with");
  }

  /** The same aliases, further on. */
  predicate Shifted(t1: seq<Token>, a: Collected, b: Collected) {
    a.aliases == b.aliases && a.next == Shift(t1, b.next)
  }

  lemma {:induction false} CollectShifts(tb: Tables, t1: seq<Token>, t2: seq<Token>, i: nat, aliases: Aliases)
    requires i <= |t2|
    ensures Shifted(t1, Collect(tb, Followed(t1, t2), Shift(t1, i), aliases), Collect(tb, t2, i, aliases))
    decreases |t2| - i, 1
  {
    ShiftedTests(t1, t2, i, "(");
    if IsSymbol(t2, i, "(") {
      OpensShifts(t1, t2, i);
      if OpensSubquery(t2, i) {
        SkipParensShifts(t1, t2, i, 0);
        var j := SkipParens(t2, i, 0);
        ReadAliasShifts(tb, t1, t2, j);
        CollectMoreShifts(tb, t1, t2, i, ReadAlias(tb, t2, j).next, aliases);
      } else {
        CollectShifts(tb, t1, t2, i + 1, aliases);
      }
    } else {
      DottedNameShifts(tb, t1, t2, i, true);
      var parts := DottedName(tb, t2, i, true);
      if parts.names != [] {
        ReadAliasShifts(tb, t1, t2, parts.next);
        var alias := ReadAlias(tb, t2, parts.next);
        CollectMoreShifts(tb, t1, t2, i, alias.next, Enter(aliases, TableRef(parts.names), alias.name));
      }
    }
  }

  lemma CollectMoreShifts(tb: Tables, t1: seq<Token>, t2: seq<Token>, i: nat, next: nat, aliases: Aliases)
    requires i < next <= |t2|
    ensures Shifted(t1, CollectMore(tb, Followed(t1, t2), Shift(t1, i), Shift(t1, next), aliases),
                    CollectMore(tb, t2, i, next, aliases))
    decreases |t2| - i, 0
  {
    ShiftedTests(t1, t2, next, ",");
    if IsSymbol(t2, next, ",") {
      CollectShifts(tb, t1, t2, next + 1, aliases);
    }
  }

  lemma LikeOperatorShifts(t1: seq<Token>, t2: seq<Token>, i: nat)
    ensures LikeOperator(Followed(t1, t2), Shift(t1, i)) == LikeOperator(t2, i)
  {
    ShiftedTests(t1, t2, i, "");
  }

  lemma VisitTokenShifts(tb: Tables, t1: seq<Token>, t: Token, a: View, b: View, i: nat, aliases: Aliases)
    requires a.left == b.left && a.right == b.right && a.like == b.like && Shifted(t1, a.from, b.from)
    ensures var x, y := VisitToken(tb, t, a, Shift(t1, i), aliases), VisitToken(tb, t, b, i, aliases);
      x.found == y.found && x.aliases == y.aliases && x.next == Shift(t1, y.next)
  {
  }

  lemma LeftShifts(t1: seq<Token>, t2: seq<Token>, i: nat)
    requires i < |t2|
    ensures RefEndingAt(Followed(t1, t2), Shift(t1, i) - 1) == RefEndingAt(t2, i - 1)
  {
    NamesEndingShifts(t1, t2, i - 1);
  }

  lemma RightShifts(tb: Tables, t1: seq<Token>, t2: seq<Token>, i: nat)
    requires i < |t2|
    ensures |Followed(t1, t2)| == |t1| + 1 + |t2|
    ensures RefStartingAt(tb, Followed(t1, t2), Shift(t1, i) + 1) == RefStartingAt(tb, t2, i + 1)
  {
    DottedNameShifts(tb, t1, t2, i + 1, true);
  }

  lemma AroundShifts(tb: Tables, t1: seq<Token>, t2: seq<Token>, i: nat, aliases: Aliases)
    requires i < |t2|
    ensures |Followed(t1, t2)| == |t1| + 1 + |t2|
    ensures var a, b := Around(tb, Followed(t1, t2), Shift(t1, i), aliases), Around(tb, t2, i, aliases);
      a.left == b.left && a.right == b.right && a.like == b.like && Shifted(t1, a.from, b.from)
  {
    LeftShifts(t1, t2, i);
    RightShifts(tb, t1, t2, i);
    LikeOperatorShifts(t1, t2, i + 1);
    CollectShifts(tb, t1, t2, i + 1, aliases);
  }

  lemma VisitShifts(tb: Tables, t1: seq<Token>, t2: seq<Token>, i: nat, aliases: Aliases)
    requires i < |t2|
    ensures |Followed(t1, t2)| == |t1| + 1 + |t2|
    ensures var a, b := Visit(tb, Followed(t1, t2), Shift(t1, i), aliases), Visit(tb, t2, i, aliases);
      a.found == b.found && a.aliases == b.aliases && a.next == Shift(t1, b.next)
  {
    ShiftedTests(t1, t2, i, "");
    AroundShifts(tb, t1, t2, i, aliases);
    VisitTokenShifts(tb, t1, t2[i], Around(tb, Followed(t1, t2), Shift(t1, i), aliases), Around(tb, t2, i, aliases), i,
                     aliases);
  }

  lemma {:induction false} SecondStatement(tb: Tables, t1: seq<Token>, t2: seq<Token>, i: nat, aliases: Aliases)
    requires i <= |t2|
    ensures ExtractFrom(tb, Followed(t1, t2), Shift(t1, i), aliases) == ExtractFrom(tb, t2, i, aliases)
    decreases |t2| - i
  {
    if i < |t2| {
      VisitShifts(tb, t1, t2, i, aliases);
      var t := Visit(tb, t2, i, aliases);
      SecondStatement(tb, t1, t2, t.next, t.aliases);
    }
  }

  /** What is found in two statements is what is found in each. */
  ghost predicate Isolated(tb: Tables, t1: seq<Token>, t2: seq<Token>) {
    ExtractTokens(tb, t1 + [SEMICOLON] + t2) == ExtractTokens(tb, t1).Then(ExtractTokens(tb, t2))
  }

  /** Statement isolation. */
  lemma StatementsAreIsolated(tb: Tables, t1: seq<Token>, t2: seq<Token>)
    requires Contained(tb, t1)
    ensures Isolated(tb, t1, t2)
  {
    assert t1 + [SEMICOLON] + t2 == Followed(t1, t2);
    FirstStatement(tb, t1, t2, 0, map[]);
    SecondStatement(tb, t1, t2, 0, map[]);
  }

  lemma {:induction false} ClosedListsMeetNothing(tb: Tables, ts: seq<Token>, i: nat)
    requires i <= |ts| && SubqueriesClose(ts)
    ensures !MeetsOpen(tb, ts, i)
    decreases |ts| - i
  {
    if IsSymbol(ts, i, "(") {
      if OpensSubquery(ts, i) {
        var next := ReadAlias(tb, ts, SkipParens(ts, i, 0)).next;
        if IsSymbol(ts, next, ",") { ClosedListsMeetNothing(tb, ts, next + 1); }
      } else {
        ClosedListsMeetNothing(tb, ts, i + 1);
      }
    } else {
      var parts := DottedName(tb, ts, i, true);
      if parts.names != [] {
        var next := ReadAlias(tb, ts, parts.next).next;
        if IsSymbol(ts, next, ",") { ClosedListsMeetNothing(tb, ts, next + 1); }
      }
    }
  }

  /** A statement whose subqueries all close is one the scan stays in. */
  lemma {:induction false} ClosedIsContained(tb: Tables, ts: seq<Token>, i: nat, aliases: Aliases)
    requires i <= |ts| && SubqueriesClose(ts)
    ensures !Reaches(tb, ts, i, aliases)
    decreases |ts| - i
  {
    if i < |ts| {
      ClosedListsMeetNothing(tb, ts, i + 1);
      var t := Visit(tb, ts, i, aliases);
      ClosedIsContained(tb, ts, t.next, t.aliases);
    }
  }
}
