/**
  When a statement keeps to itself: exactly when the scan meets no subquery that the
  statement leaves open. Where it meets one, skipParens of internal/sqlprobe/extract.go
  looks for the parenthesis beyond the semicolon, and what it skips is lost.
 */
module ExtractExactly {
  import opened Text
  import opened ScanLoop
  import opened Extract
  import opened ExtractIsolation
  import opened ExtractMeaning
  import opened ExtractConditions
  import opened ExtractQueries

  predicate NeverCloses(ts: seq<Token>) { forall k | 0 <= k < |ts| :: !IsSymbol(ts, k, ")") }

  /** What does not close is skipped to the end. */
  lemma {:induction false} SkipsToTheEnd(ts: seq<Token>, i: nat, depth: int)
    requires i <= |ts| && !Closes(ts, i, depth)
    ensures SkipParens(ts, i, depth) == |ts|
    decreases |ts| - i
  {
    if i < |ts| {
      SkipsToTheEnd(ts, i + 1,
                    if IsSymbol(ts, i, "(") then depth + 1 else if IsSymbol(ts, i, ")") then depth - 1 else depth);
    }
  }

  lemma {:induction false} NothingCloses(t1: seq<Token>, t2: seq<Token>, i: nat, depth: int)
    requires NeverCloses(t2) && |t1| <= i <= |Followed(t1, t2)|
    ensures !Closes(Followed(t1, t2), i, depth)
    decreases |Followed(t1, t2)| - i
  {
    var ts := Followed(t1, t2);
    if i < |ts| {
      assert !IsSymbol(ts, i, ")") by {
        if i > |t1| { assert ts[i] == t2[i - |t1| - 1] && !IsSymbol(t2, i - |t1| - 1, ")"); }
      }
      NothingCloses(t1, t2, i + 1, if IsSymbol(ts, i, "(") then depth + 1 else depth);
    }
  }

  lemma {:induction false} StaysOpen(t1: seq<Token>, t2: seq<Token>, i: nat, depth: int)
    requires i <= |t1| && !Closes(t1, i, depth) && NeverCloses(t2)
    ensures !Closes(Followed(t1, t2), i, depth)
    decreases |t1| - i
  {
    if i == |t1| {
      NothingCloses(t1, t2, i, depth);
    } else {
      SameTests(t1, t2, i, "(");
      SameTests(t1, t2, i, ")");
      StaysOpen(t1, t2, i + 1,
                if IsSymbol(t1, i, "(") then depth + 1 else if IsSymbol(t1, i, ")") then depth - 1 else depth);
    }
  }

  /** Reading a list that meets an open subquery takes everything there is. */
  lemma OpenTakesAll(tb: Tables, ts: seq<Token>, i: nat, aliases: Aliases)
    requires i < |ts| && IsSymbol(ts, i, "(") && OpensSubquery(ts, i) && !Closes(ts, i, 0)
    ensures Collect(tb, ts, i, aliases).next == |ts|
  {
    SkipsToTheEnd(ts, i, 0);
  }

  lemma {:induction false} CollectTakesAll(tb: Tables, t1: seq<Token>, t2: seq<Token>, i: nat, aliases: Aliases)
    requires i <= |t1| && MeetsOpen(tb, t1, i) && NeverCloses(t2)
    ensures Collect(tb, t1, i, aliases).next == |t1|
    ensures Collect(tb, Followed(t1, t2), i, aliases).next == |Followed(t1, t2)|
    decreases |t1| - i, 1
  {
    SameTests(t1, t2, i, "(");
    if IsSymbol(t1, i, "(") {
      OpensSubqueryStops(t1, t2, i);
      if !OpensSubquery(t1, i) {
        CollectTakesAll(tb, t1, t2, i + 1, aliases);
      } else if Closes(t1, i, 0) {
        SkipParensStops(t1, t2, i, 0);
        var j := SkipParens(t1, i, 0);
        ReadAliasStops(tb, t1, t2, j);
        MoreTakesAll(tb, t1, t2, i, ReadAlias(tb, t1, j).next, aliases);
      } else {
        StaysOpen(t1, t2, i, 0);
        OpenTakesAll(tb, t1, i, aliases);
        OpenTakesAll(tb, Followed(t1, t2), i, aliases);
      }
    } else {
      DottedNameStops(tb, t1, t2, i, true);
      var parts := DottedName(tb, t1, i, true);
      ReadAliasStops(tb, t1, t2, parts.next);
      var alias := ReadAlias(tb, t1, parts.next);
      MoreTakesAll(tb, t1, t2, i, alias.next, Enter(aliases, TableRef(parts.names), alias.name));
    }
  }

  lemma MoreTakesAll(tb: Tables, t1: seq<Token>, t2: seq<Token>, i: nat, next: nat, aliases: Aliases)
    requires i < next <= |t1| && MeetsOpenFurther(tb, t1, i, next) && NeverCloses(t2)
    ensures CollectMore(tb, t1, i, next, aliases).next == |t1|
    ensures CollectMore(tb, Followed(t1, t2), i, next, aliases).next == |Followed(t1, t2)|
    decreases |t1| - i, 0
  {
    SameTests(t1, t2, next, ",");
    CollectTakesAll(tb, t1, t2, next + 1, aliases);
  }

  /** The turn that meets an open subquery is the last one, with and without a next statement. */
  lemma LastTurn(tb: Tables, ts: seq<Token>, i: nat, aliases: Aliases)
    requires i < |ts| && StartsList(ts[i]) && Collect(tb, ts, i + 1, aliases).next == |ts|
    ensures ExtractFrom(tb, ts, i, aliases) == NOTHING
  {
    var t := Visit(tb, ts, i, aliases);
    assert t.found == NOTHING && t.next == |ts|;
    ThenThen(NOTHING, NOTHING, NOTHING);
  }

  /** Once the scan meets an open subquery, a statement behind it that closes nothing might as well not be there. */
  lemma {:induction false} NextIsSwallowed(tb: Tables, t1: seq<Token>, t2: seq<Token>, i: nat, aliases: Aliases)
    requires i <= |t1| && Reaches(tb, t1, i, aliases) && NeverCloses(t2)
    ensures ExtractFrom(tb, Followed(t1, t2), i, aliases) == ExtractFrom(tb, t1, i, aliases)
    decreases |t1| - i
  {
    SameTests(t1, t2, i, "");
    if StartsList(t1[i]) && MeetsOpen(tb, t1, i + 1) {
      CollectTakesAll(tb, t1, t2, i + 1, aliases);
      LastTurn(tb, t1, i, aliases);
      LastTurn(tb, Followed(t1, t2), i, aliases);
    } else {
      VisitStops(tb, t1, t2, i, aliases);
      var t := Visit(tb, t1, i, aliases);
      NextIsSwallowed(tb, t1, t2, t.next, t.aliases);
    }
  }

  lemma NothingMore(a: Findings, b: Findings)
    ensures a == a.Then(b) <==> b == NOTHING
  {
    assert |a.Then(b).joins| == |a.joins| + |b.joins| && |a.Then(b).preds| == |a.preds| + |b.preds|;
    if b == NOTHING {
      assert a.Then(b).joins == a.joins && a.Then(b).preds == a.preds;
    }
  }

  /**
    In front of a statement that closes nothing: isolated exactly if the scan stays in the
    first, or there is nothing to lose.
   */
  lemma IsolatedFromExactly(tb: Tables, t1: seq<Token>, t2: seq<Token>)
    requires NeverCloses(t2)
    ensures Isolated(tb, t1, t2) <==> Contained(tb, t1) || ExtractTokens(tb, t2) == NOTHING
  {
    if Contained(tb, t1) {
      StatementsAreIsolated(tb, t1, t2);
    } else {
      assert t1 + [SEMICOLON] + t2 == Followed(t1, t2);
      NextIsSwallowed(tb, t1, t2, 0, map[]);
      NothingMore(ExtractTokens(tb, t1), ExtractTokens(tb, t2));
    }
  }

  // --- a statement that has something to lose ---------------------------------------------

  const A := Table(0, Item("", "a", "", false))
  const B := Table(0, Item("", "b", "", false))
  const EQUATION := Compare(["a", "x"], "=", Of(["b", "x"]))

  /** from a, b where a.x = b.x */
  const PROBE := Query([], [A, B], [], [Condition(0, EQUATION, 0)], [])

  lemma StoppersAreLong()
    ensures forall word | word in SQL.clauseStoppers :: |word| > 1
  {
  }

  lemma ShortNames(name: string)
    requires |name| == 1
    ensures PlainName(SQL, name) && QuietName(name)
  {
    StoppersAreLong();
  }

  lemma ProbeIsGood()
    ensures GoodQuery(SQL, PROBE)
  {
    ShortNames("a");
    ShortNames("b");
    ShortNames("x");
    assert |"a"| == 1 && |"b"| == 1;
    assert GoodSource(SQL, A) && GoodSource(SQL, B);
    assert ClassOf("=") == Some(Equality);
    assert GoodTest(SQL, EQUATION);
  }

  lemma ProbeTokens()
    ensures Render(PROBE) == [Word("from")] + ([Word("a"), Mark(","), Word("b")] + ([Word("where")]
      + [Word("a"), Mark("."), Word("x"), Mark("="), Word("b"), Mark("."), Word("x")]))
  {
    var condition := Condition(0, EQUATION, 0);
    assert RenderCondition(condition) == RenderTest(EQUATION);
    assert RenderConditions([condition]) == RenderCondition(condition);
    assert [A, B][1..] == [B];
    assert RenderSource(A) == [Word("a")] && RenderSource(B) == [Word("b")];
    assert RenderSources([B]) == RenderSource(B);
    assert RenderSources([A, B]) == [Word("a")] + ([Mark(",")] + [Word("b")]);
  }

  lemma ProbeNeverCloses()
    ensures NeverCloses(Render(PROBE))
  {
    ProbeTokens();
  }

  lemma EquationIsAJoin(items: seq<Item>)
    ensures |TestFindings(items, EQUATION).joins| == 1
  {
    assert Means(items, ["a", "x"]).Some? && Means(items, ["b", "x"]).Some?;
  }

  lemma ProbeMeans()
    ensures Meaning(PROBE) == TestFindings(TablesOf([A, B]), EQUATION)
  {
    var items, says := TablesOf([A, B] + []), SaysIn(TablesOf([A, B] + []));
    assert [A, B] + [] == [A, B];
    var c := Condition(0, EQUATION, 0);
    assert [c][1..] == [];
    assert AllFindings([c], says) == says(c).Then(NOTHING);
    ThenOnce(TestFindings(items, EQUATION), NOTHING, NOTHING);
  }

  lemma ProbeHasAJoin()
    ensures |ExtractTokens(SQL, Render(PROBE)).joins| == 1
  {
    ProbeIsGood();
    QueryGivesItsFindings(PROBE);
    ProbeMeans();
    EquationIsAJoin(TablesOf([A, B]));
  }

  /** A statement is isolated from whatever follows exactly when the scan meets no subquery it leaves open. */
  lemma IsolatedExactly(t1: seq<Token>)
    ensures (forall t2 :: Isolated(SQL, t1, t2)) <==> Contained(SQL, t1)
  {
    if Contained(SQL, t1) {
      forall t2 ensures Isolated(SQL, t1, t2) {
        StatementsAreIsolated(SQL, t1, t2);
      }
    } else {
      ProbeNeverCloses();
      ProbeHasAJoin();
      IsolatedFromExactly(SQL, t1, Render(PROBE));
      assert !Isolated(SQL, t1, Render(PROBE));
    }
  }

  /** Where all subqueries close, it is. */
  lemma ClosedIsIsolated(t1: seq<Token>, t2: seq<Token>)
    requires SubqueriesClose(t1)
    ensures Isolated(SQL, t1, t2)
  {
    ClosedIsContained(SQL, t1, 0, map[]);
    StatementsAreIsolated(SQL, t1, t2);
  }

  /** A subquery left open in one statement takes the whole next one with it. */
  lemma OpenSubquerySwallows(tb: Tables, t2: seq<Token>)
    requires NeverCloses(t2)
    ensures var t1 := [Token(Ident, "from"), Token(Symbol, "("), Token(Ident, "select")];
      !Contained(tb, t1) && ExtractTokens(tb, t1 + [SEMICOLON] + t2) == ExtractTokens(tb, t1) == NOTHING
  {
    var t1 := [Token(Ident, "from"), Token(Symbol, "("), Token(Ident, "select")];
    assert t1[0] == Token(Ident, "from") && t1[1] == Token(Symbol, "(") && t1[2] == Token(Ident, "select");
    assert !Closes(t1, 2, 1);
    assert !Closes(t1, 1, 0);
    assert MeetsOpen(tb, t1, 1);
    assert Reaches(tb, t1, 0, map[]);
    NextIsSwallowed(tb, t1, t2, 0, map[]);
    assert t1 + [SEMICOLON] + t2 == Followed(t1, t2);
    OpenTakesAll(tb, t1, 1, map[]);
    LastTurn(tb, t1, 0, map[]);
  }
}
