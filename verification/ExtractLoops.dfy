/**
  The extractor in the form of internal/sqlprobe/extract.go: loops over the token
  list, an index that jumps, an alias map that is filled in place. Each method is
  proved to compute the function it is named after in Extract.dfy.
 */
module ExtractLoops {
  import opened Text
  import opened ScanLoop
  import opened Extract

  /** The alias map of one statement. */
  class AliasTable {
    var refs: Aliases

    constructor ()
      ensures refs == map[]
    {
      refs := map[];
    }

    /** The two entries collectAliases makes for one table of a FROM list. */
    method Put(ref: Ref, name: string)
      modifies this
      ensures refs == Enter(old(refs), ref, name)
    {
      if name != "" {
        refs := refs[Lower(name) := ref];
      }
      if Lower(ref.table) !in refs {
        refs := refs[Lower(ref.table) := ref];
      }
    }
  }

  method ReadDottedName(tb: Tables, tokens: seq<Token>, start: nat) returns (parts: seq<string>, next: nat)
    requires start <= |tokens|
    ensures Parts(parts, next) == DottedName(tb, tokens, start, true)
  {
    parts := [];
    var i := start;
    while i < |tokens| && tokens[i].kind == Ident
      invariant start <= i <= |tokens|
      invariant var rest := DottedName(tb, tokens, i, parts == []);
        DottedName(tb, tokens, start, true) == Parts(parts + rest.names, rest.next)
    {
      if tokens[i].text in tb.clauseStoppers && |parts| == 0 {
        return [], i;
      }
      Regroup(parts, [tokens[i].text],
              DottedName(tb, tokens, if IsSymbol(tokens, i + 1, ".") then i + 2 else i, false).names);
      parts := parts + [tokens[i].text];
      if i + 1 < |tokens| && tokens[i + 1].kind == Symbol && tokens[i + 1].text == "." {
        i := i + 2;
        continue;
      }
      return parts, i + 1;
    }
    return parts, i;
  }

  method ReadRefEndingAt(tokens: seq<Token>, last: int) returns (ref: Option<Ref>)
    requires -1 <= last < |tokens|
    ensures ref == RefEndingAt(tokens, last)
  {
    var parts := [];
    var i := last;
    while i >= 0 && tokens[i].kind == Ident
      invariant -2 <= i <= last
      invariant NamesEndingAt(tokens, last) == NamesEndingAt(tokens, i) + parts
    {
      Regroup(if IsSymbol(tokens, i - 1, ".") then NamesEndingAt(tokens, i - 2) else [], [tokens[i].text], parts);
      parts := [tokens[i].text] + parts;
      if i - 1 >= 0 && tokens[i - 1].kind == Symbol && tokens[i - 1].text == "." {
        i := i - 2;
        continue;
      }
      break;
    }
    return RefFromParts(parts);
  }

  method JumpParens(tokens: seq<Token>, start: nat) returns (i: nat)
    requires start <= |tokens|
    ensures i == SkipParens(tokens, start, 0)
  {
    i := start;
    var depth := 0;
    while i < |tokens|
      invariant start <= i <= |tokens|
      invariant SkipParens(tokens, start, 0) == SkipParens(tokens, i, depth)
    {
      if tokens[i].kind == Symbol {
        if tokens[i].text == "(" {
          depth := depth + 1;
        } else if tokens[i].text == ")" {
          depth := depth - 1;
          if depth == 0 {
            return i + 1;
          }
        }
      }
      i := i + 1;
    }
  }

  /** Returns the index before the one the scan goes on with, as the source does. */
  method CollectAliases(tb: Tables, tokens: seq<Token>, start: nat, aliases: AliasTable) returns (resume: int)
    requires start <= |tokens|
    modifies aliases
    ensures resume >= -1
    ensures Collected(aliases.refs, resume + 1) == Collect(tb, tokens, start, old(aliases.refs))
  {
    var i := start;
    while true
      invariant start <= i <= |tokens|
      invariant Collect(tb, tokens, i, aliases.refs) == Collect(tb, tokens, start, old(aliases.refs))
      decreases |tokens| - i
    {
      if i < |tokens| && tokens[i].kind == Symbol && tokens[i].text == "(" {
        if OpensSubquery(tokens, i) {
          var j := JumpParens(tokens, i);
          i := ReadAlias(tb, tokens, j).next;
        } else {
          i := i + 1;
          continue;
        }
      } else {
        var parts, next := ReadDottedName(tb, tokens, i);
        if |parts| == 0 {
          return i - 1;
        }
        var alias := ReadAlias(tb, tokens, next);
        i := alias.next;
        aliases.Put(TableRef(parts), alias.name);
      }
      if i < |tokens| && tokens[i].kind == Symbol && tokens[i].text == "," {
        i := i + 1;
        continue;
      }
      return i - 1;
    }
  }

  method ReadPredicate(tokens: seq<Token>, i: nat, aliases: Aliases, op: PredOp) returns (found: Findings)
    requires i < |tokens|
    ensures found == PredicateOn(RefEndingAt(tokens, i - 1), aliases, op)
  {
    var left := ReadRefEndingAt(tokens, i - 1);
    if left.Some? {
      return Findings([], [Predicate(Resolve(left.value, aliases), op)]);
    }
    return NOTHING;
  }

  /** The operators that give a predicate on the column before them. */
  method VisitOperator(tb: Tables, tokens: seq<Token>, i: nat, aliases: Aliases) returns (found: Findings)
    requires i < |tokens| && tokens[i].kind == Symbol && tokens[i].text != ";" && tokens[i].text != "="
    ensures Turn(found, aliases, i + 1) == Visit(tb, tokens, i, aliases)
  {
    var text := tokens[i].text;
    if text in tb.comparison {
      found := ReadPredicate(tokens, i, aliases, Range);
    } else if text in tb.containment {
      found := ReadPredicate(tokens, i, aliases, Containment);
    } else if text == "@@" {
      found := ReadPredicate(tokens, i, aliases, FullText);
    } else if text in tb.vectorDistance {
      found := ReadPredicate(tokens, i, aliases, VectorDistance);
    } else {
      found := NOTHING;
    }
  }

  /** An equality is a join if both sides are columns, and a predicate if only the left one is. */
  method VisitEquality(tb: Tables, tokens: seq<Token>, i: nat, aliases: Aliases) returns (found: Findings)
    requires i < |tokens| && tokens[i].kind == Symbol && tokens[i].text == "="
    ensures Turn(found, aliases, i + 1) == Visit(tb, tokens, i, aliases)
  {
    var left := ReadRefEndingAt(tokens, i - 1);
    var parts, _ := ReadDottedName(tb, tokens, i + 1);
    var right := RefFromParts(parts);
    if left.Some? && right.Some? {
      return Findings([Join(Resolve(left.value, aliases), Resolve(right.value, aliases))], []);
    } else if left.Some? {
      return Findings([], [Predicate(Resolve(left.value, aliases), Equality)]);
    }
    return NOTHING;
  }

  /** One turn of the loop of extract; a semicolon starts a new alias map. */
  method VisitAt(tb: Tables, tokens: seq<Token>, i: nat, table: AliasTable)
    returns (found: Findings, resume: int, aliases: AliasTable)
    requires i < |tokens|
    modifies table
    ensures aliases == table || fresh(aliases)
    ensures resume >= -1
    ensures Turn(found, aliases.refs, resume + 1) == Visit(tb, tokens, i, old(table.refs))
  {
    found, resume, aliases := NOTHING, i, table;
    var t := tokens[i];
    if t.kind == Symbol && t.text == ";" {
      aliases := new AliasTable();
    } else if t.kind == Ident && (t.text == "from" || t.text == "join") {
      resume := CollectAliases(tb, tokens, i + 1, aliases);
    } else if t.kind == Symbol && t.text == "=" {
      found := VisitEquality(tb, tokens, i, aliases.refs);
    } else if t.kind == Symbol {
      found := VisitOperator(tb, tokens, i, aliases.refs);
    } else if t.kind == Ident && (t.text == "like" || t.text == "ilike") {
      found := ReadPredicate(tokens, i, aliases.refs, LikeOperator(tokens, i + 1));
    }
  }

  lemma Accumulate(a: Findings, b: Findings, c: Findings)
    ensures a.Then(b.Then(c)) == a.Then(b).Then(c)
  {
  }

  /** The scan of extract over the tokens. */
  method ExtractAll(tb: Tables, tokens: seq<Token>) returns (found: Findings)
    ensures found == ExtractTokens(tb, tokens)
  {
    found := NOTHING;
    var aliases := new AliasTable();
    var i := 0;
    while i < |tokens|
      invariant 0 <= i <= |tokens|
      invariant fresh(aliases)
      invariant ExtractTokens(tb, tokens) == found.Then(ExtractFrom(tb, tokens, i, aliases.refs))
      decreases |tokens| - i
    {
      ghost var before := found;
      var more, resume;
      more, resume, aliases := VisitAt(tb, tokens, i, aliases);
      found := Findings(found.joins + more.joins, found.preds + more.preds);
      i := resume + 1;
      Accumulate(before, more, ExtractFrom(tb, tokens, i, aliases.refs));
    }
  }
}
