/**
  The scanner in the form of internal/sqlprobe/token.go: an index moving over
  the text, loops, and a growing output. Each method is proved to compute the
  function of the same name in Lexer.dfy on the text from the index on.
 */
module LexerLoops {
  import opened Text
  import opened ScanLoop
  import opened Lexer

  predicate IsEscapePrefixed(s: string, i: nat)
    requires i <= |s|
  {
    i > 0 && IsE(s[i - 1]) && (i < 2 || !IsIdentPart(s[i - 2]))
  }

  /** The look behind is what scanning the text behind leaves as context. */
  lemma EscapeIsContext(s: string, i: nat)
    requires i <= |s|
    ensures Advance(FRESH, s[..i]).escape <==> IsEscapePrefixed(s, i)
  {
  }

  lemma Tail<T>(s: seq<T>, i: nat, n: nat)
    requires i + n <= |s|
    ensures s[i..][n..] == s[i + n..]
    ensures n < |s[i..]| ==> s[i..][n] == s[i + n]
  {
  }

  method SkipLineComment(s: string, start: nat) returns (i: nat)
    requires start <= |s|
    ensures i == start + LineComment(s[start..]).len
  {
    i := start;
    while i < |s| && s[i] != '\n'
      invariant start <= i <= |s|
      invariant RunLen(s[start..], NotNewline) == (i - start) + RunLen(s[i..], NotNewline)
    {
      Tail(s, i, 1);
      i := i + 1;
    }
  }

  method SkipBlockComment(s: string, start: nat) returns (i: nat)
    requires start <= |s|
    ensures i == start + BlockComment(s[start..], 1).len
  {
    i := start;
    var depth: nat := 1;
    while i < |s| && depth > 0
      invariant start <= i <= |s|
      invariant BlockComment(s[start..], 1).len == (i - start) + BlockComment(s[i..], depth).len
    {
      Tail(s, i, 1);
      if s[i] == '/' && HasAt(s, i + 1, '*') {
        Tail(s, i, 2);
        depth, i := depth + 1, i + 2;
      } else if s[i] == '*' && HasAt(s, i + 1, '/') {
        Tail(s, i, 2);
        depth, i := depth - 1, i + 2;
      } else {
        i := i + 1;
      }
    }
  }

  /** The rest of the reading, from an index that may be one past the end. */
  ghost function StringFrom(s: string, i: nat, escapes: bool): Read {
    if i <= |s| then ReadString(s[i..], escapes) else Read("", 0, Open)
  }

  lemma StringStep(s: string, i: nat, escapes: bool)
    requires i < |s|
    ensures var here := StringFrom(s, i, escapes);
      if escapes && s[i] == '\\' then
        if i + 1 < |s| then here == Consume([s[i + 1]], 2, StringFrom(s, i + 2, escapes))
        else here == Consume("", 2, StringFrom(s, i + 2, escapes))
      else if s[i] == '\'' then
        if HasAt(s, i + 1, '\'') then here == Consume("'", 2, StringFrom(s, i + 2, escapes))
        else here == Read("", 1, Closed)
      else here == Consume([s[i]], 1, StringFrom(s, i + 1, escapes))
  {
    Tail(s, i, 1);
    if i + 2 <= |s| { Tail(s, i, 2); }
  }

  lemma ConsumeTwice(b: string, n: nat, c: string, m: nat, r: Read)
    ensures Consume(b, n, Consume(c, m, r)) == Consume(b + c, n + m, r)
  {
    Regroup(b, c, r.text);
  }

  method ReadStringAt(s: string, start: nat, escapes: bool) returns (text: string, next: nat)
    requires start <= |s|
    ensures text == ReadString(s[start..], escapes).text
    ensures next == start + ReadString(s[start..], escapes).len
  {
    var b := "";
    var i := start;
    while i < |s|
      invariant start <= i <= |s| + 1
      invariant ReadString(s[start..], escapes) == Consume(b, i - start, StringFrom(s, i, escapes))
      decreases |s| + 2 - i
    {
      StringStep(s, i, escapes);
      if escapes && s[i] == '\\' {
        ConsumeTwice(b, i - start, if i + 1 < |s| then [s[i + 1]] else "", 2, StringFrom(s, i + 2, escapes));
        if i + 1 < |s| {
          b := b + [s[i + 1]];
        } else {
          assert b + "" == b;
        }
        i := i + 2;
      } else if s[i] == '\'' {
        if HasAt(s, i + 1, '\'') {
          ConsumeTwice(b, i - start, "'", 2, StringFrom(s, i + 2, escapes));
          b := b + "'";
          i := i + 2;
          continue;
        }
        return b, i + 1;
      } else {
        ConsumeTwice(b, i - start, [s[i]], 1, StringFrom(s, i + 1, escapes));
        b := b + [s[i]];
        i := i + 1;
      }
    }
    return b, i;
  }

  lemma QuotedIdentStep(s: string, i: nat)
    requires i < |s|
    ensures var here := ReadQuotedIdent(s[i..]);
      if s[i] == '"' then
        if HasAt(s, i + 1, '"') then here == Consume("\"", 2, ReadQuotedIdent(s[i + 2..]))
        else here == Read("", 1, Closed)
      else here == Consume([s[i]], 1, ReadQuotedIdent(s[i + 1..]))
  {
    Tail(s, i, 1);
    if i + 2 <= |s| { Tail(s, i, 2); }
  }

  method ReadQuotedIdentAt(s: string, start: nat) returns (text: string, next: nat)
    requires start <= |s|
    ensures text == ReadQuotedIdent(s[start..]).text
    ensures next == start + ReadQuotedIdent(s[start..]).len
  {
    var b := "";
    var i := start;
    while i < |s|
      invariant start <= i <= |s|
      invariant ReadQuotedIdent(s[start..]) == Consume(b, i - start, ReadQuotedIdent(s[i..]))
    {
      QuotedIdentStep(s, i);
      if s[i] == '"' {
        if HasAt(s, i + 1, '"') {
          ConsumeTwice(b, i - start, "\"", 2, ReadQuotedIdent(s[i + 2..]));
          b := b + "\"";
          i := i + 2;
          continue;
        }
        return b, i + 1;
      }
      ConsumeTwice(b, i - start, [s[i]], 1, ReadQuotedIdent(s[i + 1..]));
      b := b + [s[i]];
      i := i + 1;
    }
    return b, i;
  }

  /** The tag loop of skipDollarQuoted. */
  method SkipTag(s: string, i: nat) returns (end: nat)
    requires i < |s|
    ensures end == i + 1 + TagLen(s[i + 1..])
  {
    end := i + 1;
    while end < |s| && IsIdentPart(s[end]) && (end != i + 1 || s[end] < '0' || s[end] > '9')
      invariant i + 1 <= end <= |s|
      invariant end > i + 1 ==> !IsDigit(s[i + 1])
      invariant RunLen(s[i + 1..], IsIdentPart) == (end - (i + 1)) + RunLen(s[end..], IsIdentPart)
    {
      Tail(s, end, 1);
      end := end + 1;
    }
  }

  lemma Parts(s: string, i: nat, end: nat)
    requires i <= end < |s|
    ensures s[i..][end - i] == s[end]
    ensures s[i..][..end + 1 - i] == s[i..end + 1] && s[i..][end + 1 - i..] == s[end + 1..]
  {
  }

  /** What skipDollarQuoted decides: where the block ends, or that there is none. */
  method SkipDollarQuoted(s: string, i: nat) returns (next: nat, ok: bool)
    requires i < |s|
    ensures ok <==> DollarQuoted(s[i..]).Some?
    ensures ok ==> next == i + DollarQuoted(s[i..]).value.len
  {
    var end := SkipTag(s, i);
    Tail(s, i, 1);
    if end < |s| { Parts(s, i, end); }
    if end >= |s| || s[end] != '$' {
      return 0, false;
    }
    var delim := s[i..end + 1];
    var close := Index(s[end + 1..], delim);
    if close.None? {
      return |s|, true;
    }
    return end + 1 + close.value + |delim|, true;
  }

  /** The loops over a run of bytes of one class. */
  method SkipRun(s: string, start: nat, p: char -> bool) returns (i: nat)
    requires start <= |s|
    ensures i == start + RunLen(s[start..], p)
  {
    i := start;
    while i < |s| && p(s[i])
      invariant start <= i <= |s|
      invariant RunLen(s[start..], p) == (i - start) + RunLen(s[i..], p)
    {
      Tail(s, i, 1);
      i := i + 1;
    }
  }

  /** The turn of the loop standing at index i. */
  function TurnAt(sql: string, i: nat): Step
    requires i <= |sql|
  {
    Turn(sql[i..], Advance(FRESH, sql[..i]))
  }

  lemma OneTurnMore(sql: string, out: seq<Token>, i: nat, t: Step)
    requires i < |sql| && t == TurnAt(sql, i)
    requires Tokens(sql) == out + After(Turn, sql, FRESH, i)
    ensures i < i + t.len <= |sql| + 1
    ensures Tokens(sql) == (out + t.tokens) + After(Turn, sql, FRESH, i + t.len)
  {
    AfterOne(Turn, sql, FRESH, i, t);
    Regroup(out, t.tokens, After(Turn, sql, FRESH, i + t.len));
  }

  /** The turns that emit nothing or a literal: comments and whatever is quoted. */
  method ScanQuoted(sql: string, i: nat) returns (tokens: seq<Token>, next: nat)
    requires i < |sql| && (sql[i] == '\'' || sql[i] == '$' || sql[i] == '"')
    ensures tokens == Turn(sql[i..], Advance(FRESH, sql[..i])).tokens
    ensures next == i + Turn(sql[i..], Advance(FRESH, sql[..i])).len
  {
    var c := sql[i];
    ghost var s := sql[i..];
    assert s[0] == c;
    Tail(sql, i, 1);
    if c == '\'' {
      EscapeIsContext(sql, i);
      var text;
      text, next := ReadStringAt(sql, i + 1, IsEscapePrefixed(sql, i));
      return [Token(Str, text)], next;
    } else if c == '$' {
      var ok;
      next, ok := SkipDollarQuoted(sql, i);
      if ok {
        return [], next;
      }
      return [Token(Other, "$")], i + 1;
    } else {
      var text;
      text, next := ReadQuotedIdentAt(sql, i + 1);
      return [Token(Ident, text)], next;
    }
  }

  /** The turns that emit a run of bytes, or one byte. */
  method ScanPlain(sql: string, i: nat) returns (tokens: seq<Token>, next: nat)
    requires i < |sql| && sql[i] != '\'' && sql[i] != '$' && sql[i] != '"' && !IsSpace(sql[i])
    requires !(sql[i] == '-' && HasAt(sql, i + 1, '-')) && !(sql[i] == '/' && HasAt(sql, i + 1, '*'))
    ensures tokens == Turn(sql[i..], Advance(FRESH, sql[..i])).tokens
    ensures next == i + Turn(sql[i..], Advance(FRESH, sql[..i])).len
  {
    var c := sql[i];
    ghost var s := sql[i..];
    assert s[0] == c;
    Tail(sql, i, 1);
    if IsIdentStart(c) {
      next := SkipRun(sql, i, IsIdentPart);
      assert sql[i..next] == s[..next - i];
      return [Token(Ident, Lower(sql[i..next]))], next;
    } else if '0' <= c <= '9' {
      next := SkipRun(sql, i, IsNumberPart);
      return [Token(Other, "number")], next;
    } else if IsOperatorChar(c) {
      next := SkipRun(sql, i, IsOperatorChar);
      assert sql[i..next] == s[..next - i];
      return [Token(Symbol, sql[i..next])], next;
    } else {
      return [Token(Symbol, [c])], i + 1;
    }
  }

  /** One turn of the scanning loop, standing at index i. */
  method ScanOne(sql: string, i: nat) returns (tokens: seq<Token>, next: nat)
    requires i < |sql|
    ensures tokens == TurnAt(sql, i).tokens
    ensures next == i + TurnAt(sql, i).len
  {
    var c := sql[i];
    assert sql[i..][0] == c;
    Tail(sql, i, 1);
    if i + 1 < |sql| { Tail(sql, i, 2); }
    if c == ' ' || c == '\t' || c == '\n' || c == '\r' {
      return [], i + 1;
    } else if c == '-' && HasAt(sql, i + 1, '-') {
      next := SkipLineComment(sql, i + 2);
      return [], next;
    } else if c == '/' && HasAt(sql, i + 1, '*') {
      next := SkipBlockComment(sql, i + 2);
      return [], next;
    } else if c == '\'' || c == '$' || c == '"' {
      tokens, next := ScanQuoted(sql, i);
    } else {
      tokens, next := ScanPlain(sql, i);
    }
  }

  /** One turn, with what it adds to the output so far. */
  method ScanNext(sql: string, i: nat, ghost out: seq<Token>) returns (tokens: seq<Token>, next: nat)
    requires i < |sql| && Tokens(sql) == out + After(Turn, sql, FRESH, i)
    ensures i < next <= |sql| + 1
    ensures Tokens(sql) == (out + tokens) + After(Turn, sql, FRESH, next)
  {
    ghost var t := TurnAt(sql, i);
    OneTurnMore(sql, out, i, t);
    tokens, next := ScanOne(sql, i);
  }

  method Tokenize(sql: string) returns (out: seq<Token>)
    ensures out == Tokens(sql)
  {
    out := [];
    var i := 0;
    AfterZero(Turn, sql, FRESH);
    while i < |sql|
      invariant i <= |sql| + 1
      invariant Tokens(sql) == out + After(Turn, sql, FRESH, i)
      decreases |sql| + 2 - i
    {
      var tokens, next := ScanNext(sql, i, out);
      out, i := out + tokens, next;
    }
    AfterEnd(Turn, sql, FRESH, i);
  }
}
