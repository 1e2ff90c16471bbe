/**
  The scanner of internal/sqlprobe/token.go as a mathematical function.

  Each scanner is a function of the text that is left. What a scanner needs to
  know about the text behind it is a `Context`: the only look behind is
  isEscapePrefixed, which reads at most two bytes back.

  The index-and-loop form of the source is in LexerLoops.dfy, and is proved to
  compute these functions.
 */
module Lexer {
  import opened Text
  import opened ScanLoop

  /** Length of the longest prefix whose bytes all satisfy p. */
  function RunLen(s: string, p: char -> bool): (n: nat)
    ensures n <= |s|
  {
    if s == "" || !p(s[0]) then 0 else 1 + RunLen(s[1..], p)
  }

  datatype Skip = Skip(len: nat, end: End)

  function LineComment(s: string): (r: Skip)
    ensures r.len <= |s|
  {
    var n := RunLen(s, NotNewline);
    Skip(n, if n < |s| then AtNewline else Open)
  }

  /** What is left of a block comment that is `depth` levels deep. */
  function BlockComment(s: string, depth: nat): (r: Skip)
    ensures r.len <= |s|
    ensures !r.end.Closed? ==> r.end.Open? && r.len == |s|
  {
    if depth == 0 then Skip(0, Closed)
    else if s == "" then Skip(0, Open)
    else if s[0] == '/' && HasAt(s, 1, '*') then Further(2, BlockComment(s[2..], depth + 1))
    else if s[0] == '*' && HasAt(s, 1, '/') then Further(2, BlockComment(s[2..], depth - 1))
    else Further(1, BlockComment(s[1..], depth))
  }

  function Further(n: nat, r: Skip): Skip { r.(len := n + r.len) }

  datatype Read = Read(text: string, len: nat, end: End)

  function Consume(text: string, n: nat, r: Read): Read {
    Read(text + r.text, n + r.len, r.end)
  }

  /** The rest of a string literal. A final lone backslash makes the source step one past the end. */
  function ReadString(s: string, escapes: bool): (r: Read)
    ensures r.end.Closed? ==> 1 <= r.len <= |s|
    ensures !r.end.Closed? ==> r.end.Open? && |s| <= r.len <= |s| + 1
  {
    if s == "" then Read("", 0, Open)
    else if escapes && s[0] == '\\' then
      if |s| == 1 then Read("", 2, Open) else Consume([s[1]], 2, ReadString(s[2..], escapes))
    else if s[0] == '\'' then
      if HasAt(s, 1, '\'') then Consume("'", 2, ReadString(s[2..], escapes)) else Read("", 1, Closed)
    else Consume([s[0]], 1, ReadString(s[1..], escapes))
  }

  /** The rest of a quoted identifier. */
  function ReadQuotedIdent(s: string): (r: Read)
    ensures r.end.Closed? ==> 1 <= r.len <= |s|
    ensures !r.end.Closed? ==> r.end.Open? && r.len == |s|
  {
    if s == "" then Read("", 0, Open)
    else if s[0] == '"' then
      if HasAt(s, 1, '"') then Consume("\"", 2, ReadQuotedIdent(s[2..])) else Read("", 1, Closed)
    else Consume([s[0]], 1, ReadQuotedIdent(s[1..]))
  }

  /** strings.Index: where `pat` first occurs. */
  function Index(s: string, pat: string): (r: Option<nat>)
    ensures r.Some? ==> r.value + |pat| <= |s| && s[r.value..r.value + |pat|] == pat
  {
    if pat <= s then Some(0)
    else if s == "" then None
    else match Index(s[1..], pat)
      case None => None
      case Some(j) => Some(j + 1)
  }

  /** Length of a dollar-quote tag. A digit in first place makes it a parameter, not a tag. */
  function TagLen(s: string): (n: nat)
    ensures n <= |s|
  {
    if s != "" && IsDigit(s[0]) then 0 else RunLen(s, IsIdentPart)
  }

  /** A dollar quote behind its opening delimiter: up to where the delimiter is repeated, or to the end. */
  function DollarBody(delim: string, rest: string): (r: Skip)
    ensures |delim| <= r.len <= |delim| + |rest| && !r.end.AtNewline?
    ensures r.end.Open? ==> r.len == |delim| + |rest|
  {
    match Index(rest, delim)
    case None => Skip(|delim| + |rest|, Open)
    case Some(close) => Skip(|delim| + close + |delim|, Closed)
  }

  /** A dollar quote opening at s[0], which is a dollar; None when it is not one. */
  function DollarQuoted(s: string): (r: Option<Skip>)
    requires s != ""
    ensures r.Some? ==> 1 <= r.value.len <= |s| && !r.value.end.AtNewline?
  {
    var end := 1 + TagLen(s[1..]);
    if end >= |s| || s[end] != '$' then None else Some(DollarBody(s[..end + 1], s[end + 1..]))
  }

  /** One turn of the scanning loop. */
  function Turn(s: string, ctx: Context): (r: Step)
    ensures r.len >= 1
    ensures !r.end.Open? ==> r.len <= |s|
    ensures r.end.Open? ==> |s| <= r.len <= |s| + 1
    ensures |r.tokens| <= 1
  {
    if s == "" then Step([], 1, Open) else
    var c := s[0];
    if IsSpace(c) then Step([], 1, Closed)
    else if c == '-' && HasAt(s, 1, '-') then
      var r := LineComment(s[2..]);
      Step([], 2 + r.len, r.end)
    else if c == '/' && HasAt(s, 1, '*') then
      var r := BlockComment(s[2..], 1);
      Step([], 2 + r.len, r.end)
    else if c == '\'' then
      var r := ReadString(s[1..], ctx.escape);
      Step([Token(Str, r.text)], 1 + r.len, r.end)
    else if c == '$' then
      match DollarQuoted(s)
      case Some(r) => Step([], r.len, r.end)
      case None => Step([Token(Other, "$")], 1, Closed)
    else if c == '"' then
      var r := ReadQuotedIdent(s[1..]);
      Step([Token(Ident, r.text)], 1 + r.len, r.end)
    else if IsIdentStart(c) then
      var n := RunLen(s, IsIdentPart);
      Step([Token(Ident, Lower(s[..n]))], n, Closed)
    else if IsDigit(c) then
      Step([Token(Other, "number")], RunLen(s, IsNumberPart), Closed)
    else if IsOperatorChar(c) then
      var n := RunLen(s, IsOperatorChar);
      Step([Token(Symbol, s[..n])], n, Closed)
    else Step([Token(Symbol, [c])], 1, Closed)
  }

  /** The tokens of a text scanned from a context: the loop of tokenize. */
  function Scan(s: string, ctx: Context): seq<Token> {
    Run(Turn, s, ctx)
  }

  /** The tokens of a text. */
  function Tokens(sql: string): seq<Token> {
    Scan(sql, FRESH)
  }
}
