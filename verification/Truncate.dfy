/**
  truncateIdent of internal/report/sql.go: a generated name cut to the server's 63
  bytes without cutting a character in two. Validity is UTF-8 as section 4 of
  RFC 3629 defines it.
 */
module Truncate {

  type Byte = b: int | 0 <= b < 256

  type Bytes = seq<Byte>

  const MAX_IDENTIFIER_BYTES := 63
  const SUFFIX_BYTES := 9
  const BUDGET := MAX_IDENTIFIER_BYTES - SUFFIX_BYTES

  // --- UTF-8 ------------------------------------------------------------------------

  predicate In(b: Byte, low: int, high: int) { low <= b <= high }

  predicate Tail(b: Byte) { In(b, 0x80, 0xBF) }

  /** The second byte a first byte allows: no overlong forms, no surrogates, nothing above U+10FFFF. */
  predicate Second(first: Byte, b: Byte) {
    if first == 0xE0 then In(b, 0xA0, 0xBF)
    else if first == 0xED then In(b, 0x80, 0x9F)
    else if first == 0xF0 then In(b, 0x90, 0xBF)
    else if first == 0xF4 then In(b, 0x80, 0x8F)
    else Tail(b)
  }

  /** How many bytes a character with this first byte has; 0 when none starts with it. */
  function Width(first: Byte): (n: nat)
    ensures n <= 4
  {
    if first <= 0x7F then 1
    else if In(first, 0xC2, 0xDF) then 2
    else if In(first, 0xE0, 0xEF) then 3
    else if In(first, 0xF0, 0xF4) then 4
    else 0
  }

  /** The length of the character s opens with; 0 when it opens with none. */
  function RuneLen(s: Bytes): (n: nat)
    ensures n <= |s| && n <= 4
  {
    if s == [] then 0
    else
      var n := Width(s[0]);
      if n > |s| || (n >= 2 && !Second(s[0], s[1])) || (n >= 3 && !Tail(s[2])) || (n >= 4 && !Tail(s[3])) then 0 else n
  }

  predicate ValidUtf8(s: Bytes) {
    s == [] || (RuneLen(s) > 0 && ValidUtf8(s[RuneLen(s)..]))
  }

  // --- what that accepts: encoded characters ------------------------------------------

  /** A Unicode character: no surrogate. */
  predicate IsScalar(c: int) { 0 <= c <= 0xD7FF || 0xE000 <= c <= 0x10FFFF }

  /** The bits of a character, spread over one to four bytes. */
  function Encode(c: int): Bytes
    requires IsScalar(c)
  {
    if c < 0x80 then [c]
    else if c < 0x800 then [0xC0 + c / 64, 0x80 + c % 64]
    else if c < 0x1_0000 then [0xE0 + c / 4096, 0x80 + c / 64 % 64, 0x80 + c % 64]
    else [0xF0 + c / 262144, 0x80 + c / 4096 % 64, 0x80 + c / 64 % 64, 0x80 + c % 64]
  }

  function EncodeAll(cs: seq<int>): Bytes
    requires forall c | c in cs :: IsScalar(c)
  {
    if cs == [] then [] else Encode(cs[0]) + EncodeAll(cs[1..])
  }

  lemma EncodedOpens(c: int, rest: Bytes)
    requires IsScalar(c)
    ensures RuneLen(Encode(c) + rest) == |Encode(c)|
  {
    var s := Encode(c) + rest;
    assert s[0] == Encode(c)[0];
    if c >= 0x80 { assert s[1] == Encode(c)[1]; }
    if c >= 0x800 { assert s[2] == Encode(c)[2]; }
    if c >= 0x1_0000 { assert s[3] == Encode(c)[3]; }
  }

  lemma Decoded(s: Bytes) returns (c: int)
    requires RuneLen(s) > 0
    ensures IsScalar(c) && Encode(c) == s[..RuneLen(s)]
  {
    var n := RuneLen(s);
    if n == 1 {
      c := s[0];
    } else if n == 2 {
      var a: int := s[0];
      c := (a - 0xC0) * 64 + (s[1] - 0x80);
    } else if n == 3 {
      c := DecodedThree(s);
    } else {
      c := DecodedFour(s);
    }
  }

  lemma DecodedThree(s: Bytes) returns (c: int)
    requires RuneLen(s) == 3
    ensures IsScalar(c) && Encode(c) == s[..3]
  {
    var a: int, b: int := s[0] - 0xE0, s[1] - 0x80;
    c := (a * 64 + b) * 64 + (s[2] - 0x80);
    assert c / 64 == a * 64 + b;
    assert c / 4096 == a;
  }

  lemma DecodedFour(s: Bytes) returns (c: int)
    requires RuneLen(s) == 4
    ensures IsScalar(c) && Encode(c) == s[..4]
  {
    var a: int, b: int, d: int := s[0] - 0xF0, s[1] - 0x80, s[2] - 0x80;
    c := ((a * 64 + b) * 64 + d) * 64 + (s[3] - 0x80);
    assert c / 64 == (a * 64 + b) * 64 + d;
    assert c / 4096 == a * 64 + b;
    assert c / 262144 == a;
  }

  lemma {:induction false} EncodedIsValid(cs: seq<int>)
    requires forall c | c in cs :: IsScalar(c)
    ensures ValidUtf8(EncodeAll(cs))
  {
    if cs != [] {
      EncodedOpens(cs[0], EncodeAll(cs[1..]));
      EncodedIsValid(cs[1..]);
      var n := |Encode(cs[0])|;
      assert EncodeAll(cs)[n..] == EncodeAll(cs[1..]);
    }
  }

  lemma {:induction false} ValidIsEncoded(s: Bytes) returns (cs: seq<int>)
    requires ValidUtf8(s)
    ensures (forall c | c in cs :: IsScalar(c)) && EncodeAll(cs) == s
    decreases |s|
  {
    cs := [];
    if s != [] {
      var n := RuneLen(s);
      var c := Decoded(s);
      var more := ValidIsEncoded(s[n..]);
      cs := [c] + more;
      assert cs[1..] == more && s == s[..n] + s[n..];
    }
  }

  /** A text is valid exactly if it is the encoding of some characters. */
  lemma ValidExactly(s: Bytes)
    ensures ValidUtf8(s) <==> exists cs: seq<int> :: (forall c | c in cs :: IsScalar(c)) && EncodeAll(cs) == s
  {
    if ValidUtf8(s) {
      var cs := ValidIsEncoded(s);
    }
    if cs: seq<int> :| (forall c | c in cs :: IsScalar(c)) && EncodeAll(cs) == s {
      EncodedIsValid(cs);
    }
  }

  // --- letters ------------------------------------------------------------------------

  predicate Ascii(s: Bytes) { forall b | b in s :: b < 0x80 }

  function LowerByte(b: Byte): Byte { if In(b, 0x41, 0x5A) then b + 32 else b }

  function Lower(s: Bytes): (r: Bytes)
    ensures |r| == |s|
  {
    seq(|s|, i requires 0 <= i < |s| => LowerByte(s[i]))
  }

  /** The capitals move by 32, and nothing else does. */
  lemma LowerMoves(s: Bytes, i: nat)
    requires i < |s|
    ensures 0x41 <= s[i] <= 0x5A ==> Lower(s)[i] == s[i] + 32
    ensures !(0x41 <= s[i] <= 0x5A) ==> Lower(s)[i] == s[i]
  {
  }

  lemma {:induction false} LowerStaysValid(s: Bytes)
    requires ValidUtf8(s)
    ensures ValidUtf8(Lower(s))
    decreases |s|
  {
    if s != [] {
      var n := RuneLen(s);
      assert RuneLen(Lower(s)) == n;
      LowerStaysValid(s[n..]);
      assert Lower(s)[n..] == Lower(s[n..]);
    }
  }

  /** A character depends on its own bytes only. */
  lemma RuneLocal(s: Bytes, t: Bytes)
    requires RuneLen(s) > 0 && RuneLen(s) <= |t| && s[..RuneLen(s)] == t[..RuneLen(s)]
    ensures RuneLen(t) == RuneLen(s)
  {
    var n := RuneLen(s);
    assert forall i | 0 <= i < n :: t[i] == t[..n][i] == s[..n][i] == s[i];
  }

  lemma RuneConcat(a: Bytes, b: Bytes)
    requires RuneLen(a) > 0
    ensures RuneLen(a + b) == RuneLen(a) && (a + b)[RuneLen(a)..] == a[RuneLen(a)..] + b
  {
    assert (a + b)[..RuneLen(a)] == a[..RuneLen(a)];
    RuneLocal(a, a + b);
  }

  lemma {:induction false} ValidConcat(a: Bytes, b: Bytes)
    requires ValidUtf8(a) && ValidUtf8(b)
    ensures ValidUtf8(a + b)
    decreases |a|
  {
    if a == [] {
      assert a + b == b;
    } else {
      RuneConcat(a, b);
      ValidConcat(a[RuneLen(a)..], b);
    }
  }

  lemma {:induction false} AsciiIsValid(s: Bytes)
    requires Ascii(s)
    ensures ValidUtf8(s)
  {
    if s != [] {
      assert s[0] in s;
      assert forall b | b in s[1..] :: b in s;
      AsciiIsValid(s[1..]);
    }
  }

  /** Near every place in a valid text, and no more than three bytes before it, the text can be cut. */
  lemma {:induction false} CutNear(s: Bytes, k: nat) returns (j: nat)
    requires ValidUtf8(s) && k <= |s|
    ensures j <= k <= j + 3 && ValidUtf8(s[..j])
    decreases |s|
  {
    if s == [] || k < RuneLen(s) {
      j := 0;
    } else {
      var n := RuneLen(s);
      j := CutNear(s[n..], k - n);
      assert s[..n + j] == s[..n] + s[n..][..j];
      assert s[..n][..n] == s[..n];
      RuneLocal(s, s[..n]);
      assert s[..n][n..] == [];
      ValidConcat(s[..n], s[n..][..j]);
      j := n + j;
    }
  }

  // --- the hash suffix ------------------------------------------------------------------

  function HexDigit(d: nat): Byte
    requires d < 16
  {
    if d < 10 then 0x30 + d else 0x61 + (d - 10)
  }

  function Pow16(n: nat): nat { if n == 0 then 1 else 16 * Pow16(n - 1) }

  /** The n low hexadecimal digits of h, as %0nx prints them. */
  function Hex(h: nat, n: nat): (r: Bytes)
    ensures |r| == n
  {
    if n == 0 then [] else Hex(h / 16, n - 1) + [HexDigit(h % 16)]
  }

  /** The value of a hexadecimal digit, 0 to 9 or a to f. */
  function DigitValue(b: Byte): int {
    if '0' as int <= b <= '9' as int then b - '0' as int
    else if 'a' as int <= b <= 'f' as int then b - 'a' as int + 10
    else -1
  }

  function Value(s: Bytes): int {
    if s == [] then 0 else 16 * Value(s[..|s| - 1]) + DigitValue(s[|s| - 1])
  }

  /** Read as a number, the digits are the number. */
  lemma {:induction false} HexReads(h: nat, n: nat)
    requires h < Pow16(n)
    ensures Value(Hex(h, n)) == h && forall b | b in Hex(h, n) :: 0 <= DigitValue(b) < 16
  {
    if n > 0 {
      HexReads(h / 16, n - 1);
      assert Hex(h, n)[..n - 1] == Hex(h / 16, n - 1);
    }
  }

  lemma {:induction false} HexInjective(a: nat, b: nat, n: nat)
    requires a < Pow16(n) && b < Pow16(n) && Hex(a, n) == Hex(b, n)
    ensures a == b
  {
    if n > 0 {
      var x, y := Hex(a / 16, n - 1), Hex(b / 16, n - 1);
      assert (x + [HexDigit(a % 16)])[n - 1] == HexDigit(a % 16);
      assert (y + [HexDigit(b % 16)])[n - 1] == HexDigit(b % 16);
      assert x == (x + [HexDigit(a % 16)])[..n - 1] && y == (y + [HexDigit(b % 16)])[..n - 1];
      HexInjective(a / 16, b / 16, n - 1);
    }
  }

  lemma {:induction false} HexIsAscii(h: nat, n: nat)
    ensures Ascii(Hex(h, n))
  {
    if n > 0 { HexIsAscii(h / 16, n - 1); }
  }

  /** "_%08x" */
  function Suffix(hash: nat): (r: Bytes)
    ensures |r| == SUFFIX_BYTES
  {
    [0x5F] + Hex(hash, 8)
  }

  // --- the name ----------------------------------------------------------------------------

  datatype Identifier = Identifier(value: Bytes, full: Bytes, truncated: bool)

  /** k bytes are as much of the text as fits the budget whole. */
  ghost predicate LongestCut(s: Bytes, k: nat)
    requires BUDGET <= |s|
  {
    k <= BUDGET && ValidUtf8(s[..k]) && forall j | k < j <= BUDGET :: !ValidUtf8(s[..j])
  }

  lemma WithSuffix(s: Bytes, k: nat, hash: nat)
    requires BUDGET <= |s| && k <= BUDGET && ValidUtf8(s[..k])
    ensures ValidUtf8(s[..k] + Suffix(hash)) && |s[..k] + Suffix(hash)| <= MAX_IDENTIFIER_BYTES
  {
    HexIsAscii(hash, 8);
    AsciiIsValid(Suffix(hash));
    ValidConcat(s[..k], Suffix(hash));
  }

  /** The loop of truncateIdent, which drops bytes until what is left is valid. */
  method CutBack(s: Bytes) returns (cut: Bytes, ghost trims: nat)
    requires ValidUtf8(s) && BUDGET <= |s|
    ensures 51 <= |cut| <= |s| && cut == s[..|cut|] && LongestCut(s, |cut|)
    ensures trims <= 3
  {
    cut, trims := s[..BUDGET], 0;
    ghost var near := CutNear(s, BUDGET);
    while |cut| > 0 && !ValidUtf8(cut)
      invariant near <= |cut| <= BUDGET && cut == s[..|cut|]
      invariant trims + |cut| == BUDGET
      invariant forall j | |cut| < j <= BUDGET :: !ValidUtf8(s[..j])
    {
      cut := cut[..|cut| - 1];
      trims := trims + 1;
    }
  }

  /** truncateIdent; `hash` is the 32-bit hash of the lowered name, `trims` how often the loop ran. */
  method TruncateIdent(name: Bytes, hash: nat) returns (id: Identifier, ghost trims: nat)
    requires ValidUtf8(name)
    ensures id.full == Lower(name)
    ensures id.truncated <==> |name| > MAX_IDENTIFIER_BYTES
    ensures !id.truncated ==> id.value == Lower(name)
    ensures id.truncated ==>
      exists k :: 51 <= k <= BUDGET && LongestCut(Lower(name), k) && id.value == Lower(name)[..k] + Suffix(hash)
    ensures ValidUtf8(id.value) && |id.value| <= MAX_IDENTIFIER_BYTES
    ensures trims <= 3
  {
    var lower := Lower(name);
    trims := 0;
    LowerStaysValid(name);
    if |lower| <= MAX_IDENTIFIER_BYTES {
      return Identifier(lower, lower, false), trims;
    }
    var cut;
    cut, trims := CutBack(lower);
    WithSuffix(lower, |cut|, hash);
    id := Identifier(cut + Suffix(hash), lower, true);
  }

  /** Two truncated names collide exactly when what was kept and what was hashed both agree. */
  lemma TruncatedNamesCollide(a: Bytes, hashA: nat, b: Bytes, hashB: nat)
    requires hashA < Pow16(8) && hashB < Pow16(8)
    ensures a + Suffix(hashA) == b + Suffix(hashB) <==> a == b && hashA == hashB
  {
    if a + Suffix(hashA) == b + Suffix(hashB) {
      var x, y := a + Suffix(hashA), b + Suffix(hashB);
      assert |a| == |b|;
      assert x[..|a|] == a && y[..|b|] == b;
      assert x[|a|..] == Suffix(hashA) && y[|b|..] == Suffix(hashB);
      assert Suffix(hashA)[1..] == Hex(hashA, 8) && Suffix(hashB)[1..] == Hex(hashB, 8);
      HexInjective(hashA, hashB, 8);
    }
  }
}
