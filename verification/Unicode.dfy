/**
 The escape decoder of the JSON string parser: four hex digits, surrogate pairs
 and the UTF-8 writer, next to the tables of section 3 of RFC 3629 and section
 2.2 of RFC 2781.
 */
module Unicode {
  import opened Bits
  import opened CText

  // The decoder ------------------------------------------------------------

  /** `parse_hex4` on four valid digits: shift in one nibble after another. */
  function ParseHex4(s: seq<byte>): nat
    requires HasHex4(s)
  {
    var h := HexVal(s[0]);
    var h := Shl(h, 4) + HexVal(s[1]);
    var h := Shl(h, 4) + HexVal(s[2]);
    Shl(h, 4) + HexVal(s[3])
  }

  predicate IsHighSurrogate(uc: nat) { 0xD800 <= uc <= 0xDBFF }

  predicate IsLowSurrogate(uc: nat) { 0xDC00 <= uc <= 0xDFFF }

  /** The code point of a pair, in the bit arithmetic of the decoder. */
  function CombineSurrogates(uc: nat, uc2: nat): nat {
    0x10000 + Or(Shl(And(uc, 0x3FF), 10), And(uc2, 0x3FF))
  }

  /** A trailing byte: `(uc | 0x80) & 0xBF`. */
  function Trailing(uc: nat): (c: byte)
    ensures c == 0x80 + uc % 64
  {
    TrailingBits(uc);
    And(Or(uc, 0x80), 0xBF)
  }

  /** The leading byte of a sequence: `uc | firstByteMark[len]`. */
  function Leading(uc: nat, len: nat): (c: byte)
    requires 1 <= len <= 4
    requires uc < (if len == 1 then 0x80 else if len == 2 then 0x20 else if len == 3 then 0x10 else 8)
    ensures c == uc + FirstByteMark(len)
  {
    LeadingBits(uc, len);
    Or(uc, FirstByteMark(len))
  }

  function FirstByteMark(len: nat): byte {
    if len <= 1 then 0x00 else if len == 2 then 0xC0 else if len == 3 then 0xE0 else 0xF0
  }

  function SequenceLength(uc: nat): nat {
    if uc < 0x80 then 1 else if uc < 0x800 then 2 else if uc < 0x10000 then 3 else 4
  }

  /**
   The bytes the decoder stores for a code point. It writes them from the last
   to the first, dropping six bits for each trailing byte.
   */
  function WriteUtf8(uc: nat): (out: seq<byte>)
    requires uc < 0x110000
    ensures |out| == SequenceLength(uc)
  {
    var len := SequenceLength(uc);
    DropSix(uc);
    if len == 1 then [Leading(uc, 1)]
    else
      var uc1 := Shr(uc, 6);
      DropSix(uc1);
      if len == 2 then [Leading(uc1, 2), Trailing(uc)]
      else
        var uc2 := Shr(uc1, 6);
        DropSix(uc2);
        if len == 3 then [Leading(uc2, 3), Trailing(uc1), Trailing(uc)]
        else [Leading(Shr(uc2, 6), 4), Trailing(uc2), Trailing(uc1), Trailing(uc)]
  }

  // The standards ----------------------------------------------------------

  /** A Unicode scalar value other than NUL, which C text cannot hold. */
  predicate IsScalar(cp: nat) {
    0 < cp < 0x110000 && !(0xD800 <= cp < 0xE000)
  }

  predicate IsTrailing(c: byte) { 0x80 <= c <= 0xBF }

  /** The six free bits of a trailing octet. */
  function Free(c: byte): int { c - 0x80 }

  /** The free bits of a leading octet of a sequence of `len`. */
  function LeadingFree(c: byte, len: nat): int { c - FirstByteMark(len) }

  /**
   Reading one character by the table of section 3 of RFC 3629: the shape of
   the octets, the character number in their free bits, and the range of its row.
   */
  predicate EncodedBy(cp: nat, s: seq<byte>) {
    || (|s| == 1 && s[0] <= 0x7F && cp == s[0])
    || (|s| == 2 && 0xC0 <= s[0] <= 0xDF && IsTrailing(s[1])
        && cp == 64 * LeadingFree(s[0], 2) + Free(s[1]) && 0x80 <= cp <= 0x7FF)
    || (|s| == 3 && 0xE0 <= s[0] <= 0xEF && IsTrailing(s[1]) && IsTrailing(s[2])
        && cp == 4096 * LeadingFree(s[0], 3) + 64 * Free(s[1]) + Free(s[2]) && 0x800 <= cp <= 0xFFFF)
    || (|s| == 4 && 0xF0 <= s[0] <= 0xF7 && IsTrailing(s[1]) && IsTrailing(s[2]) && IsTrailing(s[3])
        && cp == 262144 * LeadingFree(s[0], 4) + 4096 * Free(s[1]) + 64 * Free(s[2]) + Free(s[3])
        && 0x10000 <= cp <= 0x10FFFF)
  }

  /** The four hex digits of a UTF-16 code unit. */
  function Hex4(u: nat): (s: seq<byte>)
    requires u < 0x10000
    ensures HasHex4(s)
  {
    [HexDigit(u / 4096), HexDigit(u / 256 % 16), HexDigit(u / 16 % 16), HexDigit(u % 16)]
  }

  /** Section 2.1 of RFC 2781: the high half of the pair for `cp`. */
  function HighHalf(cp: nat): (h: nat)
    requires 0x10000 <= cp < 0x110000
    ensures IsHighSurrogate(h)
  {
    0xD800 + (cp - 0x10000) / 0x400
  }

  function LowHalf(cp: nat): (l: nat)
    requires 0x10000 <= cp < 0x110000
    ensures IsLowSurrogate(l)
  {
    0xDC00 + (cp - 0x10000) % 0x400
  }

  // Proofs -----------------------------------------------------------------

  /** The writer produces the one encoding the table allows for the character. */
  lemma WriteUtf8Encodes(cp: nat)
    requires cp < 0x110000
    ensures EncodedBy(cp, WriteUtf8(cp))
  {
    hide Or, And, Shr, Shl;
    DropSix(cp);
    DropSix(cp / 64);
    DropSix(cp / 64 / 64);
    Sextets(cp);
  }

  lemma Sextets(cp: nat)
    ensures cp == 64 * (cp / 64) + cp % 64
    ensures cp == 4096 * (cp / 64 / 64) + 64 * (cp / 64 % 64) + cp % 64
    ensures cp == 262144 * (cp / 64 / 64 / 64) + 4096 * (cp / 64 / 64 % 64) + 64 * (cp / 64 % 64) + cp % 64
  {}

  lemma WrittenNulFree(cp: nat)
    requires 0 < cp < 0x110000
    ensures NulFree(WriteUtf8(cp))
  {
    hide WriteUtf8;
    WriteUtf8Encodes(cp);
  }

  lemma EncodingUnique(cp: nat, s: seq<byte>, t: seq<byte>)
    requires EncodedBy(cp, s) && EncodedBy(cp, t)
    ensures s == t
  {
    if |s| == 2 {
      Radix64(LeadingFree(s[0], 2), Free(s[1]), LeadingFree(t[0], 2), Free(t[1]));
    } else if |s| == 3 {
      var a, b := 64 * LeadingFree(s[0], 3) + Free(s[1]), 64 * LeadingFree(t[0], 3) + Free(t[1]);
      Radix64(a, Free(s[2]), b, Free(t[2]));
      Radix64(LeadingFree(s[0], 3), Free(s[1]), LeadingFree(t[0], 3), Free(t[1]));
    } else if |s| == 4 {
      var a, b := 64 * LeadingFree(s[0], 4) + Free(s[1]), 64 * LeadingFree(t[0], 4) + Free(t[1]);
      Radix64(64 * a + Free(s[2]), Free(s[3]), 64 * b + Free(t[2]), Free(t[3]));
      Radix64(a, Free(s[2]), b, Free(t[2]));
      Radix64(LeadingFree(s[0], 4), Free(s[1]), LeadingFree(t[0], 4), Free(t[1]));
    }
  }

  /** And no bytes encode two characters: what was written reads back as the character it was. */
  lemma DecodingUnique(cp: nat, other: nat)
    requires cp < 0x110000 && EncodedBy(other, WriteUtf8(cp))
    ensures cp == other
  {
    WriteUtf8Encodes(cp);
  }

  lemma Radix64(a: int, r: int, b: int, q: int)
    requires 64 * a + r == 64 * b + q && 0 <= r < 64 && 0 <= q < 64
    ensures a == b && r == q
  {}

  lemma {:induction false} ParseHex4OfHex4(u: nat)
    requires u < 0x10000
    ensures ParseHex4(Hex4(u)) == u
  {
    hide Shl;
    var a, b, c := u / 4096, u / 256 % 16, u / 16 % 16;
    ShlTimes(a, 4);
    ShlTimes(16 * a + b, 4);
    ShlTimes(16 * (16 * a + b) + c, 4);
    Nibbles(u);
  }

  lemma Nibbles(u: nat)
    ensures 16 * (16 * (16 * (u / 4096) + u / 256 % 16) + u / 16 % 16) + u % 16 == u
  {
    assert u / 256 / 16 == u / 4096 && u / 16 / 16 == u / 256;
  }

  /** The bit arithmetic is the decoding rule of section 2.2 of RFC 2781. */
  lemma CombineIsRfc2781(h: nat, l: nat)
    requires IsHighSurrogate(h) && IsLowSurrogate(l)
    ensures CombineSurrogates(h, l) == (h - 0xD800) * 0x400 + (l - 0xDC00) + 0x10000
    ensures 0x10000 <= CombineSurrogates(h, l) < 0x110000
  {
    hide And, Or, Shl;
    TenBits();
    ShlTimes(54, 10);
    ShlTimes(55, 10);
    AndMask(54, h - 0xD800, 10);
    AndMask(55, l - 0xDC00, 10);
    ShlTimes(h - 0xD800, 10);
    OrFields(h - 0xD800, l - 0xDC00, 10);
  }

  lemma CombineOfHalves(cp: nat)
    requires 0x10000 <= cp < 0x110000
    ensures CombineSurrogates(HighHalf(cp), LowHalf(cp)) == cp
  {
    CombineIsRfc2781(HighHalf(cp), LowHalf(cp));
  }

  lemma TenBits()
    ensures Pow2(10) == 0x400
  {
    ShlTimes(1, 10);
  }

  lemma DropSix(uc: nat)
    ensures Shr(uc, 6) == uc / 64
  {
    ShlTimes(uc / 64, 6);
    ShlTimes(1, 6);
    ShrOfShl(uc / 64, uc % 64, 6);
  }

  lemma LeadingBits(uc: nat, len: nat)
    requires 1 <= len <= 4
    requires uc < (if len == 1 then 0x80 else if len == 2 then 0x20 else if len == 3 then 0x10 else 8)
    ensures Or(uc, FirstByteMark(len)) == uc + FirstByteMark(len)
  {
    OrZero(uc);
    assert Pow2(1) == 2 && Pow2(3) == 8 && Pow2(5) == 32 && Pow2(4) == 16;
    if len > 1 { MarkField(uc, if len == 2 then 6 else if len == 3 then 14 else 30, 7 - len); }
  }

  /** 0xC0, 0xE0 and 0xF0 are 6 << 5, 14 << 4 and 30 << 3. */
  lemma MarkField(uc: nat, hi: nat, n: nat)
    requires uc < Pow2(n) && 3 <= n <= 5
    ensures var mark := hi * (if n == 3 then 8 else if n == 4 then 16 else 32);
            Or(uc, mark) == uc + mark
  {
    assert Shl(hi, 1) == 2 * hi;
    assert Shl(hi, 3) == 8 * hi;
    assert Shl(hi, 5) == 32 * hi;
    OrFields(hi, uc, n);
  }

  lemma TrailingBits(uc: nat)
    ensures And(Or(uc, 0x80), 0xBF) == 0x80 + uc % 64
  {
    // uc == (q << 6) + r, 0x80 == (2 << 6), 0xBF == (2 << 6) + 0x3F
    hide Or, And, Shl;
    var q, r := uc / 64, uc % 64;
    ShlTimes(1, 6);
    ShlTimes(2, 6);
    ShlTimes(q, 6);
    OrSplit(q, r, 2, 0, 6);
    OrZero(r);
    AndSplit(Or(q, 2), r, 2, 0x3F, 6);
    AndOnes(r, 6);
    AndTwoOfOr(q);
  }

  lemma AndTwoOfOr(q: nat)
    ensures And(Or(q, 2), 2) == 2
  {
    hide Or, And;
    OrStep2(q);
    AndTwo(Or(q / 4, 0), q % 2);
  }

  lemma AndTwo(h: nat, r: nat)
    requires r < 2
    ensures And(4 * h + 2 + r, 2) == 2
  {
    AndZero(h);
    var x := 4 * h + 2 + r;
    assert x / 2 == 2 * h + 1 && x / 2 / 2 == h;
    assert And(2 * h + 1, 1) == 2 * And(h, 0) + 1;
  }

  lemma OrStep2(q: nat)
    ensures Or(q, 2) == 4 * Or(q / 4, 0) + 2 + q % 2
  {
    assert q / 2 / 2 == q / 4 && q / 2 == 2 * (q / 4) + q / 2 % 2;
    assert Or(q / 2, 1) == 2 * Or(q / 4, 0) + 1;
  }
}
