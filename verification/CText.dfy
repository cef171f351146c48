/**
 C text as the sources read it: a sequence of bytes in front of its NUL
 terminator, seen through a pointer that only moves forward.
 */
module CText {

  type byte = x: int | 0 <= x < 256

  const NUL: byte := 0
  const BACKSPACE: byte := 8
  const TAB: byte := 9
  const NEWLINE: byte := 10
  const FORMFEED: byte := 12
  const RETURN: byte := 13
  const SPACE: byte := 32
  const QUOTE: byte := 34      // "
  const STAR: byte := 42       // *
  const PLUS: byte := 43       // +
  const COMMA: byte := 44      // ,
  const MINUS: byte := 45      // -
  const DOT: byte := 46        // .
  const SLASH: byte := 47      // /
  const ZERO: byte := 48       // 0
  const NINE: byte := 57       // 9
  const COLON: byte := 58      // :
  const LBRACKET: byte := 91   // [
  const BACKSLASH: byte := 92  // \
  const RBRACKET: byte := 93   // ]
  const LBRACE: byte := 123    // {
  const RBRACE: byte := 125    // }

  /** `s[i]`, where every index from the terminator on reads NUL. */
  function At(s: seq<byte>, i: nat): byte {
    if i < |s| then s[i] else NUL
  }

  /** `*s` */
  function Peek(s: seq<byte>): byte {
    At(s, 0)
  }

  predicate NulFree(s: seq<byte>) {
    NUL !in s
  }

  predicate IsDigit(c: byte) { ZERO <= c <= NINE }

  predicate IsHex(c: byte) { IsDigit(c) || 65 <= c <= 70 || 97 <= c <= 102 }

  /** The value of one hex digit in either case. */
  function HexVal(c: byte): (v: nat)
    requires IsHex(c)
    ensures v < 16
  {
    if IsDigit(c) then c - ZERO else if 65 <= c <= 70 then 10 + c - 65 else 10 + c - 97
  }

  /** The lower-case hex digit `printf("%x")` writes for `v`. */
  function HexDigit(v: nat): (c: byte)
    requires v < 16
    ensures IsHex(c) && HexVal(c) == v && !(65 <= c <= 70)
  {
    if v < 10 then ZERO + v else 97 + v - 10
  }

  /** Four hex digits at the head of the text. */
  predicate HasHex4(s: seq<byte>) {
    |s| >= 4 && IsHex(s[0]) && IsHex(s[1]) && IsHex(s[2]) && IsHex(s[3])
  }

  /** `n` copies of a byte. */
  function Fill(c: byte, n: nat): (s: seq<byte>)
    ensures |s| == n && forall i :: 0 <= i < n ==> s[i] == c
  {
    if n == 0 then [] else [c] + Fill(c, n - 1)
  }
}
