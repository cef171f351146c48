/**
 What the characters of a JSON string are, by section 7 of RFC 8259 and the
 decoding of UTF-16 in section 2.2 of RFC 2781, and which strings the parser
 turns into the UTF-8 of just these characters.
 */
module Utf16 {
  import opened CText
  import opened Unicode
  import opened Parser
  import opened Grammar
  import opened Completeness

  /** A byte of the text taken as it is, or a character given by its number. */
  datatype Piece = Plain(c: byte) | Character(cp: nat)

  datatype Pieces = Some(pieces: seq<Piece>) | Malformed {
    function Behind(p: Piece): Pieces {
      if Some? then Some([p] + pieces) else Malformed
    }
  }

  predicate IsSurrogate(w: nat) {
    0xD800 <= w <= 0xDFFF
  }

  /**
   Steps 1 to 5 of section 2.2 at the head of a row of units: a unit outside
   the surrogates is a character; a high half and the low half behind it are
   twenty bits above U+10000; anything else is an error.
   */
  function DecodeHead(w1: nat, w2: nat, more: bool): (bool, nat, nat) {
    if !IsSurrogate(w1) then (true, w1, 1)
    else if !(0xD800 <= w1 <= 0xDBFF) then (false, 0, 0)
    else if !more || !(0xDC00 <= w2 <= 0xDFFF) then (false, 0, 0)
    else (true, (w1 % 0x400) * 0x400 + w2 % 0x400 + 0x10000, 2)
  }

  function UnitAt(chars: seq<Char>, i: nat): nat
    requires ValidChars(chars)
  {
    if i < |chars| && chars[i].Unit? then CodeUnit(chars[i].hex) else 0
  }

  predicate HasUnit(chars: seq<Char>, i: nat) {
    i < |chars| && chars[i].Unit?
  }

  /** The string as the standards read it. */
  function Characters(chars: seq<Char>): Pieces
    requires ValidChars(chars)
  {
    if chars == [] then Some([])
    else match chars[0]
      case Raw(c) => Characters(chars[1..]).Behind(Plain(c))
      case Short(c) => Characters(chars[1..]).Behind(Plain(ShortValue(c)))
      case Unit(h) =>
        var (ok, cp, n) := DecodeHead(CodeUnit(h), UnitAt(chars, 1), HasUnit(chars, 1));
        if ok then Characters(chars[n..]).Behind(Character(cp)) else Malformed
  }

  /** The bytes, with each character encoded by the table of section 3 of RFC 3629. */
  ghost predicate Encodes(pieces: seq<Piece>, s: seq<byte>)
    decreases |pieces|
  {
    if pieces == [] then s == []
    else match pieces[0]
      case Plain(c) => s != [] && s[0] == c && Encodes(pieces[1..], s[1..])
      case Character(cp) =>
        SequenceLength(cp) <= |s| && EncodedBy(cp, s[..SequenceLength(cp)])
        && Encodes(pieces[1..], s[SequenceLength(cp)..])
  }

  // Which strings are well-formed ------------------------------------------------------

  /** A high half has its low half behind it, and a low half its high half in front. */
  predicate PairedAt(chars: seq<Char>, i: nat)
    requires ValidChars(chars) && HasUnit(chars, i)
  {
    && (IsHighSurrogate(UnitAt(chars, i)) ==> HasUnit(chars, i + 1) && IsLowSurrogate(UnitAt(chars, i + 1)))
    && (IsLowSurrogate(UnitAt(chars, i)) ==> i > 0 && HasUnit(chars, i - 1) && IsHighSurrogate(UnitAt(chars, i - 1)))
  }

  ghost predicate Paired(chars: seq<Char>)
    requires ValidChars(chars)
  {
    forall i: nat :: HasUnit(chars, i) ==> PairedAt(chars, i)
  }

  ghost predicate NoZero(chars: seq<Char>)
    requires ValidChars(chars)
  {
    forall i: nat :: HasUnit(chars, i) ==> UnitAt(chars, i) != 0
  }

  /** The first character of the string takes `n` items. */
  predicate Head(chars: seq<Char>, n: nat)
    requires ValidChars(chars)
  {
    if n == 2 then
      HasUnit(chars, 0) && HasUnit(chars, 1) && IsHighSurrogate(UnitAt(chars, 0)) && IsLowSurrogate(UnitAt(chars, 1))
    else
      n == 1 && |chars| >= 1 && !(HasUnit(chars, 0) && IsSurrogate(UnitAt(chars, 0)))
  }

  lemma PairedAtHead(chars: seq<Char>, n: nat, i: nat)
    requires ValidChars(chars) && Head(chars, n) && i < n && HasUnit(chars, i)
    ensures PairedAt(chars, i)
  {
    hide CodeUnit;
  }

  /** The last unit of a complete character is no high half. */
  lemma PairedAtBehind(chars: seq<Char>, n: nat, i: nat)
    requires ValidChars(chars) && Head(chars, n) && n <= |chars| && HasUnit(chars[n..], i)
    ensures PairedAt(chars[n..], i) <==> PairedAt(chars, n + i)
  {
    hide CodeUnit;
    var tail := chars[n..];
    assert UnitAt(tail, i) == UnitAt(chars, n + i) && UnitAt(tail, i + 1) == UnitAt(chars, n + i + 1);
    assert HasUnit(tail, i + 1) <==> HasUnit(chars, n + i + 1);
    if i > 0 {
      assert UnitAt(tail, i - 1) == UnitAt(chars, n + i - 1) && (HasUnit(tail, i - 1) <==> HasUnit(chars, n + i - 1));
    } else {
      assert HasUnit(chars, n - 1) ==> !IsHighSurrogate(UnitAt(chars, n - 1));
    }
  }

  lemma PairedBehind(chars: seq<Char>, n: nat)
    requires ValidChars(chars) && 1 <= n <= |chars|
    requires Head(chars, n)
    ensures Paired(chars) <==> Paired(chars[n..])
  {
    hide CodeUnit, PairedAt;
    var tail := chars[n..];
    if Paired(chars) {
      forall i: nat | HasUnit(tail, i) ensures PairedAt(tail, i) {
        assert HasUnit(chars, n + i);
        PairedAtBehind(chars, n, i);
      }
    }
    if Paired(tail) {
      forall i: nat | HasUnit(chars, i) ensures PairedAt(chars, i) {
        if i < n {
          PairedAtHead(chars, n, i);
        } else {
          assert HasUnit(tail, i - n);
          PairedAtBehind(chars, n, i - n);
        }
      }
    }
  }

  /** The standards give a string a meaning exactly if its surrogates come in pairs. */
  lemma {:induction false} MeaningfulIffPaired(chars: seq<Char>)
    requires ValidChars(chars)
    ensures Characters(chars).Some? <==> Paired(chars)
    decreases |chars|
  {
    hide CodeUnit, Paired;
    if chars == [] {
      NothingToPair();
    } else if !chars[0].Unit? {
      MeaningfulIffPaired(chars[1..]);
      PairedBehind(chars, 1);
    } else {
      var (ok, cp, n) := DecodeHead(CodeUnit(chars[0].hex), UnitAt(chars, 1), HasUnit(chars, 1));
      if ok {
        MeaningfulIffPaired(chars[n..]);
        PairedBehind(chars, n);
      } else {
        HeadUnpaired(chars);
      }
    }
  }

  lemma NothingToPair()
    ensures Paired([])
  {}

  lemma HeadUnpaired(chars: seq<Char>)
    requires ValidChars(chars) && HasUnit(chars, 0) && IsSurrogate(UnitAt(chars, 0))
    requires !IsHighSurrogate(UnitAt(chars, 0)) || !HasUnit(chars, 1) || !IsLowSurrogate(UnitAt(chars, 1))
    ensures !Paired(chars)
  {
    hide CodeUnit;
    assert !PairedAt(chars, 0);
  }

  // What the parser makes of them ----------------------------------------------------------

  lemma TwentyBits(w1: nat, w2: nat)
    requires IsHighSurrogate(w1) && IsLowSurrogate(w2)
    ensures w1 % 0x400 * 0x400 + w2 % 0x400 + 0x10000 == PairValue(w1, w2)
  {
    assert w1 == 54 * 0x400 + (w1 - 0xD800) && w2 == 55 * 0x400 + (w2 - 0xDC00);
  }

  lemma NoZeroBehind(chars: seq<Char>, n: nat)
    requires ValidChars(chars) && n <= |chars| && NoZero(chars)
    ensures NoZero(chars[n..])
  {
    hide CodeUnit;
    forall i: nat | HasUnit(chars[n..], i) ensures UnitAt(chars[n..], i) != 0 {
      assert HasUnit(chars, n + i);
    }
  }

  lemma EncodesMore(p: Piece, head: seq<byte>, pieces: seq<Piece>, s: seq<byte>)
    requires Encodes(pieces, s)
    requires match p case Plain(c) => head == [c] case Character(cp) => cp < 0x110000 && head == WriteUtf8(cp)
    ensures Encodes([p] + pieces, head + s)
  {
    hide WriteUtf8;
    assert ([p] + pieces)[1..] == pieces;
    assert (head + s)[..|head|] == head && (head + s)[|head|..] == s;
    if p.Character? { WriteUtf8Encodes(p.cp); }
  }

  lemma {:induction false} StringIsEncoded(chars: seq<Char>)
    requires ValidChars(chars) && Characters(chars).Some? && NoZero(chars)
    ensures Encodes(Characters(chars).pieces, StringValue(chars))
    decreases |chars|
  {
    hide CodeUnit, NoZero, WriteUtf8, Encodes;
    if chars == [] {
      NothingEncoded();
    } else {
      match chars[0]
      case Raw(c) => StringIsEncodedBehind(chars, 1, Plain(c), [c]);
      case Short(c) => StringIsEncodedBehind(chars, 1, Plain(ShortValue(c)), [ShortValue(c)]);
      case Unit(h) =>
        var (ok, cp, n) := DecodeHead(CodeUnit(h), UnitAt(chars, 1), HasUnit(chars, 1));
        FirstNotZero(chars);
        ParseHex4IsCodeUnit(h);
        if n == 2 { TwentyBits(CodeUnit(h), UnitAt(chars, 1)); }
        StringIsEncodedBehind(chars, n, Character(cp), WriteUtf8(cp));
    }
  }

  lemma NothingEncoded()
    ensures Encodes([], [])
  {}

  lemma FirstNotZero(chars: seq<Char>)
    requires ValidChars(chars) && HasUnit(chars, 0) && NoZero(chars)
    ensures UnitAt(chars, 0) != 0
  {
    hide CodeUnit;
  }

  lemma StringIsEncodedBehind(chars: seq<Char>, n: nat, p: Piece, head: seq<byte>)
    requires ValidChars(chars) && 1 <= n <= |chars| && NoZero(chars) && Characters(chars[n..]).Some?
    requires match p case Plain(c) => head == [c] case Character(cp) => cp < 0x110000 && head == WriteUtf8(cp)
    ensures Encodes([p] + Characters(chars[n..]).pieces, head + StringValue(chars[n..]))
    decreases |chars|, 0
  {
    hide CodeUnit, NoZero, WriteUtf8, Encodes, Characters, StringValue;
    NoZeroBehind(chars, n);
    StringIsEncoded(chars[n..]);
    EncodesMore(p, head, Characters(chars[n..]).pieces, StringValue(chars[n..]));
  }

  // U+0000 ---------------------------------------------------------------------------------

  lemma {:induction false} StringNulFree(chars: seq<Char>)
    requires ValidChars(chars)
    ensures NulFree(StringValue(chars))
  {
    hide WriteUtf8, CodeUnit;
    if chars != [] {
      StringNulFree(chars[1..]);
      if chars[0].Unit? {
        var u := CodeUnit(chars[0].hex);
        ParseHex4IsCodeUnit(chars[0].hex);
        if u != 0 && !IsSurrogate(u) { WrittenNulFree(u); }
        if IsHighSurrogate(u) && HasUnit(chars, 1) {
          assert chars[1..][1..] == chars[2..];
          StringNulFree(chars[2..]);
          var l := CodeUnit(chars[1].hex);
          if IsLowSurrogate(l) { WrittenNulFree(PairValue(u, l)); }
        }
      }
    }
  }

  lemma {:induction false} ZeroIsCharacter(chars: seq<Char>, i: nat)
    requires ValidChars(chars) && Characters(chars).Some? && HasUnit(chars, i) && UnitAt(chars, i) == 0
    ensures Character(0) in Characters(chars).pieces
    decreases |chars|
  {
    hide CodeUnit;
    var n := if chars[0].Unit? then DecodeHead(CodeUnit(chars[0].hex), UnitAt(chars, 1), HasUnit(chars, 1)).2 else 1;
    if i > 0 {
      assert i >= n;
      assert HasUnit(chars[n..], i - n) && UnitAt(chars[n..], i - n) == UnitAt(chars, i);
      ZeroIsCharacter(chars[n..], i - n);
    }
  }

  lemma {:induction false} ZeroIsByte(pieces: seq<Piece>, s: seq<byte>)
    requires Encodes(pieces, s) && Character(0) in pieces
    ensures NUL in s
    decreases |pieces|
  {
    if pieces[0] == Character(0) {
      assert s[..1][0] == NUL;
    } else {
      assert Character(0) in pieces[1..];
      match pieces[0]
      case Plain(_) => ZeroIsByte(pieces[1..], s[1..]);
      case Character(cp) => ZeroIsByte(pieces[1..], s[SequenceLength(cp)..]);
    }
  }

  // Main results -----------------------------------------------------------------------------

  /**
   A string of the grammar is parsed to the UTF-8 of the characters the
   standards see in it, if and only if its surrogates are paired and it does
   not contain U+0000.
   */
  lemma ParsedIsUtf8Iff(chars: seq<Char>, rest: seq<byte>)
    requires ValidChars(chars)
    ensures ParseString(StringOnto(chars, rest)).Ok? && ParseString(StringOnto(chars, rest)).rest == rest
    ensures Characters(chars).Some? && Encodes(Characters(chars).pieces, ParseString(StringOnto(chars, rest)).value)
            <==> Paired(chars) && NoZero(chars)
  {
    hide Encodes, Characters, Paired, StringValue, CodeUnit, ParseString, StringOnto;
    CharsAreAccepted(chars);
    StringParses(chars, rest);
    MeaningfulIffPaired(chars);
    if Characters(chars).Some? {
      if NoZero(chars) {
        StringIsEncoded(chars);
      } else {
        var i: nat :| HasUnit(chars, i) && UnitAt(chars, i) == 0;
        ZeroIsCharacter(chars, i);
        StringNulFree(chars);
        if Encodes(Characters(chars).pieces, StringValue(chars)) {
          ZeroIsByte(Characters(chars).pieces, StringValue(chars));
        }
      }
    }
  }

  /** No two byte strings are the UTF-8 of the same characters. */
  lemma {:induction false} EncodesUnique(pieces: seq<Piece>, s: seq<byte>, t: seq<byte>)
    requires Encodes(pieces, s) && Encodes(pieces, t)
    ensures s == t
    decreases |pieces|
  {
    hide EncodedBy;
    if pieces != [] {
      var n := match pieces[0] case Plain(_) => 1 case Character(cp) => SequenceLength(cp);
      EncodesUnique(pieces[1..], s[n..], t[n..]);
      if pieces[0].Character? { EncodingUnique(pieces[0].cp, s[..n], t[..n]); }
      assert s == s[..n] + s[n..] && t == t[..n] + t[n..];
    }
  }
}
