/** The parser takes every accepted tree, every text of the RFC among them, and reads the value it denotes. */
module Completeness {
  import opened Bits
  import opened CText
  import opened Decimal
  import opened Unicode
  import opened JsonValue
  import opened Parser
  import opened RoundTrip
  import opened Grammar

  // White space --------------------------------------------------------------

  lemma {:induction false} SkipSpaces(ws: seq<Space>, rest: seq<byte>)
    requires Blanks(ws)
    ensures Skip(SpacesOnto(ws, rest)) == Skip(rest)
  {
    if ws != [] {
      Uncons(ws[0].c, SpacesOnto(ws[1..], rest));
      SkipSpaces(ws[1..], rest);
    }
  }

  lemma SpacesThen(ws: seq<Space>, rest: seq<byte>)
    requires Blanks(ws) && (Peek(rest) > SPACE || Peek(rest) == NUL)
    ensures Skip(SpacesOnto(ws, rest)) == rest
  {
    SkipSpaces(ws, rest);
  }

  /** Behind a value the grammar has white space, a separator, a bracket or the end. */
  predicate EndsValue(rest: seq<byte>) {
    Peek(rest) <= SPACE || Peek(rest) in {COMMA, RBRACKET, RBRACE}
  }

  lemma SpacesEnd(ws: seq<Space>, rest: seq<byte>)
    requires Blanks(ws) && EndsValue(rest)
    ensures EndsValue(SpacesOnto(ws, rest))
  {
    if ws != [] { Uncons(ws[0].c, SpacesOnto(ws[1..], rest)); }
  }

  // Numbers ------------------------------------------------------------------

  lemma {:induction false} ScanRun(done: seq<byte>, ds: seq<byte>, rest: seq<byte>)
    requires AllDigits(ds)
    ensures ScanDigits(DigitsValue(done), ds + rest) == ScanDigits(DigitsValue(done + ds), rest)
    decreases ds
  {
    if ds == [] {
      assert ds + rest == rest && done + ds == done;
    } else {
      var next := done + [ds[0]];
      assert next[..|next| - 1] == done;
      assert (ds + rest)[1..] == ds[1..] + rest;
      assert done + ds == next + ds[1..];
      ScanRun(next, ds[1..], rest);
    }
  }

  lemma ScanAll(done: seq<byte>, ds: seq<byte>, rest: seq<byte>)
    requires AllDigits(ds) && !IsDigit(Peek(rest))
    ensures ScanDigits(DigitsValue(done), ds + rest) == (DigitsValue(done + ds), rest)
  {
    ScanRun(done, ds, rest);
  }

  lemma ScanFresh(ds: seq<byte>, rest: seq<byte>)
    requires AllDigits(ds) && !IsDigit(Peek(rest))
    ensures ScanDigits(0, ds + rest) == (DigitsValue(ds), rest)
  {
    ScanAll([], ds, rest);
    assert [] + ds == ds;
  }

  /** A digit behind a row of digits is read too. */
  lemma MoreDigits(whole: seq<byte>, ds: seq<byte>, tail: seq<byte>)
    requires AllDigits(ds) && IsDigit(Peek(tail))
    ensures |ScanDigits(DigitsValue(whole), ds + tail).1| < |tail|
  {
    ScanRun(whole, ds, tail);
    assert ScanDigits(DigitsValue(whole + ds), tail) ==
      ScanDigits(DigitsValue(whole + ds) * 10 + (tail[0] - ZERO), tail[1..]);
  }

  /** The parts of a numeral, each read on into what follows it. */
  predicate WholeGoesOn(whole: seq<byte>, rest: seq<byte>) {
    IsDigit(Peek(rest)) && (whole == [ZERO] ==> Peek(rest) != ZERO)
  }

  predicate FractionGoesOn(f: Fraction, rest: seq<byte>) {
    if f.Fraction? then IsDigit(Peek(rest)) else Peek(rest) == DOT && IsDigit(At(rest, 1))
  }

  predicate ExponentGoesOn(e: Exponent, rest: seq<byte>) {
    if e.Exponent? then
      IsDigit(Peek(rest)) || (e.sign.NoSign? && e.digits == [] && Peek(rest) in {PLUS, MINUS})
    else Peek(rest) in {69, 101}
  }

  /**
   `parse_number` would read on into `rest` behind the numeral. It takes an `e`
   with nothing behind it for an exponent, and stops between two zeros.
   */
  predicate Continues(n: Numeral, rest: seq<byte>) {
    || ExponentGoesOn(n.exponent, rest)
    || (n.exponent.NoExponent? && FractionGoesOn(n.fraction, rest))
    || (n.exponent.NoExponent? && n.fraction.NoFraction? && WholeGoesOn(n.whole, rest))
  }

  function ExponentPower(e: Exponent): int {
    if e.NoExponent? then 0 else if e.sign.MinusSign? then 0 - DigitsValue(e.digits) else DigitsValue(e.digits)
  }

  lemma ExponentParses(e: Exponent, rest: seq<byte>)
    requires e.Exponent? ==> AllDigits(e.digits) && e.mark in {69, 101}
    ensures var r := ParseExponent(ExponentOnto(e, rest));
            if ExponentGoesOn(e, rest) then |r.1| < |rest| else r == (ExponentPower(e), rest)
  {
    hide ScanDigits, DigitsValue;
    if e.Exponent? {
      var tail := e.digits + rest;
      assert Peek(tail) == if e.digits == [] then Peek(rest) else e.digits[0];
      assert DigitsValue([]) == 0 by { NoDigits(); }
      Uncons(e.mark, SignText(e.sign) + tail);
      if IsDigit(Peek(rest)) { MoreDigits([], e.digits, rest); } else { ScanFresh(e.digits, rest); }
      match e.sign
      case NoSign =>
        assert SignText(e.sign) + tail == tail;
        if e.digits == [] { assert tail == rest; }
      case PlusSign => Uncons(PLUS, tail);
      case MinusSign => Uncons(MINUS, tail);
    }
  }

  lemma FractionParses(whole: seq<byte>, f: Fraction, tail: seq<byte>)
    requires f.Fraction? ==> AllDigits(f.digits) && f.digits != []
    ensures var r := ParseFraction(DigitsValue(whole), FractionOnto(f, tail));
            if FractionGoesOn(f, tail) then |r.2| < |tail|
            else r == (DigitsValue(whole + FractionDigits(f)), -|FractionDigits(f)|, tail)
  {
    if f.Fraction? {
      Uncons(DOT, f.digits + tail);
      if IsDigit(Peek(tail)) { MoreDigits(whole, f.digits, tail); } else { ScanAll(whole, f.digits, tail); }
    } else {
      assert whole + [] == whole;
    }
  }

  lemma WholeParses(whole: seq<byte>, tail: seq<byte>)
    requires AllDigits(whole) && (|whole| >= 2 && whole[0] == ZERO ==> whole[1] != ZERO)
    ensures var s2 := if Peek(whole + tail) == ZERO then (whole + tail)[1..] else whole + tail;
            var r := if ZERO < Peek(s2) <= NINE then ScanDigits(0, s2) else (0, s2);
            if WholeGoesOn(whole, tail) then |r.1| < |tail| else r == (DigitsValue(whole), tail)
  {
    hide ScanDigits, DigitsValue;
    NoDigits();
    if whole == [] {
      assert whole + tail == tail;
      if IsDigit(Peek(tail)) { MoreDigits([], [], tail); }
    } else if whole[0] == ZERO {
      var more := whole[1..];
      assert whole == [ZERO] + more && (whole + tail)[1..] == more + tail;
      assert DigitsValue([ZERO]) == 0 by { ZeroDigit(); }
      if more == [] { assert more + tail == tail && whole == [ZERO]; }
      if IsDigit(Peek(tail)) { MoreDigits([ZERO], more, tail); } else { ScanAll([ZERO], more, tail); }
    } else if IsDigit(Peek(tail)) {
      MoreDigits([], whole, tail);
    } else {
      ScanFresh(whole, tail);
    }
  }

  lemma ZeroDigit()
    ensures DigitsValue([ZERO]) == 0
  {
    NoDigits();
    assert [ZERO][..0] == [];
  }

  lemma NegativeQuotient(a: int, p: real)
    requires p > 0.0
    ensures (-a) as real / p == -(a as real / p)
  {}

  /** Scaling all the digits at once gives the number the places give. */
  lemma NumeralScaled(n: Numeral)
    ensures var all: int := DigitsValue(n.whole + FractionDigits(n.fraction));
            Scaled(if n.negative then -all else all, -|FractionDigits(n.fraction)| + ExponentPower(n.exponent)) ==
            NumeralValue(n)
  {
    hide DigitsValue, FractionValue, Power10, Scaled;
    var f := FractionDigits(n.fraction);
    var k := |f|;
    var all: int := DigitsValue(n.whole + f);
    var x := if n.negative then -all else all;
    AllDigitsValue(n.whole, f);
    NegativeQuotient(all, Power10(k) as real);
    ScaledDown(x, k);
    if n.exponent.Exponent? {
      var e := DigitsValue(n.exponent.digits);
      if n.exponent.sign.MinusSign? {
        ScaledShift(x, -k - e, e);
        Quotient(Scaled(x, -k - e), Power10(e) as real, Scaled(x, -k));
      } else {
        ScaledShift(x, -k, e);
      }
    }
  }

  /** A numeral in front of any rest is read to its end and no further, unless the rest continues it. */
  lemma NumeralParses(n: Numeral, rest: seq<byte>)
    requires AcceptedNumeral(n)
    ensures var r := ParseNumber(NumeralOnto(n, rest));
            if Continues(n, rest) then |r.1| < |rest| else r == (NumeralValue(n), rest)
    ensures StartsNumber(NumeralOnto(n, rest))
  {
    hide ParseNumber, ParseFraction, ParseExponent, ScanDigits, DigitsValue, FractionOnto, ExponentOnto, Scaled,
         NumeralOnto, NumeralValue, WholeGoesOn, FractionGoesOn, ExponentGoesOn;
    var tail := ExponentOnto(n.exponent, rest);
    var after := FractionOnto(n.fraction, tail);
    TailsOfNumeral(n, rest);
    WholeParses(n.whole, after);
    FractionParses(n.whole, n.fraction, tail);
    ExponentParses(n.exponent, rest);
    NumeralScaled(n);
    var s1 := n.whole + after;
    var s2 := if Peek(s1) == ZERO then s1[1..] else s1;
    var (w, s3) := if ZERO < Peek(s2) <= NINE then ScanDigits(0, s2) else (0, s2);
    var (f, scale, s4) := ParseFraction(w, s3);
    var (e, s5) := ParseExponent(s4);
    NumberSteps(NumeralOnto(n, rest), n.negative, s1, w, s3, f, scale, s4, e, s5);
  }

  /** Only the last part of a numeral can be read on. */
  lemma TailsOfNumeral(n: Numeral, rest: seq<byte>)
    requires AcceptedNumeral(n)
    ensures var tail := ExponentOnto(n.exponent, rest);
            var after := FractionOnto(n.fraction, tail);
            var s := NumeralOnto(n, rest);
            && (WholeGoesOn(n.whole, after) ==> after == rest)
            && (FractionGoesOn(n.fraction, tail) ==> tail == rest)
            && (Continues(n, rest) <==> WholeGoesOn(n.whole, after) || FractionGoesOn(n.fraction, tail)
                                        || ExponentGoesOn(n.exponent, rest))
            && n.negative == (Peek(s) == MINUS)
            && n.whole + after == (if n.negative then s[1..] else s)
            && StartsNumber(s)
  {
    var s1 := n.whole + FractionOnto(n.fraction, ExponentOnto(n.exponent, rest));
    if n.negative { Uncons(MINUS, s1); } else { assert [] + s1 == s1 && Peek(s1) == n.whole[0]; }
  }

  // Strings ------------------------------------------------------------------

  lemma ParseHex4IsCodeUnit(s: seq<byte>)
    requires HasHex4(s)
    ensures ParseHex4(s) == CodeUnit(s) < 0x10000
  {
    ShlTimes(HexVal(s[0]), 4);
    var h := 16 * HexVal(s[0]) + HexVal(s[1]);
    ShlTimes(h, 4);
    ShlTimes(16 * h + HexVal(s[2]), 4);
  }

  lemma SingleOnto(h: seq<byte>, rest: seq<byte>)
    requires |h| == 4
    ensures var s := [BACKSLASH, U] + (h + rest);
            s[0] == BACKSLASH && s[1] == U && s[6..] == rest && At(s, 6) == Peek(rest) && At(s, 7) == At(rest, 1)
  {}

  /** What the decoder makes of one escape that starts no pair. */
  lemma SingleEscape(h: seq<byte>, rest: seq<byte>)
    requires |h| == 4 && HasHex4(h)
    requires IsHighSurrogate(CodeUnit(h)) ==> !(Peek(rest) == BACKSLASH && At(rest, 1) == U)
    ensures UnicodeEscape([BACKSLASH, U] + (h + rest)) ==
      Ok(if CodeUnit(h) == 0 || 0xD800 <= CodeUnit(h) < 0xE000 then [] else WriteUtf8(CodeUnit(h)), rest)
  {
    hide ParseHex4, CodeUnit, WriteUtf8;
    var s := [BACKSLASH, U] + (h + rest);
    assert s[2..] == h + rest;
    ParseHex4Prefix(h, s[2..]);
    ParseHex4IsCodeUnit(h);
    SingleOnto(h, rest);
  }

  lemma PairOnto(h: seq<byte>, l: seq<byte>, rest: seq<byte>)
    requires |h| == |l| == 4
    ensures var s := [BACKSLASH, U] + (h + ([BACKSLASH, U] + (l + rest)));
            At(s, 6) == BACKSLASH && At(s, 7) == U && s[12..] == rest
  {}

  /** And of a high surrogate in front of another escape. */
  lemma PairEscape(h: seq<byte>, l: seq<byte>, rest: seq<byte>)
    requires |h| == 4 && HasHex4(h) && |l| == 4 && HasHex4(l) && IsHighSurrogate(CodeUnit(h))
    ensures UnicodeEscape([BACKSLASH, U] + (h + ([BACKSLASH, U] + (l + rest)))) ==
      Ok(if IsLowSurrogate(CodeUnit(l)) then WriteUtf8(PairValue(CodeUnit(h), CodeUnit(l))) else [], rest)
  {
    hide ParseHex4, CodeUnit, WriteUtf8, CombineSurrogates;
    var s := [BACKSLASH, U] + (h + ([BACKSLASH, U] + (l + rest)));
    assert s[2..] == h + ([BACKSLASH, U] + (l + rest));
    assert s[8..] == l + rest;
    ParseHex4Prefix(h, s[2..]);
    ParseHex4Prefix(l, s[8..]);
    ParseHex4IsCodeUnit(h);
    ParseHex4IsCodeUnit(l);
    PairOnto(h, l, rest);
    assert s[12..] == rest;
    if IsLowSurrogate(CodeUnit(l)) { CombineIsRfc2781(CodeUnit(h), CodeUnit(l)); }
  }

  /** How `StringBody` goes on behind an escape. */
  lemma AfterEscape(s: seq<byte>, head: seq<byte>, t: seq<byte>, out: seq<byte>, rest: seq<byte>)
    requires Peek(s) == BACKSLASH && At(s, 1) == U
    requires UnicodeEscape(s) == Ok(head, t) && StringBody(t) == Ok(out, rest)
    ensures StringBody(s) == Ok(head + out, rest)
  {}

  /** A string ends at a quote or at the end of the text. */
  predicate EndsString(s: seq<byte>) {
    Peek(s) == QUOTE || Peek(s) == NUL
  }

  function BehindString(s: seq<byte>): seq<byte> {
    if Peek(s) == QUOTE then s[1..] else s
  }

  lemma BodyEnds(s: seq<byte>)
    requires EndsString(s)
    ensures StringBody(s) == Ok([], BehindString(s))
  {}

  lemma {:induction false} CharsParse(chars: seq<Char>, close: seq<byte>)
    requires AcceptedChars(chars) && EndsString(close)
    ensures StringBody(CharsOnto(chars, close)) == Ok(StringValue(chars), BehindString(close))
  {
    hide StringBody, UnicodeEscape, WriteUtf8, CodeUnit, HasHex4, EndsString, BehindString;
    if chars == [] {
      BodyEnds(close);
    } else {
      var tail, rest := CharsOnto(chars[1..], close), BehindString(close);
      assert AcceptedChar(chars[0]);
      CharsParse(chars[1..], close);
      match chars[0]
      case Raw(c) => RawParses(c, tail, StringValue(chars[1..]), rest);
      case Short(c) => ShortParses(c, tail, StringValue(chars[1..]), rest);
      case Unit(h) =>
        if IsHighSurrogate(CodeUnit(h)) && |chars| > 1 && chars[1].Unit? {
          assert chars[1..][1..] == chars[2..] && AcceptedChar(chars[1]);
          CharsParse(chars[2..], close);
          PairParses(h, chars[1].hex, CharsOnto(chars[2..], close), StringValue(chars[2..]), rest);
        } else {
          if IsHighSurrogate(CodeUnit(h)) { NextIsNoEscape(chars[1..], close); }
          UnitParses(h, tail, StringValue(chars[1..]), rest);
        }
    }
  }

  lemma RawParses(c: byte, tail: seq<byte>, out: seq<byte>, rest: seq<byte>)
    requires AcceptedChar(Raw(c)) && StringBody(tail) == Ok(out, rest)
    ensures StringBody([c] + tail) == Ok([c] + out, rest)
  {
    Uncons(c, tail);
  }

  lemma ShortParses(c: byte, tail: seq<byte>, out: seq<byte>, rest: seq<byte>)
    requires AcceptedChar(Short(c)) && StringBody(tail) == Ok(out, rest)
    ensures StringBody([BACKSLASH, c] + tail) == Ok([ShortValue(c)] + out, rest)
  {
    assert ([BACKSLASH, c] + tail)[2..] == tail;
  }

  lemma PairParses(h: seq<byte>, l: seq<byte>, more: seq<byte>, out: seq<byte>, rest: seq<byte>)
    requires |h| == 4 && HasHex4(h) && |l| == 4 && HasHex4(l) && IsHighSurrogate(CodeUnit(h))
    requires StringBody(more) == Ok(out, rest)
    ensures StringBody([BACKSLASH, U] + (h + ([BACKSLASH, U] + (l + more)))) ==
      Ok((if IsLowSurrogate(CodeUnit(l)) then WriteUtf8(PairValue(CodeUnit(h), CodeUnit(l))) else []) + out, rest)
  {
    PairEscape(h, l, more);
    AfterEscape([BACKSLASH, U] + (h + ([BACKSLASH, U] + (l + more))),
                if IsLowSurrogate(CodeUnit(l)) then WriteUtf8(PairValue(CodeUnit(h), CodeUnit(l))) else [],
                more, out, rest);
  }

  lemma UnitParses(h: seq<byte>, tail: seq<byte>, out: seq<byte>, rest: seq<byte>)
    requires |h| == 4 && HasHex4(h)
    requires IsHighSurrogate(CodeUnit(h)) ==> !(Peek(tail) == BACKSLASH && At(tail, 1) == U)
    requires StringBody(tail) == Ok(out, rest)
    ensures CodeUnit(h) < 0x10000
    ensures StringBody([BACKSLASH, U] + (h + tail)) ==
      Ok(if CodeUnit(h) == 0 || 0xD800 <= CodeUnit(h) < 0xE000 then out else WriteUtf8(CodeUnit(h)) + out, rest)
  {
    ParseHex4IsCodeUnit(h);
    SingleEscape(h, tail);
    var head := if CodeUnit(h) == 0 || 0xD800 <= CodeUnit(h) < 0xE000 then [] else WriteUtf8(CodeUnit(h));
    AfterEscape([BACKSLASH, U] + (h + tail), head, tail, out, rest);
    assert [] + out == out;
  }

  lemma NextIsNoEscape(chars: seq<Char>, close: seq<byte>)
    requires AcceptedChars(chars) && EndsString(close) && (chars == [] || !chars[0].Unit?)
    ensures var s := CharsOnto(chars, close);
            !(Peek(s) == BACKSLASH && At(s, 1) == U)
  {
    if chars != [] { assert AcceptedChar(chars[0]); }
  }

  lemma StringParses(chars: seq<Char>, rest: seq<byte>)
    requires AcceptedChars(chars)
    ensures ParseString(StringOnto(chars, rest)) == Ok(StringValue(chars), rest)
  {
    hide CharsOnto, StringBody, StringValue;
    Uncons(QUOTE, rest);
    CharsParse(chars, [QUOTE] + rest);
    Uncons(QUOTE, CharsOnto(chars, [QUOTE] + rest));
  }

  // Values -------------------------------------------------------------------

  lemma TreeStart(t: Tree, rest: seq<byte>)
    requires Accepted(t)
    ensures var c := Peek(TreeOnto(t, rest)); c > SPACE && c != RBRACKET && c != RBRACE
  {
    if t.NumberTree? {
      var n := t.numeral;
      var after := FractionOnto(n.fraction, ExponentOnto(n.exponent, rest));
      if !n.negative {
        assert NumeralOnto(n, rest) == n.whole + after;
        assert Peek(n.whole + after) == n.whole[0];
      }
    }
  }

  /** The value ends in a numeral that the rest continues, or in a string that is still open. */
  predicate ReadOn(t: Tree, rest: seq<byte>) {
    match t
    case NumberTree(n) => Continues(n, rest)
    case OpenString(_) => Peek(rest) != NUL
    case _ => false
  }

  lemma NothingReadOn(t: Tree, rest: seq<byte>)
    requires EndsValue(rest) && !t.OpenString?
    ensures !ReadOn(t, rest)
  {}

  lemma ScalarParses(t: Tree, rest: seq<byte>)
    requires Accepted(t)
    requires t.NullTree? || t.FalseTree? || t.TrueTree? || t.NumberTree? || t.StringTree?
    ensures ParseValue(TreeOnto(t, rest)) == Ok(Value(t), rest) <==> !ReadOn(t, rest)
  {
    hide ParseNumber, ParseString, NumeralOnto, CharsOnto, Continues, NumeralValue, StringValue;
    var s := TreeOnto(t, rest);
    match t
    case NullTree => assert NULL_TEXT <= s && s[4..] == rest;
    case FalseTree => assert FALSE_TEXT <= s && s[5..] == rest; assert s[0] == 102;
    case TrueTree => assert TRUE_TEXT <= s && s[4..] == rest; assert s[0] == 116;
    case NumberTree(n) =>
      NumeralParses(n, rest);
      NumberDispatch(s);
    case StringTree(chars) =>
      StringParses(chars, rest);
      StringDispatch(s, StringValue(chars), rest);
  }

  /** Every value of the grammar, in front of any rest, is read to its end, unless the rest continues its number. */
  lemma {:induction false} TreeParses(t: Tree, rest: seq<byte>)
    requires Accepted(t)
    ensures ParseValue(TreeOnto(t, rest)) == Ok(Value(t), rest) <==> !ReadOn(t, rest)
    decreases t, 0
  {
    match t
    case EmptyArray(pad) =>
      var close := [RBRACKET] + rest;
      Uncons(RBRACKET, rest);
      Uncons(LBRACKET, SpacesOnto(pad, close));
      SpacesThen(pad, close);
      ValueSteps(TreeOnto(t, rest), close);
    case EmptyObject(pad) =>
      var close := [RBRACE] + rest;
      Uncons(RBRACE, rest);
      Uncons(LBRACE, SpacesOnto(pad, close));
      SpacesThen(pad, close);
      ValueSteps(TreeOnto(t, rest), close);
    case ArrayTree(items) =>
      var body := ItemsOnto(items, rest);
      Uncons(LBRACKET, body);
      ItemsStart(items, rest);
      ItemsParse(items, rest);
      ElementsSkip(body);
      ValueSteps(TreeOnto(t, rest), Skip(body));
    case ObjectTree(fields) =>
      var body := FieldsOnto(fields, rest);
      Uncons(LBRACE, body);
      FieldsStart(fields, rest);
      FieldsParse(fields, rest);
      LoopsSkip([], body);
      ValueSteps(TreeOnto(t, rest), Skip(body));
    case NullTree | FalseTree | TrueTree | NumberTree(_) | StringTree(_) => ScalarParses(t, rest);
  }

  lemma ElementsSkip(s: seq<byte>)
    ensures ParseElements(Skip(s)) == ParseElements(s)
  {}

  lemma ItemStart(x: Item, rest: seq<byte>)
    requires AcceptedItem(x)
    ensures Skip(ItemOnto(x, rest)) == TreeOnto(x.value, SpacesOnto(x.after, rest))
    ensures Peek(Skip(ItemOnto(x, rest))) != RBRACKET
  {
    TreeStart(x.value, SpacesOnto(x.after, rest));
    SpacesThen(x.before, TreeOnto(x.value, SpacesOnto(x.after, rest)));
  }

  lemma ItemsStart(items: seq<Item>, rest: seq<byte>)
    requires items != [] && AcceptedItems(items)
    ensures Peek(Skip(ItemsOnto(items, rest))) != RBRACKET
  {
    ItemStart(items[0], if |items| == 1 then [RBRACKET] + rest else [COMMA] + ItemsOnto(items[1..], rest));
  }

  /** One element and the mark behind it. */
  lemma ItemParses(x: Item, s: seq<byte>, after: seq<byte>)
    requires AcceptedItem(x) && Peek(after) in {COMMA, RBRACKET} && s == ItemOnto(x, after)
    ensures Peek(after) == RBRACKET ==> ParseElements(s) == Ok([Value(x.value)], after[1..])
    ensures Peek(after) == COMMA && ParseElements(after[1..]).Ok? ==>
      ParseElements(s) == Ok([Value(x.value)] + ParseElements(after[1..]).value, ParseElements(after[1..]).rest)
    decreases x, 1
  {
    var b := SpacesOnto(x.after, after);
    ItemStart(x, after);
    SpacesEnd(x.after, after);
    NothingReadOn(x.value, b);
    TreeParses(x.value, b);
    SpacesThen(x.after, after);
    ElementSteps(s, TreeOnto(x.value, b), Value(x.value), b, after);
  }

  lemma {:induction false} ItemsParse(items: seq<Item>, rest: seq<byte>)
    requires items != [] && AcceptedItems(items)
    ensures ParseElements(ItemsOnto(items, rest)) == Ok(ItemsValue(items), rest)
    decreases items, 2
  {
    if |items| == 1 {
      Uncons(RBRACKET, rest);
      ItemParses(items[0], ItemsOnto(items, rest), [RBRACKET] + rest);
      assert ItemsValue(items) == [Value(items[0].value)];
    } else {
      Uncons(COMMA, ItemsOnto(items[1..], rest));
      ItemsParse(items[1..], rest);
      ItemParses(items[0], ItemsOnto(items, rest), [COMMA] + ItemsOnto(items[1..], rest));
    }
  }

  lemma FieldsStart(fields: seq<Field>, rest: seq<byte>)
    requires fields != [] && AcceptedFields(fields)
    ensures Peek(Skip(FieldsOnto(fields, rest))) == QUOTE
  {
    var x := fields[0];
    var after := if |fields| == 1 then [RBRACE] + rest else [COMMA] + FieldsOnto(fields[1..], rest);
    SpacesThen(x.before, StringOnto(x.name, SpacesOnto(x.beforeColon,
      [COLON] + SpacesOnto(x.afterColon, TreeOnto(x.value, SpacesOnto(x.after, after))))));
  }

  lemma FieldParses(x: Field, after: seq<byte>)
    requires AcceptedField(x) && Peek(after) in {COMMA, RBRACE}
    ensures ParseMember(FieldOnto(x, after)) == Ok(Member(StringValue(x.name), Value(x.value)), after)
    decreases x, 1
  {
    var f := SpacesOnto(x.after, after);
    var e := TreeOnto(x.value, f);
    var d := SpacesOnto(x.afterColon, e);
    var c := [COLON] + d;
    var b := SpacesOnto(x.beforeColon, c);
    var a := StringOnto(x.name, b);
    SpacesThen(x.before, a);
    StringParses(x.name, b);
    SpacesThen(x.beforeColon, c);
    Uncons(COLON, d);
    TreeStart(x.value, f);
    SpacesThen(x.afterColon, e);
    SpacesEnd(x.after, after);
    NothingReadOn(x.value, f);
    TreeParses(x.value, f);
    SpacesThen(x.after, after);
    MemberSteps(FieldOnto(x, after), a, StringValue(x.name), b, c, d, e, Value(x.value), f);
  }

  lemma {:induction false} FieldsParse(fields: seq<Field>, rest: seq<byte>)
    requires fields != [] && AcceptedFields(fields)
    ensures ParseMembers(FieldsOnto(fields, rest)) == Ok(FieldsValue(fields), rest)
    decreases fields, 2
  {
    if |fields| == 1 {
      Uncons(RBRACE, rest);
      FieldParses(fields[0], [RBRACE] + rest);
      MembersSteps(FieldsOnto(fields, rest), FieldsValue(fields)[0], [RBRACE] + rest);
      assert FieldsValue(fields) == [FieldsValue(fields)[0]];
    } else {
      var after := [COMMA] + FieldsOnto(fields[1..], rest);
      Uncons(COMMA, FieldsOnto(fields[1..], rest));
      FieldParses(fields[0], after);
      FieldsParse(fields[1..], rest);
      MembersSteps(FieldsOnto(fields, rest), FieldsValue(fields)[0], after);
    }
  }

  // Main results -------------------------------------------------------------

  /** The outermost value: a string may be open there. */
  lemma OutermostParses(t: Tree, rest: seq<byte>)
    requires AcceptedWhole(t) && !ReadOn(t, rest)
    ensures ParseValue(TreeOnto(t, rest)) == Ok(Value(t), rest)
  {
    hide StringBody, CharsOnto, StringValue;
    if t.OpenString? {
      var s := CharsOnto(t.chars, rest);
      CharsParse(t.chars, rest);
      Uncons(QUOTE, s);
      StringDispatch([QUOTE] + s, StringValue(t.chars), rest);
    } else {
      TreeParses(t, rest);
    }
  }

  /** Every accepted document is read up to the terminator. */
  lemma DocumentParses(d: Document, rest: seq<byte>)
    requires AcceptedDocument(d) && Peek(rest) == NUL
    ensures ParseWithOpts(DocumentOnto(d, rest), true) == Ok(Value(d.value), rest)
  {
    hide TreeOnto, Value, Accepted;
    var end := SpacesOnto(d.after, rest);
    SpacesEnd(d.after, rest);
    WholeStart(d.value, end);
    SpacesThen(d.before, TreeOnto(d.value, end));
    if !d.value.OpenString? { NothingReadOn(d.value, end); }
    OutermostParses(d.value, end);
    SpacesThen(d.after, rest);
  }

  lemma WholeStart(t: Tree, rest: seq<byte>)
    requires AcceptedWhole(t)
    ensures Peek(TreeOnto(t, rest)) > SPACE
  {
    if !t.OpenString? { TreeStart(t, rest); }
  }

  /** Every JSON text is accepted to its end, and its value is the one the grammar gives. */
  lemma AcceptsEveryJsonText(d: Document)
    requires ValidDocument(d, false)
    ensures ParseWithOpts(DocumentText(d), true) == Ok(Value(d.value), [])
  {
    ValidIsAccepted(d.value);
    DocumentParses(d, []);
  }

  /**
   The `\u` form of a character, in whatever letter case, decodes to the bytes
   section 3 of RFC 3629 requires.
   */
  lemma EscapeOfBasicCharacter(cp: nat, h: seq<byte>, rest: seq<byte>)
    requires IsScalar(cp) && cp < 0x10000 && |h| == 4 && HasHex4(h) && CodeUnit(h) == cp
    ensures exists out :: UnicodeEscape([BACKSLASH, U] + (h + rest)) == Ok(out, rest) && EncodedBy(cp, out)
  {
    SingleEscape(h, rest);
    WriteUtf8Encodes(cp);
  }

  lemma EscapeOfSupplementaryCharacter(cp: nat, h: seq<byte>, l: seq<byte>, rest: seq<byte>)
    requires 0x10000 <= cp < 0x110000 && |h| == 4 && HasHex4(h) && |l| == 4 && HasHex4(l)
    requires CodeUnit(h) == HighHalf(cp) && CodeUnit(l) == LowHalf(cp)
    ensures exists out ::
      UnicodeEscape([BACKSLASH, U] + (h + ([BACKSLASH, U] + (l + rest)))) == Ok(out, rest) && EncodedBy(cp, out)
  {
    PairEscape(h, l, rest);
    assert PairValue(HighHalf(cp), LowHalf(cp)) == cp;
    WriteUtf8Encodes(cp);
  }
}
