/**
 The parser takes nothing but accepted trees: whatever it reads is the text of
 one, so a text that fits none is refused. Together with `Completeness` this
 says for every text what becomes of it.
 */
module Acceptance {
  import opened CText
  import opened Decimal
  import opened Unicode
  import opened JsonValue
  import opened Parser
  import opened RoundTrip
  import opened Grammar
  import opened Completeness

  // White space --------------------------------------------------------------

  lemma {:induction false} SkippedSpaces(s: seq<byte>) returns (ws: seq<Space>)
    ensures Blanks(ws) && s == SpacesOnto(ws, Skip(s))
  {
    if 0 < Peek(s) <= SPACE {
      var more := SkippedSpaces(s[1..]);
      ws := [White(s[0])] + more;
      assert ws[1..] == more;
    } else {
      ws := [];
    }
  }

  // Numbers ------------------------------------------------------------------

  lemma {:induction false} ScannedDigits(n: int, s: seq<byte>) returns (ds: seq<byte>)
    ensures AllDigits(ds) && s == ds + ScanDigits(n, s).1
    ensures IsDigit(Peek(s)) ==> ds != [] && ds[0] == s[0]
    decreases |s|
  {
    if IsDigit(Peek(s)) {
      var more := ScannedDigits(n * 10 + (s[0] - ZERO), s[1..]);
      ds := [s[0]] + more;
    } else {
      ds := [];
    }
  }

  /** The digits from one to nine on, if there are any. */
  lemma ReadFrom(s: seq<byte>) returns (ds: seq<byte>)
    ensures AllDigits(ds) && (ds != [] ==> ds[0] != ZERO) && (ZERO < Peek(s) <= NINE ==> ds != [])
    ensures s == ds + (if ZERO < Peek(s) <= NINE then ScanDigits(0, s) else (0, s)).1
  {
    hide ScanDigits, AllDigits;
    if ZERO < Peek(s) <= NINE {
      ds := ScannedDigits(0, s);
    } else {
      ds := [];
      NoneIsAllDigits();
    }
  }

  lemma NoneIsAllDigits()
    ensures AllDigits([])
  {}

  lemma LeadingZero(ds: seq<byte>, rest: seq<byte>)
    requires AllDigits(ds)
    ensures AllDigits([ZERO] + ds) && [ZERO] + ds + rest == [ZERO] + (ds + rest)
  {}

  lemma ReadWhole(s1: seq<byte>) returns (whole: seq<byte>)
    ensures var s2 := if Peek(s1) == ZERO then s1[1..] else s1;
            var r := if ZERO < Peek(s2) <= NINE then ScanDigits(0, s2) else (0, s2);
            s1 == whole + r.1
    ensures AllDigits(whole) && (|whole| >= 2 && whole[0] == ZERO ==> whole[1] != ZERO)
    ensures IsDigit(Peek(s1)) ==> whole != []
  {
    hide ScanDigits, AllDigits;
    var s2 := if Peek(s1) == ZERO then s1[1..] else s1;
    var ds := ReadFrom(s2);
    if Peek(s1) == ZERO {
      assert s1 == [ZERO] + s2;
      LeadingZero(ds, (if ZERO < Peek(s2) <= NINE then ScanDigits(0, s2) else (0, s2)).1);
      whole := [ZERO] + ds;
    } else {
      whole := ds;
    }
  }

  lemma ReadFraction(n: int, s: seq<byte>) returns (f: Fraction)
    ensures f.Fraction? ==> AllDigits(f.digits) && f.digits != []
    ensures s == FractionOnto(f, ParseFraction(n, s).2)
  {
    hide ScanDigits;
    if Peek(s) == DOT && IsDigit(At(s, 1)) {
      var ds := ScannedDigits(n, s[1..]);
      f := Fraction.Fraction(ds);
    } else {
      f := NoFraction;
    }
  }

  lemma ReadExponent(s: seq<byte>) returns (e: Exponent)
    ensures e.Exponent? ==> AllDigits(e.digits) && e.mark in {69, 101}
    ensures s == ExponentOnto(e, ParseExponent(s).1)
  {
    hide ScanDigits;
    if Peek(s) == 101 || Peek(s) == 69 {
      var t := s[1..];
      var sign := if Peek(t) == PLUS then PlusSign else if Peek(t) == MINUS then MinusSign else NoSign;
      var u := if sign.NoSign? then t else t[1..];
      var ds := ScannedDigits(0, u);
      assert t == SignText(sign) + u;
      e := Exponent.Exponent(s[0], sign, ds);
    } else {
      e := NoExponent;
    }
  }

  /** What `parse_number` reads is an accepted numeral, and the rest does not continue it. */
  lemma ReadNumeral(s: seq<byte>) returns (n: Numeral)
    requires StartsNumber(s)
    ensures AcceptedNumeral(n) && s == NumeralOnto(n, ParseNumber(s).1) && !Continues(n, ParseNumber(s).1)
  {
    hide ParseNumber, ParseFraction, ParseExponent, ScanDigits, FractionOnto, ExponentOnto, Continues, NumeralValue;
    var negative := Peek(s) == MINUS;
    var s1 := if negative then s[1..] else s;
    var s2 := if Peek(s1) == ZERO then s1[1..] else s1;
    var (w, s3) := if ZERO < Peek(s2) <= NINE then ScanDigits(0, s2) else (0, s2);
    var (f, scale, s4) := ParseFraction(w, s3);
    var (e, s5) := ParseExponent(s4);
    NumberSteps(s, negative, s1, w, s3, f, scale, s4, e, s5);
    var whole := ReadWhole(s1);
    var fraction := ReadFraction(w, s3);
    var exponent := ReadExponent(s4);
    n := Numeral.Numeral(negative, whole, fraction, exponent);
    if negative { assert s == [MINUS] + s1; } else { assert s == [] + s1; }
    NumeralParses(n, s5);
  }

  // Strings ------------------------------------------------------------------

  lemma CharsMore(x: Char, chars: seq<Char>, close: seq<byte>)
    requires AcceptedChar(x) && AcceptedChars(chars)
    ensures AcceptedChars([x] + chars) && CharsOnto([x] + chars, close) == CharOnto(x, CharsOnto(chars, close))
  {
    assert ([x] + chars)[1..] == chars;
  }

  lemma UnitText(s: seq<byte>)
    requires Peek(s) == BACKSLASH && At(s, 1) == U && HasHex4(s[2..])
    ensures |s[2..6]| == 4 && HasHex4(s[2..6]) && s == CharOnto(Unit(s[2..6]), s[6..])
  {
    assert s[2..] == s[2..6] + s[6..];
  }

  /** The second escape of a pair. */
  lemma SecondUnit(s: seq<byte>)
    requires Peek(s) == BACKSLASH && At(s, 1) == U && At(s, 6) == BACKSLASH && At(s, 7) == U && HasHex4(s[8..])
    ensures Peek(s[6..]) == BACKSLASH && At(s[6..], 1) == U && HasHex4(s[6..][2..]) && s[6..][6..] == s[12..]
  {
    assert s[6..][2..] == s[8..];
  }

  /** The rest is that of the escape decoder, which takes one escape or two. */
  lemma EscapeSpan(s: seq<byte>) returns (two: bool)
    requires Peek(s) == BACKSLASH && At(s, 1) == U && UnicodeEscape(s).Ok?
    ensures HasHex4(s[2..])
    ensures two ==> At(s, 6) == BACKSLASH && At(s, 7) == U && HasHex4(s[8..])
    ensures UnicodeEscape(s).rest == if two then s[12..] else s[6..]
  {
    hide ParseHex4, CombineSurrogates, WriteUtf8;
    var uc := ParseHex4(s[2..]);
    two := !IsLowSurrogate(uc) && uc != 0 && IsHighSurrogate(uc) && At(s, 6) == BACKSLASH && At(s, 7) == U;
  }

  lemma {:induction false} ReadChars(s: seq<byte>) returns (chars: seq<Char>, close: seq<byte>)
    requires StringBody(s).Ok?
    ensures AcceptedChars(chars) && EndsString(close) && s == CharsOnto(chars, close)
    ensures StringBody(s).rest == BehindString(close)
    decreases |s|
  {
    hide UnicodeEscape, HasHex4;
    if EndsString(s) {
      chars, close := [], s;
    } else if s[0] != BACKSLASH {
      chars, close := ReadChars(s[1..]);
      CharsMore(Raw(s[0]), chars, close);
      chars := [Raw(s[0])] + chars;
    } else if At(s, 1) != U {
      chars, close := ReadChars(s[2..]);
      CharsMore(Short(s[1]), chars, close);
      chars := [Short(s[1])] + chars;
    } else {
      var two := EscapeSpan(s);
      chars, close := ReadChars(UnicodeEscape(s).rest);
      if two {
        SecondUnit(s);
        UnitText(s[6..]);
        CharsMore(Unit(s[6..][2..6]), chars, close);
        chars := [Unit(s[6..][2..6])] + chars;
      }
      UnitText(s);
      CharsMore(Unit(s[2..6]), chars, close);
      chars := [Unit(s[2..6])] + chars;
    }
  }

  // Values -------------------------------------------------------------------

  /** A value that has text behind it is closed. */
  predicate Reads(t: Tree, s: seq<byte>, rest: seq<byte>) {
    AcceptedWhole(t) && s == TreeOnto(t, rest) && !ReadOn(t, rest)
  }

  lemma ReadString(s: seq<byte>) returns (t: Tree)
    requires Peek(s) == QUOTE && ParseString(s).Ok?
    ensures Reads(t, s, ParseString(s).rest) && (t.StringTree? || t.OpenString?)
  {
    hide StringBody, CharsOnto;
    var chars, close := ReadChars(s[1..]);
    assert s == [QUOTE] + s[1..];
    if Peek(close) == QUOTE {
      assert close == [QUOTE] + close[1..];
      t := StringTree(chars);
    } else {
      t := OpenString(chars);
    }
  }

  lemma ReadWord(s: seq<byte>) returns (t: Tree)
    requires NULL_TEXT <= s || FALSE_TEXT <= s || TRUE_TEXT <= s
    ensures ParseValue(s).Ok? && Reads(t, s, ParseValue(s).rest)
  {
    if NULL_TEXT <= s {
      t := NullTree;
      assert s == NULL_TEXT + s[4..];
    } else if FALSE_TEXT <= s {
      t := FalseTree;
      assert s == FALSE_TEXT + s[5..];
    } else {
      t := TrueTree;
      assert s == TRUE_TEXT + s[4..];
    }
  }

  lemma {:induction false} ReadValue(s: seq<byte>) returns (t: Tree)
    requires ParseValue(s).Ok?
    ensures Reads(t, s, ParseValue(s).rest)
    decreases |s|, 1
  {
    hide ParseNumber, StringBody, ParseString, ItemsOnto, FieldsOnto, NumeralOnto, CharsOnto, AcceptedNumeral,
         Continues, AcceptedItems, AcceptedFields;
    var rest := ParseValue(s).rest;
    if NULL_TEXT <= s || FALSE_TEXT <= s || TRUE_TEXT <= s {
      t := ReadWord(s);
    } else if Peek(s) == QUOTE {
      t := ReadString(s);
    } else if StartsNumber(s) {
      var n := ReadNumeral(s);
      t := NumberTree(n);
    } else if Peek(s) == LBRACKET {
      t := ReadArray(s);
    } else {
      t := ReadObject(s);
    }
  }

  lemma ReadArray(s: seq<byte>) returns (t: Tree)
    requires ParseValue(s).Ok? && Peek(s) == LBRACKET
    ensures Reads(t, s, ParseValue(s).rest)
    decreases |s|, 0
  {
    hide ItemsOnto, AcceptedItems, ParseElements, SpacesOnto, Blanks, NumeralOnto, CharsOnto, AcceptedNumeral,
         Continues, AcceptedChars, FieldsOnto, AcceptedFields, StringBody, ParseNumber, Skip;
    var body, u := s[1..], Skip(s[1..]);
    assert s == [LBRACKET] + body;
    if Peek(u) == RBRACKET {
      var pad := SkippedSpaces(body);
      assert u == [RBRACKET] + u[1..];
      t := EmptyArray(pad);
    } else {
      ElementsSkip(body);
      var items := ReadItems(body);
      t := ArrayTree(items);
    }
  }

  lemma ReadObject(s: seq<byte>) returns (t: Tree)
    requires ParseValue(s).Ok? && Peek(s) == LBRACE
    ensures Reads(t, s, ParseValue(s).rest)
    decreases |s|, 0
  {
    hide FieldsOnto, AcceptedFields, ParseMembers, SpacesOnto, Blanks, NumeralOnto, CharsOnto, AcceptedNumeral,
         Continues, AcceptedChars, ItemsOnto, AcceptedItems, StringBody, ParseNumber, Skip;
    var body, u := s[1..], Skip(s[1..]);
    assert s == [LBRACE] + body;
    if Peek(u) == RBRACE {
      var pad := SkippedSpaces(body);
      assert u == [RBRACE] + u[1..];
      t := EmptyObject(pad);
    } else {
      LoopsSkip([], body);
      var fields := ReadFields(body);
      t := ObjectTree(fields);
    }
  }

  /** An open string leaves nothing but the end of the text. */
  lemma Closed(t: Tree, s: seq<byte>, rest: seq<byte>)
    requires Reads(t, s, rest) && Peek(Skip(rest)) != NUL
    ensures Accepted(t) && !t.OpenString?
  {}

  lemma ReadItem(s: seq<byte>) returns (x: Item, after: seq<byte>)
    requires ParseElements(s).Ok?
    ensures AcceptedItem(x) && s == ItemOnto(x, after)
    ensures after == Skip(ParseValue(Skip(s)).rest) && (Peek(after) == COMMA || Peek(after) == RBRACKET)
    decreases |s|, 2
  {
    hide TreeOnto, Accepted, AcceptedWhole, ReadOn;
    var before := SkippedSpaces(s);
    var t := ReadValue(Skip(s));
    var rest := ParseValue(Skip(s)).rest;
    var pad := SkippedSpaces(rest);
    after := Skip(rest);
    Closed(t, Skip(s), rest);
    x := Item(before, t, pad);
  }

  lemma {:induction false} ReadItems(s: seq<byte>) returns (items: seq<Item>)
    requires ParseElements(s).Ok?
    ensures items != [] && AcceptedItems(items) && s == ItemsOnto(items, ParseElements(s).rest)
    decreases |s|, 3
  {
    hide ItemOnto, AcceptedItem, ParseValue;
    var x, after := ReadItem(s);
    assert after == [after[0]] + after[1..];
    if after[0] == COMMA {
      var more := ReadItems(after[1..]);
      items := [x] + more;
      assert items[1..] == more;
    } else {
      items := [x];
      assert items[1..] == [];
    }
  }

  lemma ReadField(s: seq<byte>) returns (x: Field)
    requires ParseMember(s).Ok? && Peek(ParseMember(s).rest) != NUL
    ensures AcceptedField(x) && s == FieldOnto(x, ParseMember(s).rest)
    decreases |s|, 2
  {
    hide TreeOnto, Accepted, AcceptedWhole, ReadOn, ParseValue, ParseString, StringOnto, AcceptedChars, CharsOnto;
    var before := SkippedSpaces(s);
    var b := ParseString(Skip(s)).rest;
    var beforeColon := SkippedSpaces(b);
    var c := Skip(b);
    var name := ReadName(Skip(s));
    assert c == [COLON] + c[1..];
    var afterColon := SkippedSpaces(c[1..]);
    var e := Skip(c[1..]);
    var t := ReadValue(e);
    var f := ParseValue(e).rest;
    var pad := SkippedSpaces(f);
    Closed(t, e, f);
    x := Field(before, name, beforeColon, afterColon, t, pad);
  }

  /** The name of a member is closed, or no colon could follow. */
  lemma ReadName(s: seq<byte>) returns (name: seq<Char>)
    requires ParseString(s).Ok? && Peek(Skip(ParseString(s).rest)) == COLON
    ensures AcceptedChars(name) && s == StringOnto(name, ParseString(s).rest)
  {
    hide StringBody, CharsOnto;
    var t := ReadString(s);
    name := t.chars;
  }

  lemma {:induction false} ReadFields(s: seq<byte>) returns (fields: seq<Field>)
    requires ParseMembers(s).Ok?
    ensures fields != [] && AcceptedFields(fields) && s == FieldsOnto(fields, ParseMembers(s).rest)
    decreases |s|, 3
  {
    hide FieldOnto, AcceptedField, ParseMember;
    var after := ParseMember(s).rest;
    var x := ReadField(s);
    assert after == [after[0]] + after[1..];
    if after[0] == COMMA {
      var more := ReadFields(after[1..]);
      fields := [x] + more;
      assert fields[1..] == more;
    } else {
      fields := [x];
      assert fields[1..] == [];
    }
  }

  // Broken escapes -------------------------------------------------------------

  /** A backslash in front of the terminator, or `\u` without four hex digits. */
  predicate BrokenAt(s: seq<byte>, i: nat) {
    At(s, i) == BACKSLASH && (At(s, i + 1) == NUL || (At(s, i + 1) == U && (|s| < i + 2 || !HasHex4(s[i + 2..]))))
  }

  predicate Sound(s: seq<byte>) {
    forall i :: 0 <= i < |s| ==> !BrokenAt(s, i)
  }

  lemma SoundFrom(s: seq<byte>, k: nat)
    requires Sound(s) && k <= |s|
    ensures Sound(s[k..])
  {
    var t := s[k..];
    forall i | 0 <= i < |t| ensures !BrokenAt(t, i) {
      assert !BrokenAt(s, k + i);
      if i + 2 <= |t| { assert t[i + 2..] == s[k + i + 2..]; }
    }
  }

  lemma {:induction false} SkipSound(s: seq<byte>)
    requires Sound(s)
    ensures Sound(Skip(s))
  {
    if 0 < Peek(s) <= SPACE {
      SoundFrom(s, 1);
      SkipSound(s[1..]);
    }
  }

  lemma {:induction false} ScanSound(n: int, s: seq<byte>)
    requires Sound(s)
    ensures Sound(ScanDigits(n, s).1)
    decreases |s|
  {
    if IsDigit(Peek(s)) {
      SoundFrom(s, 1);
      ScanSound(n * 10 + (s[0] - ZERO), s[1..]);
    }
  }

  lemma FractionSound(n: int, s: seq<byte>)
    requires Sound(s)
    ensures Sound(ParseFraction(n, s).2)
  {
    hide Sound;
    if Peek(s) == DOT && IsDigit(At(s, 1)) {
      SoundFrom(s, 1);
      ScanSound(n, s[1..]);
    }
  }

  lemma ExponentSound(s: seq<byte>)
    requires Sound(s)
    ensures Sound(ParseExponent(s).1)
  {
    hide Sound, ScanDigits;
    if Peek(s) == 101 || Peek(s) == 69 {
      var t := s[1..];
      SoundFrom(s, 1);
      if Peek(t) == PLUS || Peek(t) == MINUS {
        SoundFrom(t, 1);
        ScanSound(0, t[1..]);
      } else {
        ScanSound(0, t);
      }
    }
  }

  lemma NumberSound(s: seq<byte>)
    requires Sound(s)
    ensures Sound(ParseNumber(s).1)
  {
    hide Sound, ParseNumber, ParseFraction, ParseExponent, ScanDigits;
    var s1 := if Peek(s) == MINUS then s[1..] else s;
    if Peek(s) == MINUS { SoundFrom(s, 1); }
    var s2 := if Peek(s1) == ZERO then s1[1..] else s1;
    if Peek(s1) == ZERO { SoundFrom(s1, 1); }
    var (w, s3) := if ZERO < Peek(s2) <= NINE then ScanDigits(0, s2) else (0, s2);
    if ZERO < Peek(s2) <= NINE { ScanSound(0, s2); }
    var (f, scale, s4) := ParseFraction(w, s3);
    FractionSound(w, s3);
    var (e, s5) := ParseExponent(s4);
    ExponentSound(s4);
    NumberSteps(s, Peek(s) == MINUS, s1, w, s3, f, scale, s4, e, s5);
  }

  lemma EscapeSound(s: seq<byte>)
    requires Sound(s) && Peek(s) == BACKSLASH && At(s, 1) == U
    ensures UnicodeEscape(s).Ok? && Sound(UnicodeEscape(s).rest)
  {
    hide ParseHex4, CombineSurrogates, WriteUtf8, IsHex;
    assert !BrokenAt(s, 0);
    if At(s, 6) == BACKSLASH { assert !BrokenAt(s, 6); }
    SoundFrom(s, 6);
    if |s| >= 12 { SoundFrom(s, 12); }
  }

  lemma {:induction false} BodySound(s: seq<byte>)
    requires Sound(s)
    ensures StringBody(s).Ok? && Sound(StringBody(s).rest)
    decreases |s|
  {
    hide UnicodeEscape, Sound;
    if Peek(s) == QUOTE {
      SoundFrom(s, 1);
    } else if Peek(s) != NUL {
      if s[0] != BACKSLASH {
        SoundFrom(s, 1);
        BodySound(s[1..]);
      } else {
        NotBrokenAt(s, 0);
        if At(s, 1) != U {
          SoundFrom(s, 2);
          BodySound(s[2..]);
        } else {
          EscapeSound(s);
          BodySound(UnicodeEscape(s).rest);
        }
      }
    }
  }

  lemma NotBrokenAt(s: seq<byte>, i: nat)
    requires Sound(s) && i < |s|
    ensures !BrokenAt(s, i)
  {}

  /** Without a broken escape the parser stays inside the text, whatever the text is. */
  lemma {:induction false} ValueSound(s: seq<byte>)
    requires Sound(s)
    ensures !ParseValue(s).Undef? && (ParseValue(s).Ok? ==> Sound(ParseValue(s).rest))
    decreases |s|, 0
  {
    hide Sound, StringBody, ParseNumber;
    if s != [] { SoundFrom(s, 1); }
    if |s| >= 4 { SoundFrom(s, 4); }
    if |s| >= 5 { SoundFrom(s, 5); }
    if Peek(s) == QUOTE {
      BodySound(s[1..]);
    } else if StartsNumber(s) {
      NumberSound(s);
    } else if Peek(s) == LBRACKET || Peek(s) == LBRACE {
      var t := Skip(s[1..]);
      SkipSound(s[1..]);
      if t != [] { SoundFrom(t, 1); }
      if Peek(s) == LBRACKET { ElementsSound(t); } else { MembersSound(t); }
    }
  }

  lemma {:induction false} ElementsSound(s: seq<byte>)
    requires Sound(s)
    ensures !ParseElements(s).Undef? && (ParseElements(s).Ok? ==> Sound(ParseElements(s).rest))
    decreases |s|, 1
  {
    hide Sound, ParseValue;
    SkipSound(s);
    ValueSound(Skip(s));
    if ParseValue(Skip(s)).Ok? {
      var u := ParseValue(Skip(s)).rest;
      var t := Skip(u);
      SkipSound(u);
      if t != [] { SoundFrom(t, 1); }
      if Peek(t) == COMMA { ElementsSound(t[1..]); }
    }
  }

  lemma MemberSound(s: seq<byte>)
    requires Sound(s)
    ensures !ParseMember(s).Undef? && (ParseMember(s).Ok? ==> Sound(ParseMember(s).rest))
    decreases |s|, 1
  {
    hide Sound, ParseValue, StringBody;
    var a := Skip(s);
    SkipSound(s);
    if Peek(a) == QUOTE {
      SoundFrom(a, 1);
      BodySound(a[1..]);
      var b := StringBody(a[1..]).rest;
      var c := Skip(b);
      SkipSound(b);
      if Peek(c) == COLON {
        SoundFrom(c, 1);
        SkipSound(c[1..]);
        var e := Skip(c[1..]);
        ValueSound(e);
        if ParseValue(e).Ok? { SkipSound(ParseValue(e).rest); }
      }
    }
  }

  lemma {:induction false} MembersSound(s: seq<byte>)
    requires Sound(s)
    ensures !ParseMembers(s).Undef? && (ParseMembers(s).Ok? ==> Sound(ParseMembers(s).rest))
    decreases |s|, 2
  {
    hide Sound, ParseMember;
    MemberSound(s);
    if ParseMember(s).Ok? {
      var t := ParseMember(s).rest;
      if t != [] { SoundFrom(t, 1); }
      if Peek(t) == COMMA { MembersSound(t[1..]); }
    }
  }

  // Main results -----------------------------------------------------------------

  /** A value and the text behind it are read exactly where the text is that of an accepted tree. */
  lemma ParsesIff(s: seq<byte>, v: Json, rest: seq<byte>)
    ensures ParseValue(s) == Ok(v, rest) <==> exists t :: Reads(t, s, rest) && Value(t) == v
  {
    hide ParseValue, TreeOnto, Value, AcceptedWhole, ReadOn;
    if ParseValue(s) == Ok(v, rest) {
      var t := ReadValue(s);
      OutermostParses(t, rest);
    }
    forall t | Reads(t, s, rest) && Value(t) == v ensures ParseValue(s) == Ok(v, rest) {
      OutermostParses(t, rest);
    }
  }

  /** And what no accepted tree fits is refused. */
  lemma RefusesIff(s: seq<byte>)
    requires Sound(s)
    ensures ParseValue(s) == Fail <==> forall t, rest :: !Reads(t, s, rest)
  {
    hide ParseValue, TreeOnto, Value, AcceptedWhole, ReadOn;
    ValueSound(s);
    if ParseValue(s).Ok? {
      var t := ReadValue(s);
      assert Reads(t, s, ParseValue(s).rest);
    }
    forall t, rest | Reads(t, s, rest) ensures ParseValue(s).Ok? {
      OutermostParses(t, rest);
    }
  }

  predicate ReadsDocument(d: Document, s: seq<byte>, rest: seq<byte>) {
    AcceptedDocument(d) && s == DocumentOnto(d, rest) && Peek(rest) == NUL
  }

  lemma ReadDocument(s: seq<byte>) returns (d: Document)
    requires ParseWithOpts(s, true).Ok?
    ensures ReadsDocument(d, s, ParseWithOpts(s, true).rest)
  {
    hide ParseValue, TreeOnto, ReadOn, Accepted, AcceptedChars;
    var before := SkippedSpaces(s);
    var rest := ParseValue(Skip(s)).rest;
    var t := ReadValue(Skip(s));
    var after := SkippedSpaces(rest);
    if t.OpenString? { OpenToTheEnd(t, Skip(s), rest); }
    d := Document(before, t, if t.OpenString? then [] else after);
  }

  lemma OpenToTheEnd(t: Tree, s: seq<byte>, rest: seq<byte>)
    requires Reads(t, s, rest) && t.OpenString?
    ensures Peek(rest) == NUL && Skip(rest) == rest && SpacesOnto([], rest) == rest
  {}

  /** With a terminator required, a text passes exactly if all of it is an accepted document. */
  lemma TerminatedIff(s: seq<byte>, v: Json, rest: seq<byte>)
    ensures ParseWithOpts(s, true) == Ok(v, rest) <==> exists d :: ReadsDocument(d, s, rest) && Value(d.value) == v
  {
    hide ParseWithOpts, DocumentOnto, Value, AcceptedDocument;
    if ParseWithOpts(s, true) == Ok(v, rest) {
      var d := ReadDocument(s);
      DocumentParses(d, rest);
    }
    forall d | ReadsDocument(d, s, rest) && Value(d.value) == v ensures ParseWithOpts(s, true) == Ok(v, rest) {
      DocumentParses(d, rest);
    }
  }

  /** And is refused exactly if it is none. */
  lemma TerminatedRefusesIff(s: seq<byte>)
    requires Sound(s)
    ensures ParseWithOpts(s, true) == Fail <==> forall d, rest :: !ReadsDocument(d, s, rest)
  {
    hide ParseValue, DocumentOnto, Value, AcceptedDocument;
    SkipSound(s);
    ValueSound(Skip(s));
    if ParseWithOpts(s, true).Ok? {
      var d := ReadDocument(s);
      assert ReadsDocument(d, s, ParseWithOpts(s, true).rest);
    }
    forall d, rest | ReadsDocument(d, s, rest) ensures ParseWithOpts(s, true).Ok? {
      DocumentParses(d, rest);
    }
  }

  /** Blanks, the text of an accepted tree, and what is left unread. */
  predicate ReadsFirst(before: seq<Space>, t: Tree, s: seq<byte>, rest: seq<byte>) {
    Blanks(before) && s == SpacesOnto(before, TreeOnto(t, rest)) && AcceptedWhole(t) && !ReadOn(t, rest)
  }

  lemma FirstParses(before: seq<Space>, t: Tree, s: seq<byte>, rest: seq<byte>)
    requires ReadsFirst(before, t, s, rest)
    ensures ParseWithOpts(s, false) == Ok(Value(t), rest)
  {
    hide ParseValue, TreeOnto, Value, AcceptedWhole, ReadOn;
    WholeStart(t, rest);
    SpacesThen(before, TreeOnto(t, rest));
    OutermostParses(t, rest);
  }

  lemma ReadFirst(s: seq<byte>) returns (before: seq<Space>, t: Tree)
    requires ParseWithOpts(s, false).Ok?
    ensures ReadsFirst(before, t, s, ParseWithOpts(s, false).rest)
  {
    hide ParseValue, TreeOnto, AcceptedWhole, ReadOn;
    before := SkippedSpaces(s);
    t := ReadValue(Skip(s));
  }

  /** Without that requirement the first value counts, and its end is given back. */
  lemma FirstValueIff(s: seq<byte>, v: Json, rest: seq<byte>)
    ensures ParseWithOpts(s, false) == Ok(v, rest) <==>
            exists before, t :: ReadsFirst(before, t, s, rest) && Value(t) == v
  {
    hide ParseWithOpts, ReadsFirst, Value;
    if ParseWithOpts(s, false) == Ok(v, rest) {
      var before, t := ReadFirst(s);
      FirstParses(before, t, s, rest);
    }
    forall before, t | ReadsFirst(before, t, s, rest) && Value(t) == v ensures ParseWithOpts(s, false) == Ok(v, rest) {
      FirstParses(before, t, s, rest);
    }
  }

  lemma FirstRefusesIff(s: seq<byte>)
    requires Sound(s)
    ensures ParseWithOpts(s, false) == Fail <==> forall before, t, rest :: !ReadsFirst(before, t, s, rest)
  {
    hide ParseValue, ReadsFirst, Value;
    SkipSound(s);
    ValueSound(Skip(s));
    if ParseWithOpts(s, false).Ok? {
      var before, t := ReadFirst(s);
      assert ReadsFirst(before, t, s, ParseWithOpts(s, false).rest);
    }
    forall before, t, rest | ReadsFirst(before, t, s, rest) ensures ParseWithOpts(s, false).Ok? {
      FirstParses(before, t, s, rest);
    }
  }
}
