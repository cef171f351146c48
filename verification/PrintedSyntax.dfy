/**
 What the printers write is JSON by the grammar of RFC 8259, and minifying the
 formatted text gives the unformatted one.
 */
module PrintedSyntax {
  import opened CText
  import opened Decimal
  import opened Unicode
  import opened JsonValue
  import opened Parser
  import opened Printer
  import opened RoundTrip
  import opened Grammar
  import opened Completeness
  import Minify

  // The syntax tree of a printed value ----------------------------------------------

  ghost function Whites(s: seq<byte>): (ws: seq<Space>)
    ensures |ws| == |s| && forall i :: 0 <= i < |s| ==> ws[i] == White(s[i])
  {
    seq(|s|, i requires 0 <= i < |s| => White(s[i]))
  }

  ghost function CharOf(c: byte): Char {
    if c > 31 && c != QUOTE && c != BACKSLASH then Raw(c)
    else if |EscapeTail(c)| == 1 then Short(EscapeTail(c)[0])
    else Unit(Hex4(c))
  }

  ghost function CharsOf(s: seq<byte>): seq<Char> {
    if s == [] then [] else [CharOf(s[0])] + CharsOf(s[1..])
  }

  ghost function NumeralOf(n: int): Numeral {
    Numeral(n < 0, Digits(if n < 0 then -n else n), NoFraction, NoExponent)
  }

  ghost function Syntax(v: Json, depth: nat, fmt: bool): Tree
    decreases v, 0
  {
    match v
    case Null => NullTree
    case False => FalseTree
    case True => TrueTree
    case Number(d) => NumberTree(NumeralOf(d.Floor))
    case String(s) => StringTree(CharsOf(s))
    case Array(items) => if items == [] then EmptyArray([]) else ArrayTree(SyntaxItems(items, depth + 1, fmt, []))
    case Object(ms) =>
      if ms == [] then EmptyObject(Whites(When(fmt, [NEWLINE] + Tabs(depth - 1))))
      else ObjectTree(SyntaxFields(ms, depth + 1, fmt))
  }

  ghost function SyntaxItems(items: seq<Json>, depth: nat, fmt: bool, pad: seq<byte>): (r: seq<Item>)
    ensures |r| == |items|
    decreases items, 1
  {
    if items == [] then []
    else [Item(Whites(pad), Syntax(items[0], depth, fmt), [])] + SyntaxItems(items[1..], depth, fmt, When(fmt, [SPACE]))
  }

  ghost function FieldOf(m: Member, depth: nat, fmt: bool, last: bool): Field
    decreases m, 1
  {
    Field(Whites(When(fmt, [NEWLINE] + Tabs(depth))), CharsOf(m.name), [], Whites(When(fmt, [TAB])),
          Syntax(m.value, depth, fmt), Whites(When(fmt && last, [NEWLINE] + Tabs(depth - 1))))
  }

  ghost function SyntaxFields(ms: seq<Member>, depth: nat, fmt: bool): (r: seq<Field>)
    ensures |r| == |ms|
    decreases ms, 2
  {
    if ms == [] then [] else [FieldOf(ms[0], depth, fmt, |ms| == 1)] + SyntaxFields(ms[1..], depth, fmt)
  }

  // Its text is what is printed ---------------------------------------------------------

  lemma {:induction false} WhitesOnto(s: seq<byte>, rest: seq<byte>)
    ensures SpacesOnto(Whites(s), rest) == s + rest
  {
    if s == [] {
      assert s + rest == rest;
    } else {
      WhitesOnto(s[1..], rest);
      assert Whites(s)[1..] == Whites(s[1..]);
      assert s + rest == [s[0]] + (s[1..] + rest);
    }
  }

  lemma CharOfOnto(c: byte, rest: seq<byte>)
    ensures CharOnto(CharOf(c), rest) == EscapeByte(c) + rest
  {
    if |EscapeTail(c)| == 1 {
      assert EscapeTail(c) == [EscapeTail(c)[0]];
    } else {
      assert [BACKSLASH] + ([U] + Hex4(c)) + rest == [BACKSLASH, U] + (Hex4(c) + rest);
    }
  }

  lemma NothingOnto(rest: seq<byte>)
    ensures Escape([]) == [] && CharsOnto([], rest) == rest
  {}

  lemma CharsOntoCons(x: Char, chars: seq<Char>, rest: seq<byte>)
    ensures CharsOnto([x] + chars, rest) == CharOnto(x, CharsOnto(chars, rest))
  {
    assert ([x] + chars)[1..] == chars;
  }

  lemma EscapeCons(s: seq<byte>, rest: seq<byte>)
    requires s != []
    ensures Escape(s) + rest == EscapeByte(s[0]) + (Escape(s[1..]) + rest)
  {
    hide EscapeByte;
  }

  lemma {:induction false} CharsOfOnto(s: seq<byte>, rest: seq<byte>)
    ensures CharsOnto(CharsOf(s), rest) == Escape(s) + rest
  {
    hide CharOf, EscapeByte, CharOnto, Escape, CharsOnto;
    if s == [] {
      assert Escape(s) == [] && CharsOnto([], rest) == rest by { NothingOnto(rest); }
    } else {
      CharsOfOnto(s[1..], rest);
      CharOfOnto(s[0], Escape(s[1..]) + rest);
      CharsOntoCons(CharOf(s[0]), CharsOf(s[1..]), rest);
      EscapeCons(s, rest);
    }
  }

  lemma NameOnto(s: seq<byte>, rest: seq<byte>)
    ensures StringOnto(CharsOf(s), rest) == Quoted(s) + rest
  {
    hide Escape, CharsOf, CharsOnto;
    CharsOfOnto(s, [QUOTE] + rest);
    RegroupMarks([QUOTE], Escape(s), [QUOTE], rest);
  }

  lemma NumeralOfOnto(n: int, rest: seq<byte>)
    ensures NumeralOnto(NumeralOf(n), rest) == IntText(n) + rest
  {
    if n < 0 { assert [MINUS] + Digits(-n) + rest == [MINUS] + (Digits(-n) + rest); }
    else { assert [] + (Digits(n) + rest) == Digits(n) + rest; }
  }

  lemma NumberTextIs(d: real)
    ensures NumberText(d) == IntText(d.Floor)
  {}

  lemma {:induction false} SyntaxOnto(v: Json, depth: nat, fmt: bool, rest: seq<byte>)
    ensures TreeOnto(Syntax(v, depth, fmt), rest) == Onto(v, depth, fmt, rest)
    decreases v, 0
  {
    hide ItemsOnto, FieldsOnto, ElementsOnto, MembersOnto, StringOnto, Quoted, NumeralOnto, NumberText, Tabs,
         SyntaxItems, SyntaxFields;
    match v
    case Number(d) =>
      assert NumberText(d) == IntText(d.Floor) by { NumberTextIs(d); }
      NumeralOfOnto(d.Floor, rest);
    case String(s) => NameOnto(s, rest);
    case Array(items) =>
      if items != [] {
        ItemsAreOnto(items, depth + 1, fmt, [], rest);
        var more := ElementsOnto(items, depth + 1, fmt, [RBRACKET] + rest);
        assert [] + more == more;
      }
    case Object(ms) =>
      if ms == [] {
        WhitesOnto(When(fmt, [NEWLINE] + Tabs(depth - 1)), [RBRACE] + rest);
      } else {
        FieldsAreOnto(ms, depth + 1, fmt, rest);
      }
    case _ =>
  }

  lemma {:induction false} ItemsAreOnto(items: seq<Json>, depth: nat, fmt: bool, pad: seq<byte>, rest: seq<byte>)
    requires items != []
    ensures ItemsOnto(SyntaxItems(items, depth, fmt, pad), rest) ==
            pad + ElementsOnto(items, depth, fmt, [RBRACKET] + rest)
    decreases items, 1
  {
    var its := SyntaxItems(items, depth, fmt, pad);
    if |items| == 1 {
      SyntaxOnto(items[0], depth, fmt, [RBRACKET] + rest);
      WhitesOnto(pad, Onto(items[0], depth, fmt, [RBRACKET] + rest));
    } else {
      var sp := When(fmt, [SPACE]);
      var more := ElementsOnto(items[1..], depth, fmt, [RBRACKET] + rest);
      ItemsAreOnto(items[1..], depth, fmt, sp, rest);
      assert its[1..] == SyntaxItems(items[1..], depth, fmt, sp);
      SyntaxOnto(items[0], depth, fmt, [COMMA] + (sp + more));
      WhitesOnto(pad, Onto(items[0], depth, fmt, [COMMA] + (sp + more)));
    }
  }

  lemma Indented(depth: nat, fmt: bool, s: seq<byte>)
    ensures When(fmt, [NEWLINE] + Tabs(depth)) + s == When(fmt, [NEWLINE]) + (When(fmt, Tabs(depth)) + s)
  {}

  lemma FieldIsOnto(m: Member, depth: nat, fmt: bool, last: bool, rest: seq<byte>)
    ensures FieldOnto(FieldOf(m, depth, fmt, last), rest) ==
            When(fmt, [NEWLINE]) + MemberOnto(m, depth, fmt, When(fmt && last, [NEWLINE] + Tabs(depth - 1)) + rest)
    decreases m, 1
  {
    hide Tabs, Quoted, Onto, TreeOnto, StringOnto, CharsOf, Syntax, Whites;
    var pad, tab := When(fmt, [NEWLINE] + Tabs(depth)), When(fmt, [TAB]);
    var after := When(fmt && last, [NEWLINE] + Tabs(depth - 1));
    WhitesOnto(after, rest);
    SyntaxOnto(m.value, depth, fmt, after + rest);
    var value := Onto(m.value, depth, fmt, after + rest);
    WhitesOnto(tab, value);
    NameOnto(m.name, [COLON] + (tab + value));
    var name := Quoted(m.name) + ([COLON] + (tab + value));
    WhitesOnto(pad, name);
    Indented(depth, fmt, name);
  }

  lemma {:induction false} FieldsAreOnto(ms: seq<Member>, depth: nat, fmt: bool, rest: seq<byte>)
    requires ms != []
    ensures FieldsOnto(SyntaxFields(ms, depth, fmt), rest) ==
            When(fmt, [NEWLINE]) + MembersOnto(ms, depth, fmt, When(fmt, Tabs(depth - 1)) + ([RBRACE] + rest))
    decreases ms, 2
  {
    var nl, close := When(fmt, [NEWLINE]), When(fmt, Tabs(depth - 1)) + ([RBRACE] + rest);
    var fs := SyntaxFields(ms, depth, fmt);
    if |ms| == 1 {
      FieldIsOnto(ms[0], depth, fmt, true, [RBRACE] + rest);
      Closing(depth, fmt, rest);
    } else {
      FieldsAreOnto(ms[1..], depth, fmt, rest);
      assert fs[1..] == SyntaxFields(ms[1..], depth, fmt);
      var more := [COMMA] + (nl + MembersOnto(ms[1..], depth, fmt, close));
      FieldIsOnto(ms[0], depth, fmt, false, more);
      assert [] + more == more;
    }
  }

  lemma Closing(depth: nat, fmt: bool, rest: seq<byte>)
    ensures When(fmt, [NEWLINE] + Tabs(depth - 1)) + ([RBRACE] + rest) ==
            When(fmt, [NEWLINE]) + (When(fmt, Tabs(depth - 1)) + ([RBRACE] + rest))
  {}

  // It is valid and stands for the value --------------------------------------------------

  lemma BlankPad(s: seq<byte>)
    requires forall i :: 0 <= i < |s| ==> IsWhite(s[i])
    ensures PlainSpaces(Whites(s))
  {}

  lemma {:induction false} DigitsMean(n: nat)
    ensures DigitsValue(Digits(n)) == n && AllDigits(Digits(n))
    decreases n
  {
    if n >= 10 {
      DigitsMean(n / 10);
      var ds := Digits(n);
      assert ds[..|ds| - 1] == Digits(n / 10);
    } else {
      assert DigitsValue([]) == 0;
    }
  }

  lemma NumeralMeans(n: int)
    ensures ValidNumeral(NumeralOf(n)) && NumeralValue(NumeralOf(n)) == n as real
  {
    var m := if n < 0 then -n else n;
    DigitsMean(m);
    DigitsStart(m);
    assert Digits(m) + [] == Digits(m);
  }

  lemma CharMeans(c: byte, more: seq<Char>)
    requires c != NUL && ValidChars(more)
    ensures ValidChar(CharOf(c)) && StringValue([CharOf(c)] + more) == [c] + StringValue(more)
  {
    hide Hex4, WriteUtf8, CodeUnit;
    var chars := [CharOf(c)] + more;
    assert chars[1..] == more;
    if CharOf(c).Unit? { ControlUnit(c); }
  }

  lemma ControlUnit(c: byte)
    requires c < 32
    ensures |Hex4(c)| == 4 && CodeUnit(Hex4(c)) == c && WriteUtf8(c) == [c]
  {
    hide WriteUtf8, ParseHex4, CodeUnit, HexDigit;
    ParseHex4OfHex4(c);
    ParseHex4IsCodeUnit(Hex4(c));
    WriteUtf8Encodes(c);
  }

  lemma {:induction false} CharsMean(s: seq<byte>)
    requires NulFree(s)
    ensures ValidChars(CharsOf(s)) && StringValue(CharsOf(s)) == s
  {
    if s != [] {
      CharsMean(s[1..]);
      CharMeans(s[0], CharsOf(s[1..]));
      assert [s[0]] + s[1..] == s;
    }
  }

  lemma {:induction false} SyntaxMeans(v: Json, depth: nat, fmt: bool)
    requires Printable(v)
    ensures Valid(Syntax(v, depth, fmt), false) && Value(Syntax(v, depth, fmt)) == v
    decreases v, 0
  {
    match v
    case Number(d) => NumeralMeans(d.Floor);
    case String(s) => CharsMean(s);
    case Array(items) => if items != [] { ItemsMean(items, depth + 1, fmt, []); }
    case Object(ms) =>
      if ms == [] { BlankPad(When(fmt, [NEWLINE] + Tabs(depth - 1))); } else { FieldsMean(ms, depth + 1, fmt); }
    case _ =>
  }

  lemma {:induction false} ItemsMean(items: seq<Json>, depth: nat, fmt: bool, pad: seq<byte>)
    requires forall i :: 0 <= i < |items| ==> Printable(items[i])
    requires forall i :: 0 <= i < |pad| ==> IsWhite(pad[i])
    ensures ValidItems(SyntaxItems(items, depth, fmt, pad), false)
    ensures ItemsValue(SyntaxItems(items, depth, fmt, pad)) == items
    decreases items, 1
  {
    hide Printable, Syntax, Whites, Value, Valid;
    if items != [] {
      SyntaxMeans(items[0], depth, fmt);
      BlankPad(pad);
      ItemsMean(items[1..], depth, fmt, When(fmt, [SPACE]));
      var its := SyntaxItems(items, depth, fmt, pad);
      assert its[1..] == SyntaxItems(items[1..], depth, fmt, When(fmt, [SPACE]));
      assert ValidItem(its[0], false);
    }
  }

  lemma FieldMeans(m: Member, depth: nat, fmt: bool, last: bool)
    requires NulFree(m.name) && Printable(m.value)
    ensures var f := FieldOf(m, depth, fmt, last);
            ValidField(f, false) && StringValue(f.name) == m.name && Value(f.value) == m.value
    decreases m, 1
  {
    CharsMean(m.name);
    SyntaxMeans(m.value, depth, fmt);
    BlankPad(When(fmt, [NEWLINE] + Tabs(depth)));
    BlankPad(When(fmt, [TAB]));
    BlankPad(When(fmt && last, [NEWLINE] + Tabs(depth - 1)));
  }

  lemma {:induction false} FieldsMean(ms: seq<Member>, depth: nat, fmt: bool)
    requires forall i :: 0 <= i < |ms| ==> NulFree(ms[i].name) && Printable(ms[i].value)
    ensures ValidFields(SyntaxFields(ms, depth, fmt), false)
    ensures FieldsValue(SyntaxFields(ms, depth, fmt)) == ms
    decreases ms, 2
  {
    hide Printable, Syntax, Whites, Value, Valid, FieldOf, NulFree;
    if ms != [] {
      FieldMeans(ms[0], depth, fmt, |ms| == 1);
      FieldsMean(ms[1..], depth, fmt);
      var fs := SyntaxFields(ms, depth, fmt);
      assert fs[1..] == SyntaxFields(ms[1..], depth, fmt);
      assert ValidField(fs[0], false);
    }
  }

  // Without its gaps it is the unformatted one ----------------------------------------------

  lemma {:induction false} StripUnformats(v: Json, depth: nat, fmt: bool, depth': nat)
    ensures Minify.Strip(Syntax(v, depth, fmt)) == Syntax(v, depth', false)
    decreases v, 0
  {
    hide SyntaxItems, SyntaxFields, Whites, CharsOf, NumeralOf, Tabs;
    match v
    case Array(items) => if items != [] { StripItemsUnformats(items, depth + 1, fmt, [], depth' + 1); }
    case Object(ms) => if ms != [] { StripFieldsUnformats(ms, depth + 1, fmt, depth' + 1); }
    case _ =>
  }

  lemma {:induction false} StripItemsUnformats(items: seq<Json>, depth: nat, fmt: bool, pad: seq<byte>, depth': nat)
    ensures Minify.StripItems(SyntaxItems(items, depth, fmt, pad)) == SyntaxItems(items, depth', false, [])
    decreases items, 1
  {
    if items != [] {
      StripUnformats(items[0], depth, fmt, depth');
      StripItemsUnformats(items[1..], depth, fmt, When(fmt, [SPACE]), depth');
      var its := SyntaxItems(items, depth, fmt, pad);
      assert its[1..] == SyntaxItems(items[1..], depth, fmt, When(fmt, [SPACE]));
    }
  }

  lemma {:induction false} StripFieldsUnformats(ms: seq<Member>, depth: nat, fmt: bool, depth': nat)
    ensures Minify.StripFields(SyntaxFields(ms, depth, fmt)) == SyntaxFields(ms, depth', false)
    decreases ms, 2
  {
    if ms != [] {
      StripUnformats(ms[0].value, depth, fmt, depth');
      StripFieldsUnformats(ms[1..], depth, fmt, depth');
      var fs := SyntaxFields(ms, depth, fmt);
      assert fs[1..] == SyntaxFields(ms[1..], depth, fmt);
    }
  }

  // No text of a string is shorter ------------------------------------------------------------

  lemma {:induction false} EscapeJoin(a: seq<byte>, b: seq<byte>)
    ensures Escape(a + b) == Escape(a) + Escape(b)
  {
    hide EscapeByte;
    if a == [] {
      assert a + b == b && Escape(a) + Escape(b) == Escape(b);
    } else {
      EscapeJoin(a[1..], b);
      assert (a + b)[1..] == a[1..] + b;
      assert Escape(a) + Escape(b) == EscapeByte(a[0]) + (Escape(a[1..]) + Escape(b));
    }
  }

  lemma OneEscape(c: byte)
    ensures Escape([c]) == EscapeByte(c) && 1 <= |EscapeByte(c)| <= 6
  {
    assert [c][1..] == [] && EscapeByte(c) + [] == EscapeByte(c);
  }

  lemma {:induction false} HighBytesStay(s: seq<byte>)
    requires forall i :: 0 <= i < |s| ==> s[i] >= 0x80
    ensures Escape(s) == s
  {
    if s != [] { HighBytesStay(s[1..]); }
  }

  /** A character takes no more than an escape of six bytes. */
  lemma CharacterTakes(cp: nat)
    requires cp < 0x110000
    ensures |Escape(WriteUtf8(cp))| <= 6
  {
    hide WriteUtf8, Escape, EscapeByte;
    var s := WriteUtf8(cp);
    WriteUtf8Encodes(cp);
    if |s| == 1 {
      assert s == [s[0]];
      OneEscape(s[0]);
    } else {
      HighBytesStay(s);
    }
  }

  /** Every way to write one byte is at least as long as the printer's. */
  lemma ByteTakes(x: Char)
    requires ValidChar(x) && !x.Unit?
    ensures |EscapeByte(if x.Raw? then x.c else ShortValue(x.c))| <= |CharOnto(x, [])|
  {}

  lemma CharsLength(chars: seq<Char>)
    requires chars != []
    ensures |CharsOnto(chars, [])| == |CharOnto(chars[0], [])| + |CharsOnto(chars[1..], [])|
  {
    hide CharsOnto;
    assert CharsOnto(chars, []) == CharOnto(chars[0], CharsOnto(chars[1..], [])) by { CharsOntoHead(chars); }
  }

  lemma CharsOntoHead(chars: seq<Char>)
    requires chars != []
    ensures CharsOnto(chars, []) == CharOnto(chars[0], CharsOnto(chars[1..], []))
  {}

  /** Of all JSON texts of a string the printer writes a shortest one. */
  lemma {:induction false} ShortestEscape(chars: seq<Char>)
    requires ValidChars(chars)
    ensures |Escape(StringValue(chars))| <= |CharsOnto(chars, [])|
  {
    hide Escape, EscapeByte, WriteUtf8, CharsOnto, CodeUnit;
    if chars == [] {
      EscapeOfNothing();
    } else {
      var x, tail := chars[0], StringValue(chars[1..]);
      assert ValidChar(x);
      CharsLength(chars);
      ShortestEscape(chars[1..]);
      if x.Unit? {
        var u := CodeUnit(x.hex);
        if IsHighSurrogate(u) && |chars| > 1 && chars[1].Unit? {
          assert ValidChar(chars[1]) && chars[1..][1..] == chars[2..];
          CharsLength(chars[1..]);
          ShortestEscape(chars[2..]);
          var l := CodeUnit(chars[1].hex);
          if IsLowSurrogate(l) {
            CharacterTakes(PairValue(u, l));
            EscapeJoin(WriteUtf8(PairValue(u, l)), StringValue(chars[2..]));
          } else {
            assert [] + StringValue(chars[2..]) == StringValue(chars[2..]);
          }
        } else if u != 0 && !IsLowSurrogate(u) && !IsHighSurrogate(u) {
          CharacterTakes(u);
          EscapeJoin(WriteUtf8(u), tail);
        }
      } else {
        var c := if x.Raw? then x.c else ShortValue(x.c);
        ByteTakes(x);
        OneEscape(c);
        EscapeJoin([c], tail);
      }
    }
  }

  lemma EscapeOfNothing()
    ensures Escape([]) == []
  {}

  // Main results -----------------------------------------------------------------------------

  ghost function PrintedDocument(v: Json, fmt: bool): Document {
    Document([], Syntax(v, 0, fmt), [])
  }

  /** Whatever is printed is a JSON text that denotes the printed value. */
  lemma PrintedIsJson(v: Json, fmt: bool)
    requires Printable(v)
    ensures var d := PrintedDocument(v, fmt);
            ValidDocument(d, false) && DocumentText(d) == Text(v, 0, fmt) && Value(d.value) == v
  {
    SyntaxOnto(v, 0, fmt, []);
    OntoIsText(v, 0, fmt, []);
    SyntaxMeans(v, 0, fmt);
    assert Text(v, 0, fmt) + [] == Text(v, 0, fmt);
  }

  /** Minifying what `cJSON_Print` writes gives what `cJSON_PrintUnformatted` writes. */
  lemma MinifyUnformats(v: Json)
    requires Printable(v)
    ensures Minify.Minify(Print(v)) == Minify.Done(PrintUnformatted(v))
  {
    var d := PrintedDocument(v, true);
    PrintedIsJson(v, true);
    PrintedIsJson(v, false);
    Minify.PlainIsValid(d.value);
    Minify.MinifiedIsStripped(d);
    StripUnformats(v, 0, true, 0);
  }
}
