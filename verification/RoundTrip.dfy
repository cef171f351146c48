/** Parsing a printed value gives the value back and stops where the text did. */
module RoundTrip {
  import opened CText
  import opened Decimal
  import opened Unicode
  import opened JsonValue
  import opened Parser
  import opened Printer

  /** `parse_number` would read on into `rest` behind the rendering of `d`. */
  predicate Extends(d: real, rest: seq<byte>) {
    || (IsDigit(Peek(rest)) && (d == 0.0 ==> Peek(rest) != ZERO))
    || (Peek(rest) == DOT && IsDigit(At(rest, 1)))
    || Peek(rest) == 101 || Peek(rest) == 69
  }

  // White space ------------------------------------------------------------

  predicate Blank(s: seq<byte>) {
    forall i :: 0 <= i < |s| ==> 0 < s[i] <= SPACE
  }

  lemma {:induction false} SkipBlank(ws: seq<byte>, s: seq<byte>)
    requires Blank(ws)
    ensures Skip(ws + s) == Skip(s)
  {
    if ws == [] {
      assert ws + s == s;
    } else {
      assert (ws + s)[1..] == ws[1..] + s;
      SkipBlank(ws[1..], s);
    }
  }

  // Numbers ----------------------------------------------------------------

  lemma {:induction false} ScanOfDigits(n: nat, rest: seq<byte>)
    ensures ScanDigits(0, Digits(n) + rest) == ScanDigits(n, rest)
    decreases n
  {
    if n < 10 {
      assert (Digits(n) + rest)[1..] == rest;
    } else {
      assert Digits(n) + rest == Digits(n / 10) + ([ZERO + n % 10] + rest);
      ScanOfDigits(n / 10, [ZERO + n % 10] + rest);
      assert ([ZERO + n % 10] + rest)[1..] == rest;
    }
  }

  lemma {:induction false} DigitsStart(n: nat)
    ensures if n == 0 then Digits(n) == [ZERO] else ZERO < Digits(n)[0] <= NINE
    decreases n
  {
    if n >= 10 { DigitsStart(n / 10); }
  }

  /** The digits of a number, and whatever digits follow. */
  lemma WholeOfDigits(m: nat, rest: seq<byte>)
    ensures var s1 := Digits(m) + rest;
            var s2 := if Peek(s1) == ZERO then s1[1..] else s1;
            var whole := if ZERO < Peek(s2) <= NINE then ScanDigits(0, s2) else (0, s2);
            && Peek(s1) == Digits(m)[0] && IsDigit(Peek(s1))
            && (if IsDigit(Peek(rest)) && (m == 0 ==> Peek(rest) != ZERO) then |whole.1| < |rest|
                else whole == (m, rest))
  {
    DigitsStart(m);
    if m == 0 {
      assert (Digits(m) + rest)[1..] == rest;
      if ZERO < Peek(rest) <= NINE { assert ScanDigits(0, rest) == ScanDigits(rest[0] - ZERO, rest[1..]); }
    } else {
      ScanOfDigits(m, rest);
    }
  }

  lemma FractionOrNone(n: int, s: seq<byte>)
    ensures if Peek(s) == DOT && IsDigit(At(s, 1)) then |ParseFraction(n, s).2| < |s|
            else ParseFraction(n, s) == (n, 0, s)
  {}

  lemma ExponentOrNone(s: seq<byte>)
    ensures if Peek(s) == 101 || Peek(s) == 69 then |ParseExponent(s).1| < |s| else ParseExponent(s) == (0, s)
  {}

  lemma ExtendsInt(n: int, rest: seq<byte>)
    ensures Extends(n as real, rest) <==>
            || (IsDigit(Peek(rest)) && (n == 0 ==> Peek(rest) != ZERO))
            || (Peek(rest) == DOT && IsDigit(At(rest, 1)))
            || Peek(rest) == 101 || Peek(rest) == 69
  {}

  lemma IntTextParses(n: int, rest: seq<byte>)
    ensures var r := ParseNumber(IntText(n) + rest);
            if Extends(n as real, rest) then |r.1| < |rest| else r == (n as real, rest)
    ensures StartsNumber(IntText(n) + rest)
  {
    hide ParseNumber, ParseFraction, ParseExponent, ScanDigits, Digits, Scaled, Extends;
    var s, m := IntText(n) + rest, if n < 0 then -n else n;
    var s1 := Digits(m) + rest;
    ExtendsInt(n, rest);
    WholeOfDigits(m, rest);
    if n < 0 { assert s == [MINUS] + s1; }
    var s2 := if Peek(s1) == ZERO then s1[1..] else s1;
    var (w, s3) := if ZERO < Peek(s2) <= NINE then ScanDigits(0, s2) else (0, s2);
    var (f, scale, s4) := ParseFraction(w, s3);
    var (e, s5) := ParseExponent(s4);
    FractionOrNone(w, s3);
    ExponentOrNone(s4);
    NumberSteps(s, n < 0, s1, w, s3, f, scale, s4, e, s5);
    Unscaled(n);
  }

  lemma NumberRoundTrip(d: real, rest: seq<byte>)
    requires IsInt32(d)
    ensures ParseNumber(NumberText(d) + rest) == (d, rest) <==> !Extends(d, rest)
    ensures StartsNumber(NumberText(d) + rest)
  {
    IntTextParses(d.Floor, rest);
  }

  // Strings ----------------------------------------------------------------

  lemma EscapeRoundTrip(c: byte, rest: seq<byte>)
    requires c != NUL
    ensures StringBody(EscapeByte(c) + rest) ==
      match StringBody(rest)
      case Ok(out, t) => Ok([c] + out, t)
      case x => x
  {
    hide Hex4, UnicodeEscape;
    var s := EscapeByte(c) + rest;
    if c > 31 && c != QUOTE && c != BACKSLASH {
      assert s[1..] == rest;
    } else if |EscapeTail(c)| == 1 {
      assert s[2..] == rest;
    } else {
      ControlEscapeRoundTrip(c, rest);
    }
  }

  lemma ControlEscapeRoundTrip(c: byte, rest: seq<byte>)
    requires 0 < c < 32
    ensures UnicodeEscape([BACKSLASH] + ([U] + Hex4(c)) + rest) == Ok([c], rest)
  {
    var s := [BACKSLASH] + ([U] + Hex4(c)) + rest;
    assert s[2..] == Hex4(c) + rest;
    ParseHex4Prefix(Hex4(c), s[2..]);
    ParseHex4OfHex4(c);
    assert s[6..] == rest;
    WriteUtf8Encodes(c);
  }

  /** Only the four digits count. */
  lemma ParseHex4Prefix(h: seq<byte>, s: seq<byte>)
    requires HasHex4(h) && |h| == 4 && h <= s
    ensures HasHex4(s) && ParseHex4(s) == ParseHex4(h)
  {}

  lemma StringEnds(rest: seq<byte>)
    ensures StringBody([QUOTE] + rest) == Ok([], rest)
  {
    assert ([QUOTE] + rest)[1..] == rest;
  }

  lemma {:induction false} StringRoundTrip(s: seq<byte>, rest: seq<byte>)
    requires NulFree(s)
    ensures StringBody(Escape(s) + [QUOTE] + rest) == Ok(s, rest)
  {
    hide StringBody, EscapeByte;
    if s == [] {
      assert Escape(s) + [QUOTE] + rest == [QUOTE] + rest;
      StringEnds(rest);
    } else {
      var tail := Escape(s[1..]) + [QUOTE] + rest;
      StringRoundTrip(s[1..], rest);
      EscapeRoundTrip(s[0], tail);
      assert Escape(s) + [QUOTE] + rest == EscapeByte(s[0]) + tail;
      assert [s[0]] + s[1..] == s;
    }
  }

  lemma QuotedRoundTrip(s: seq<byte>, rest: seq<byte>)
    requires NulFree(s)
    ensures ParseString(Quoted(s) + rest) == Ok(s, rest)
  {
    hide Escape, StringBody;
    StringRoundTrip(s, rest);
    assert Quoted(s) + rest == [QUOTE] + (Escape(s) + [QUOTE] + rest);
    Uncons(QUOTE, Escape(s) + [QUOTE] + rest);
  }

  // Renderings in front of a rest -------------------------------------------

  /** `Text(v, depth, fmt) + rest`, associated to the right. */
  ghost function Onto(v: Json, depth: nat, fmt: bool, rest: seq<byte>): seq<byte>
    decreases v, 0
  {
    match v
    case Array(items) =>
      [LBRACKET] + (if items == [] then [RBRACKET] + rest else ElementsOnto(items, depth + 1, fmt, [RBRACKET] + rest))
    case Object(ms) =>
      [LBRACE] + (if ms == [] then When(fmt, [NEWLINE] + Tabs(depth - 1)) + ([RBRACE] + rest)
                  else When(fmt, [NEWLINE])
                       + MembersOnto(ms, depth + 1, fmt, When(fmt, Tabs(depth)) + ([RBRACE] + rest)))
    case _ => Text(v, depth, fmt) + rest
  }

  ghost function ElementsOnto(items: seq<Json>, depth: nat, fmt: bool, rest: seq<byte>): seq<byte>
    requires items != []
    decreases items, 1
  {
    if |items| == 1 then Onto(items[0], depth, fmt, rest)
    else Onto(items[0], depth, fmt, [COMMA] + (When(fmt, [SPACE]) + ElementsOnto(items[1..], depth, fmt, rest)))
  }

  ghost function MemberOnto(m: Member, depth: nat, fmt: bool, rest: seq<byte>): seq<byte>
    decreases m, 1
  {
    When(fmt, Tabs(depth)) + (Quoted(m.name) + ([COLON] + (When(fmt, [TAB]) + Onto(m.value, depth, fmt, rest))))
  }

  ghost function MembersOnto(ms: seq<Member>, depth: nat, fmt: bool, rest: seq<byte>): seq<byte>
    requires ms != []
    decreases ms, 2
  {
    if |ms| == 1 then MemberOnto(ms[0], depth, fmt, When(fmt, [NEWLINE]) + rest)
    else MemberOnto(ms[0], depth, fmt, [COMMA] + (When(fmt, [NEWLINE]) + MembersOnto(ms[1..], depth, fmt, rest)))
  }

  lemma {:induction false} OntoIsText(v: Json, depth: nat, fmt: bool, rest: seq<byte>)
    ensures Onto(v, depth, fmt, rest) == Text(v, depth, fmt) + rest
    decreases v, 0
  {
    hide MembersText, MembersOnto, ElementsText, ElementsOnto, Tabs, When;
    match v
    case Array(items) =>
      if items != [] {
        ElementsOntoIsText(items, depth + 1, fmt, [RBRACKET] + rest);
        RegroupMarks([LBRACKET], ElementsText(items, depth + 1, fmt), [RBRACKET], rest);
      }
    case Object(ms) =>
      if ms == [] {
        RegroupMarks([LBRACE], When(fmt, [NEWLINE] + Tabs(depth - 1)), [RBRACE], rest);
      } else {
        var nl, ws := When(fmt, [NEWLINE]), When(fmt, Tabs(depth));
        MembersOntoIsText(ms, depth + 1, fmt, ws + ([RBRACE] + rest));
        RegroupObject([LBRACE], nl, MembersText(ms, depth + 1, fmt), ws, [RBRACE], rest);
      }
    case _ =>
  }

  lemma {:induction false} ElementsOntoIsText(items: seq<Json>, depth: nat, fmt: bool, rest: seq<byte>)
    requires items != []
    ensures ElementsOnto(items, depth, fmt, rest) == ElementsText(items, depth, fmt) + rest
    decreases items, 1
  {
    if |items| == 1 {
      OntoIsText(items[0], depth, fmt, rest);
    } else {
      ElementsOntoIsText(items[1..], depth, fmt, rest);
      var more := ElementsText(items[1..], depth, fmt);
      OntoIsText(items[0], depth, fmt, [COMMA] + (When(fmt, [SPACE]) + (more + rest)));
      Regroup(Text(items[0], depth, fmt), When(fmt, [SPACE]), more, rest);
    }
  }

  lemma RegroupMarks(a: seq<byte>, b: seq<byte>, c: seq<byte>, rest: seq<byte>)
    ensures (a + b + c) + rest == a + (b + (c + rest))
  {}

  lemma RegroupObject(a: seq<byte>, b: seq<byte>, c: seq<byte>, d: seq<byte>, e: seq<byte>, rest: seq<byte>)
    ensures (a + b + c + d + e) + rest == a + (b + (c + (d + (e + rest))))
  {}

  lemma Regroup(a: seq<byte>, b: seq<byte>, c: seq<byte>, rest: seq<byte>)
    ensures (a + [COMMA] + b + c) + rest == a + ([COMMA] + (b + (c + rest)))
  {}

  lemma MemberOntoIsText(m: Member, depth: nat, fmt: bool, rest: seq<byte>)
    ensures MemberOnto(m, depth, fmt, rest) == MemberText(m, depth, fmt) + rest
    decreases m, 1
  {
    hide Onto, Text, Quoted, Tabs, When;
    OntoIsText(m.value, depth, fmt, rest);
    RegroupObject(When(fmt, Tabs(depth)), Quoted(m.name), [COLON], When(fmt, [TAB]), Text(m.value, depth, fmt), rest);
  }

  lemma {:induction false} MembersOntoIsText(ms: seq<Member>, depth: nat, fmt: bool, rest: seq<byte>)
    requires ms != []
    ensures MembersOnto(ms, depth, fmt, rest) == MembersText(ms, depth, fmt) + rest
    decreases ms, 2
  {
    if |ms| == 1 {
      MemberOntoIsText(ms[0], depth, fmt, When(fmt, [NEWLINE]) + rest);
    } else {
      hide MemberText, MemberOnto, When;
      MembersOntoIsText(ms[1..], depth, fmt, rest);
      MemberOntoIsText(ms[0], depth, fmt, [COMMA] + (When(fmt, [NEWLINE]) + MembersOnto(ms[1..], depth, fmt, rest)));
      Regroup(MemberText(ms[0], depth, fmt), When(fmt, [NEWLINE]), MembersText(ms[1..], depth, fmt), rest);
    }
  }

  // The parser, pointer by pointer -------------------------------------------

  lemma SkipTo(ws: seq<byte>, s: seq<byte>)
    requires Blank(ws) && (Peek(s) > SPACE || Peek(s) == NUL)
    ensures Skip(ws + s) == s && Skip(s) == s
  {
    SkipBlank(ws, s);
  }

  lemma Uncons(c: byte, s: seq<byte>)
    ensures Peek([c] + s) == c && ([c] + s)[1..] == s
  {}

  lemma ValueSteps(s: seq<byte>, t: seq<byte>)
    requires s != [] && t == Skip(s[1..])
    ensures s[0] == LBRACKET && Peek(t) == RBRACKET ==> ParseValue(s) == Ok(Array([]), t[1..])
    ensures s[0] == LBRACE && Peek(t) == RBRACE ==> ParseValue(s) == Ok(Object([]), t[1..])
    ensures s[0] == LBRACKET && Peek(t) != RBRACKET && ParseElements(t).Ok? ==>
      ParseValue(s) == Ok(Array(ParseElements(t).value), ParseElements(t).rest)
    ensures s[0] == LBRACE && Peek(t) != RBRACE && ParseMembers(t).Ok? ==>
      ParseValue(s) == Ok(Object(ParseMembers(t).value), ParseMembers(t).rest)
  {}

  lemma ElementSteps(s: seq<byte>, a: seq<byte>, v: Json, b: seq<byte>, c: seq<byte>)
    requires Skip(s) == a && ParseValue(a) == Ok(v, b) && Skip(b) == c
    ensures Peek(c) == RBRACKET ==> ParseElements(s) == Ok([v], c[1..])
    ensures Peek(c) == COMMA && ParseElements(c[1..]).Ok? ==>
      ParseElements(s) == Ok([v] + ParseElements(c[1..]).value, ParseElements(c[1..]).rest)
  {}

  lemma MemberSteps(s: seq<byte>, a: seq<byte>, name: seq<byte>, b: seq<byte>, c: seq<byte>, d: seq<byte>,
                    e: seq<byte>, v: Json, rest: seq<byte>)
    requires Skip(s) == a && ParseString(a) == Ok(name, b)
    requires Skip(b) == c && Peek(c) == COLON && c[1..] == d
    requires Skip(d) == e && ParseValue(e) == Ok(v, rest)
    ensures ParseMember(s) == Ok(Member(name, v), Skip(rest))
  {}

  lemma MembersSteps(s: seq<byte>, m: Member, t: seq<byte>)
    requires ParseMember(s) == Ok(m, t)
    ensures Peek(t) == RBRACE ==> ParseMembers(s) == Ok([m], t[1..])
    ensures Peek(t) == COMMA && ParseMembers(t[1..]).Ok? ==>
      ParseMembers(s) == Ok([m] + ParseMembers(t[1..]).value, ParseMembers(t[1..]).rest)
  {}

  /** The loops over elements and members skip white space on entry. */
  lemma LoopsSkip(ws: seq<byte>, s: seq<byte>)
    requires Blank(ws)
    ensures ParseElements(ws + s) == ParseElements(s)
    ensures ParseMembers(ws + s) == ParseMembers(s)
    ensures ParseMembers(Skip(s)) == ParseMembers(s)
  {
    SkipBlank(ws, s);
    MemberLoopSkips(s, ws + s);
    MemberLoopSkips(s, Skip(s));
  }

  lemma MemberLoopSkips(s: seq<byte>, t: seq<byte>)
    requires Skip(s) == Skip(t)
    ensures ParseMembers(s) == ParseMembers(t)
  {
    assert ParseMember(s) == ParseMember(t);
  }

  lemma LastElement(s: seq<byte>, v: Json, rest: seq<byte>)
    requires Peek(s) > SPACE && ParseValue(s) == Ok(v, [RBRACKET] + rest)
    ensures ParseElements(s) == Ok([v], rest)
  {
    Uncons(RBRACKET, rest);
    SkipTo([], s);
    SkipTo([], [RBRACKET] + rest);
    ElementSteps(s, s, v, [RBRACKET] + rest, [RBRACKET] + rest);
  }

  lemma NextElement(s: seq<byte>, v: Json, ws: seq<byte>, more: seq<byte>, vs: seq<Json>, rest: seq<byte>)
    requires Peek(s) > SPACE && Blank(ws)
    requires ParseValue(s) == Ok(v, [COMMA] + (ws + more)) && ParseElements(more) == Ok(vs, rest)
    ensures ParseElements(s) == Ok([v] + vs, rest)
  {
    var c := [COMMA] + (ws + more);
    Uncons(COMMA, ws + more);
    SkipTo([], s);
    SkipTo([], c);
    LoopsSkip(ws, more);
    ElementSteps(s, s, v, c, c);
  }

  lemma LastMember(s: seq<byte>, m: Member, nl: seq<byte>, ws: seq<byte>, rest: seq<byte>)
    requires Blank(nl) && Blank(ws)
    requires ParseMember(s) == Ok(m, Skip(nl + (ws + ([RBRACE] + rest))))
    ensures ParseMembers(s) == Ok([m], rest)
  {
    var close := [RBRACE] + rest;
    Uncons(RBRACE, rest);
    SkipBlank(nl, ws + close);
    SkipTo(ws, close);
    MembersSteps(s, m, close);
  }

  lemma NextMember(s: seq<byte>, m: Member, ws: seq<byte>, more: seq<byte>, ms: seq<Member>, rest: seq<byte>)
    requires Blank(ws)
    requires ParseMember(s) == Ok(m, Skip([COMMA] + (ws + more))) && ParseMembers(more) == Ok(ms, rest)
    ensures ParseMembers(s) == Ok([m] + ms, rest)
  {
    var c := [COMMA] + (ws + more);
    Uncons(COMMA, ws + more);
    SkipTo([], c);
    LoopsSkip(ws, more);
    MembersSteps(s, m, c);
  }

  // Values -----------------------------------------------------------------

  /** No rendering starts with white space or a closing mark. */
  lemma TextStart(v: Json, depth: nat, fmt: bool, rest: seq<byte>)
    ensures var c := Peek(Onto(v, depth, fmt, rest)); c > SPACE && c != RBRACKET && c != RBRACE
  {
    if v.Number? {
      var n := v.value.Floor;
      DigitsStart(if n < 0 then -n else n);
    }
  }

  lemma ElementsStart(items: seq<Json>, depth: nat, fmt: bool, rest: seq<byte>)
    requires items != []
    ensures var c := Peek(ElementsOnto(items, depth, fmt, rest)); c > SPACE && c != RBRACKET
  {
    TextStart(items[0], depth, fmt, rest);
    if |items| > 1 {
      TextStart(items[0], depth, fmt, [COMMA] + (When(fmt, [SPACE]) + ElementsOnto(items[1..], depth, fmt, rest)));
    }
  }

  lemma MemberStart(m: Member, depth: nat, fmt: bool, rest: seq<byte>)
    ensures Peek(Skip(MemberOnto(m, depth, fmt, rest))) == QUOTE
  {
    SkipTo(When(fmt, Tabs(depth)),
           Quoted(m.name) + ([COLON] + (When(fmt, [TAB]) + Onto(m.value, depth, fmt, rest))));
  }

  lemma NumberValueRoundTrip(d: real, depth: nat, fmt: bool, rest: seq<byte>)
    requires IsInt32(d)
    ensures ParseValue(Onto(Number(d), depth, fmt, rest)) == Ok(Number(d), rest) <==> !Extends(d, rest)
  {
    hide ParseNumber, NumberText, Extends;
    var s := NumberText(d) + rest;
    NumberRoundTrip(d, rest);
    NumberDispatch(s);
  }

  lemma NumberDispatch(s: seq<byte>)
    requires StartsNumber(s)
    ensures ParseValue(s) == Ok(Number(ParseNumber(s).0), ParseNumber(s).1)
  {
    hide ParseNumber;
  }

  lemma StringDispatch(s: seq<byte>, t: seq<byte>, rest: seq<byte>)
    requires Peek(s) == QUOTE && ParseString(s) == Ok(t, rest)
    ensures ParseValue(s) == Ok(String(t), rest)
  {
    hide StringBody;
  }

  lemma ScalarRoundTrip(v: Json, depth: nat, fmt: bool, rest: seq<byte>)
    requires Printable(v) && !v.Array? && !v.Object?
    ensures ParseValue(Onto(v, depth, fmt, rest)) == Ok(v, rest) <==> !(v.Number? && Extends(v.value, rest))
  {
    hide ParseString, ParseNumber, Extends, Quoted, NumberText;
    var text := Text(v, depth, fmt);
    var s := text + rest;
    match v
    case Number(d) => NumberValueRoundTrip(d, depth, fmt, rest);
    case String(t) =>
      QuotedRoundTrip(t, rest);
      StringDispatch(s, t, rest);
    case Null | False | True =>
      assert text <= s && s[|text|..] == rest;
      assert s[0] == text[0];
  }

  lemma {:induction false} ValueRoundTrip(v: Json, depth: nat, fmt: bool, rest: seq<byte>)
    requires Printable(v)
    ensures ParseValue(Onto(v, depth, fmt, rest)) == Ok(v, rest) <==> !(v.Number? && Extends(v.value, rest))
    decreases v, 0
  {
    match v
    case Array(items) => ArrayRoundTrip(items, depth, fmt, rest);
    case Object(ms) => ObjectRoundTrip(ms, depth, fmt, rest);
    case _ => ScalarRoundTrip(v, depth, fmt, rest);
  }

  lemma ArrayRoundTrip(items: seq<Json>, depth: nat, fmt: bool, rest: seq<byte>)
    requires Printable(Array(items))
    ensures ParseValue(Onto(Array(items), depth, fmt, rest)) == Ok(Array(items), rest)
    decreases items, 2
  {
    var close := [RBRACKET] + rest;
    Uncons(RBRACKET, rest);
    if items == [] {
      Uncons(LBRACKET, close);
      SkipTo([], close);
      ValueSteps([LBRACKET] + close, close);
    } else {
      var body := ElementsOnto(items, depth + 1, fmt, close);
      Uncons(LBRACKET, body);
      ElementsStart(items, depth + 1, fmt, close);
      SkipTo([], body);
      ElementsRoundTrip(items, depth + 1, fmt, rest);
      ValueSteps([LBRACKET] + body, body);
    }
  }

  /** A separator or a closing mark continues no number. */
  lemma MarkEnds(v: Json, c: byte, s: seq<byte>)
    requires c in {COMMA, RBRACKET, RBRACE, NEWLINE}
    ensures !(v.Number? && Extends(v.value, [c] + s))
  {}

  lemma {:induction false} ElementsRoundTrip(items: seq<Json>, depth: nat, fmt: bool, rest: seq<byte>)
    requires items != [] && forall i :: 0 <= i < |items| ==> Printable(items[i])
    ensures ParseElements(ElementsOnto(items, depth, fmt, [RBRACKET] + rest)) == Ok(items, rest)
    decreases items, 1
  {
    hide Extends, ParseValue, ParseElements, Onto;
    var close := [RBRACKET] + rest;
    var s := ElementsOnto(items, depth, fmt, close);
    ElementsStart(items, depth, fmt, close);
    if |items| == 1 {
      MarkEnds(items[0], RBRACKET, rest);
      ValueRoundTrip(items[0], depth, fmt, close);
      LastElement(s, items[0], rest);
      assert items == [items[0]];
    } else {
      var more := ElementsOnto(items[1..], depth, fmt, close);
      MarkEnds(items[0], COMMA, When(fmt, [SPACE]) + more);
      ValueRoundTrip(items[0], depth, fmt, [COMMA] + (When(fmt, [SPACE]) + more));
      ElementsRoundTrip(items[1..], depth, fmt, rest);
      NextElement(s, items[0], When(fmt, [SPACE]), more, items[1..], rest);
      assert items == [items[0]] + items[1..];
    }
  }

  lemma BlankLine(fmt: bool, depth: nat)
    ensures Blank(When(fmt, [NEWLINE] + Tabs(depth - 1))) && Blank(When(fmt, [NEWLINE]))
  {}

  lemma ObjectRoundTrip(ms: seq<Member>, depth: nat, fmt: bool, rest: seq<byte>)
    requires Printable(Object(ms))
    ensures ParseValue(Onto(Object(ms), depth, fmt, rest)) == Ok(Object(ms), rest)
    decreases ms, 3
  {
    hide ParseValue, ParseMembers, MembersOnto, Skip, Tabs;
    BlankIndent(fmt, depth);
    BlankLine(fmt, depth);
    var close := [RBRACE] + rest;
    Uncons(RBRACE, rest);
    if ms == [] {
      var ws := When(fmt, [NEWLINE] + Tabs(depth - 1));
      Uncons(LBRACE, ws + close);
      SkipTo(ws, close);
      ValueSteps([LBRACE] + (ws + close), close);
    } else {
      var nl := When(fmt, [NEWLINE]);
      var body := MembersOnto(ms, depth + 1, fmt, When(fmt, Tabs(depth)) + close);
      Uncons(LBRACE, nl + body);
      SkipBlank(nl, body);
      MembersStart(ms, depth + 1, fmt, When(fmt, Tabs(depth)) + close);
      MembersRoundTrip(ms, depth + 1, fmt, When(fmt, Tabs(depth)), rest);
      LoopsSkip([], body);
      ValueSteps([LBRACE] + (nl + body), Skip(body));
    }
  }

  lemma MembersStart(ms: seq<Member>, depth: nat, fmt: bool, rest: seq<byte>)
    requires ms != []
    ensures Peek(Skip(MembersOnto(ms, depth, fmt, rest))) == QUOTE
  {
    if |ms| == 1 {
      MemberStart(ms[0], depth, fmt, When(fmt, [NEWLINE]) + rest);
    } else {
      MemberStart(ms[0], depth, fmt, [COMMA] + (When(fmt, [NEWLINE]) + MembersOnto(ms[1..], depth, fmt, rest)));
    }
  }

  lemma BlankIndent(fmt: bool, depth: nat)
    ensures Blank(When(fmt, Tabs(depth))) && Blank(When(fmt, [TAB]))
  {}

  lemma MemberRoundTrip(m: Member, depth: nat, fmt: bool, rest: seq<byte>)
    requires NulFree(m.name) && Printable(m.value)
    requires Peek(rest) in {COMMA, NEWLINE, RBRACE}
    ensures ParseMember(MemberOnto(m, depth, fmt, rest)) == Ok(m, Skip(rest))
    decreases m, 1
  {
    hide Onto, ParseString, ParseValue, ParseMember, Skip, Extends, Tabs, Escape;
    var e := Onto(m.value, depth, fmt, rest);
    assert rest == [rest[0]] + rest[1..];
    MarkEnds(m.value, rest[0], rest[1..]);
    BlankIndent(fmt, depth);
    var d := When(fmt, [TAB]) + e;
    var c := [COLON] + d;
    var a := Quoted(m.name) + c;
    Uncons(COLON, d);
    QuotedRoundTrip(m.name, c);
    SkipTo(When(fmt, Tabs(depth)), a);
    SkipTo([], c);
    TextStart(m.value, depth, fmt, rest);
    SkipTo(When(fmt, [TAB]), e);
    ValueRoundTrip(m.value, depth, fmt, rest);
    MemberSteps(When(fmt, Tabs(depth)) + a, a, m.name, c, c, d, e, m.value, rest);
  }

  lemma {:induction false} MembersRoundTrip(ms: seq<Member>, depth: nat, fmt: bool, ws: seq<byte>, rest: seq<byte>)
    requires ms != [] && Blank(ws) && (fmt || ws == [])
    requires forall i :: 0 <= i < |ms| ==> NulFree(ms[i].name) && Printable(ms[i].value)
    ensures ParseMembers(MembersOnto(ms, depth, fmt, ws + ([RBRACE] + rest))) == Ok(ms, rest)
    decreases ms, 2
  {
    hide MemberOnto, ParseMember, ParseMembers, Skip;
    var close := [RBRACE] + rest;
    var nl := When(fmt, [NEWLINE]);
    if |ms| == 1 {
      AfterLast(fmt, ws, close);
      MemberRoundTrip(ms[0], depth, fmt, nl + (ws + close));
      LastMember(MembersOnto(ms, depth, fmt, ws + close), ms[0], nl, ws, rest);
      assert ms == [ms[0]];
    } else {
      var more := MembersOnto(ms[1..], depth, fmt, ws + close);
      MemberRoundTrip(ms[0], depth, fmt, [COMMA] + (nl + more));
      MembersRoundTrip(ms[1..], depth, fmt, ws, rest);
      NextMember(MembersOnto(ms, depth, fmt, ws + close), ms[0], nl, more, ms[1..], rest);
      assert ms == [ms[0]] + ms[1..];
    }
  }

  /** The last member is followed by a line end or directly by the brace. */
  lemma AfterLast(fmt: bool, ws: seq<byte>, close: seq<byte>)
    requires Peek(close) == RBRACE && (fmt || ws == [])
    ensures Peek(When(fmt, [NEWLINE]) + (ws + close)) in {NEWLINE, RBRACE}
  {}

  // Main results -------------------------------------------------------------

  /**
   For every tree, depth and mode: parsing the rendering in front of any rest
   gives the tree back and stops exactly at the rest, unless the tree is a
   number that the rest continues.
   */
  lemma PrintThenParse(v: Json, depth: nat, fmt: bool, rest: seq<byte>)
    requires Printable(v)
    ensures ParseValue(Text(v, depth, fmt) + rest) == Ok(v, rest) <==> !(v.Number? && Extends(v.value, rest))
  {
    ValueRoundTrip(v, depth, fmt, rest);
    OntoIsText(v, depth, fmt, rest);
  }

  /** A printed text is accepted to its end. */
  lemma PrintedParses(v: Json, fmt: bool)
    requires Printable(v)
    ensures ParseWithOpts(Text(v, 0, fmt), true) == Ok(v, [])
  {
    PrintThenParse(v, 0, fmt, []);
    TextStart(v, 0, fmt, []);
    OntoIsText(v, 0, fmt, []);
    assert Text(v, 0, fmt) + [] == Text(v, 0, fmt);
    SkipTo([], Text(v, 0, fmt));
  }

  // What was parsed ------------------------------------------------------------

  /** No parsed string or name contains a terminator. */
  lemma {:induction false} ValueNulFree(s: seq<byte>)
    requires ParseValue(s).Ok? && IntegersOnly(ParseValue(s).value)
    ensures Printable(ParseValue(s).value)
    decreases |s|, 0
  {
    match ParseValue(s).value
    case String(_) => DecodedNulFree(s[1..]);
    case Array(items) => if items != [] { ElementsNulFree(Skip(s[1..])); }
    case Object(ms) => if ms != [] { MembersNulFree(Skip(s[1..])); }
    case _ =>
  }

  lemma {:induction false} ElementsNulFree(s: seq<byte>)
    requires ParseElements(s).Ok?
    requires forall i :: 0 <= i < |ParseElements(s).value| ==> IntegersOnly(ParseElements(s).value[i])
    ensures forall i :: 0 <= i < |ParseElements(s).value| ==> Printable(ParseElements(s).value[i])
    decreases |s|, 1
  {
    var all, t := ParseElements(s).value, Skip(ParseValue(Skip(s)).rest);
    assert all[0] == ParseValue(Skip(s)).value;
    ValueNulFree(Skip(s));
    if Peek(t) == COMMA {
      assert all[1..] == ParseElements(t[1..]).value;
      ElementsNulFree(t[1..]);
    }
  }

  lemma MemberNulFree(s: seq<byte>)
    requires ParseMember(s).Ok? && IntegersOnly(ParseMember(s).value.value)
    ensures NulFree(ParseMember(s).value.name) && Printable(ParseMember(s).value.value)
    decreases |s|, 1
  {
    var t := Skip(ParseString(Skip(s)).rest);
    DecodedNulFree(Skip(s)[1..]);
    ValueNulFree(Skip(t[1..]));
  }

  lemma {:induction false} MembersNulFree(s: seq<byte>)
    requires ParseMembers(s).Ok?
    requires forall i :: 0 <= i < |ParseMembers(s).value| ==> IntegersOnly(ParseMembers(s).value[i].value)
    ensures forall i :: 0 <= i < |ParseMembers(s).value| ==>
              NulFree(ParseMembers(s).value[i].name) && Printable(ParseMembers(s).value[i].value)
    decreases |s|, 2
  {
    var all, t := ParseMembers(s).value, ParseMember(s).rest;
    assert all[0] == ParseMember(s).value;
    MemberNulFree(s);
    if Peek(t) == COMMA {
      assert all[1..] == ParseMembers(t[1..]).value;
      MembersNulFree(t[1..]);
    }
  }

  /**
   What was parsed prints to a text that parses to the same and prints the
   same, as long as its numbers are 32-bit integers.
   */
  lemma PrintAfterParse(s: seq<byte>, requireNullTerminated: bool, fmt: bool)
    requires ParseWithOpts(s, requireNullTerminated).Ok?
    requires IntegersOnly(ParseWithOpts(s, requireNullTerminated).value)
    ensures var v := ParseWithOpts(s, requireNullTerminated).value;
            var again := ParseWithOpts(Text(v, 0, fmt), true);
            again == Ok(v, []) && Text(again.value, 0, fmt) == Text(v, 0, fmt)
  {
    ValueNulFree(Skip(s));
    PrintedParses(ParseWithOpts(s, requireNullTerminated).value, fmt);
  }
}
