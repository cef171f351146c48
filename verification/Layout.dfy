/**
 Where the printed text has white space, said of its bytes alone: a reader that
 goes over the text with a stack of open brackets finds every gap just as wide
 as it has to be, and none elsewhere.
 */
module Layout {
  import opened CText
  import opened JsonValue
  import opened Parser
  import opened Printer
  import opened RoundTrip

  /** Where the reader stands: outside strings, in one, or behind a backslash in one. */
  datatype Place = Outside | Inside | Escaped

  predicate IsGap(c: byte) { 0 < c <= 32 }

  /** The TABs at the head of a line. */
  function Indent(s: seq<byte>): (n: nat)
    ensures n <= |s|
  {
    if Peek(s) == 9 then 1 + Indent(s[1..]) else 0
  }

  /** The first mark of a line. */
  function Mark(s: seq<byte>): byte {
    At(s, Indent(s))
  }

  /** A new line of just `n` TABs and a mark. */
  predicate NewLine(s: seq<byte>, n: int) {
    Peek(s) == 10 && Indent(s[1..]) == (if n > 0 then n else 0) && !IsGap(Mark(s[1..]))
  }

  predicate InObject(open: seq<byte>) {
    open != [] && open[|open| - 1] == 123
  }

  /** Behind a name, a value or an opening bracket: no gap, but for the new line of a closing brace. */
  predicate Behind(open: seq<byte>, s: seq<byte>, fmt: bool) {
    if fmt && InObject(open) && Peek(s) == 10 then NewLine(s, |open| - 1) && Mark(s[1..]) == 125
    else !IsGap(Peek(s)) && (fmt ==> Peek(s) != 125)
  }

  /**
   What stands behind the byte `c` outside strings, with `open` the brackets
   that are open there: a new line behind `{`, and behind `,` in an object, as
   many TABs deep as brackets are open; one TAB behind `:`; one SPACE behind `,`
   in an array. The brace of an empty object stands one TAB further left than
   the line its opening brace is on.
   */
  predicate Spaced(c: byte, open: seq<byte>, s: seq<byte>, fmt: bool) {
    if !fmt then !IsGap(Peek(s))
    else if c == 123 then NewLine(s, if Peek(s) == 10 && Mark(s[1..]) == 125 then |open| - 2 else |open|)
    else if c == 58 then Peek(s) == 9 && !IsGap(At(s, 1))
    else if c == 44 && InObject(open) then NewLine(s, |open|)
    else if c == 44 then Peek(s) == 32 && !IsGap(At(s, 1))
    else IsGap(c) || Behind(open, s, fmt)
  }

  /** The brackets open behind the byte `c`. */
  function Nested(open: seq<byte>, c: byte): seq<byte> {
    if c == 123 || c == 91 then open + [c]
    else if (c == 125 || c == 93) && open != [] then open[..|open| - 1]
    else open
  }

  predicate Laid(s: seq<byte>, open: seq<byte>, place: Place, fmt: bool)
    decreases |s|
  {
    s == [] ||
    match place
    case Outside =>
      if s[0] == 34 then Laid(s[1..], open, Inside, fmt)
      else Spaced(s[0], Nested(open, s[0]), s[1..], fmt) && Laid(s[1..], Nested(open, s[0]), Outside, fmt)
    case Inside =>
      if s[0] == 34 then Spaced(34, open, s[1..], fmt) && Laid(s[1..], open, Outside, fmt)
      else Laid(s[1..], open, if s[0] == 92 then Escaped else Inside, fmt)
    case Escaped => Laid(s[1..], open, Inside, fmt)
  }

  predicate LaidOut(s: seq<byte>, fmt: bool) {
    !IsGap(Peek(s)) && Laid(s, [], Outside, fmt)
  }

  // Marks and gaps -------------------------------------------------------------

  lemma MarkLaid(c: byte, s: seq<byte>, open: seq<byte>, fmt: bool)
    requires c != 34 && Spaced(c, Nested(open, c), s, fmt) && Laid(s, Nested(open, c), Outside, fmt)
    ensures Laid([c] + s, open, Outside, fmt)
  {
    hide Spaced, Nested;
    assert ([c] + s)[1..] == s;
  }

  lemma {:induction false} GapLaid(ws: seq<byte>, s: seq<byte>, open: seq<byte>)
    requires (forall i :: 0 <= i < |ws| ==> IsGap(ws[i])) && Laid(s, open, Outside, true)
    ensures Laid(ws + s, open, Outside, true)
  {
    if ws == [] {
      assert ws + s == s;
    } else {
      GapLaid(ws[1..], s, open);
      assert ws + s == [ws[0]] + (ws[1..] + s);
      MarkLaid(ws[0], ws[1..] + s, open, true);
    }
  }

  lemma {:induction false} FilledIndent(n: nat, s: seq<byte>)
    requires Peek(s) != 9
    ensures Indent(Fill(TAB, n) + s) == n && At(Fill(TAB, n) + s, n) == Peek(s)
  {
    if n == 0 {
      assert Fill(TAB, n) + s == s;
    } else {
      FilledIndent(n - 1, s);
      assert Fill(TAB, n) + s == [TAB] + (Fill(TAB, n - 1) + s);
    }
  }

  lemma TabsAre(n: int)
    ensures Tabs(n) == Fill(TAB, if n > 0 then n else 0) && forall i :: 0 <= i < |Tabs(n)| ==> IsGap(Tabs(n)[i])
  {}

  /** A line the printer starts. */
  lemma LineIs(n: int, s: seq<byte>)
    requires !IsGap(Peek(s))
    ensures NewLine([NEWLINE] + (Tabs(n) + s), n) && Mark(([NEWLINE] + (Tabs(n) + s))[1..]) == Peek(s)
    ensures Peek([NEWLINE] + (Tabs(n) + s)) == 10
  {
    hide Tabs, Fill;
    TabsAre(n);
    FilledIndent(if n > 0 then n else 0, s);
    assert ([NEWLINE] + (Tabs(n) + s))[1..] == Tabs(n) + s;
  }

  lemma LineLaid(n: int, s: seq<byte>, open: seq<byte>)
    requires Laid(s, open, Outside, true)
    ensures Laid(Tabs(n) + s, open, Outside, true) && Laid([NEWLINE] + (Tabs(n) + s), open, Outside, true)
  {
    hide Tabs, Laid;
    TabsAre(n);
    GapLaid(Tabs(n), s, open);
    GapLaid([NEWLINE], Tabs(n) + s, open);
  }

  // Scalars ----------------------------------------------------------------------

  predicate Ordinary(c: byte) {
    c > 32 && c !in {34, 44, 58, 91, 93, 123, 125}
  }

  lemma {:induction false} TokenLaid(tok: seq<byte>, s: seq<byte>, open: seq<byte>, fmt: bool)
    requires forall i :: 0 <= i < |tok| ==> Ordinary(tok[i])
    requires Behind(open, s, fmt) && Laid(s, open, Outside, fmt)
    ensures Laid(tok + s, open, Outside, fmt)
  {
    if tok == [] {
      assert tok + s == s;
    } else {
      var more := tok[1..] + s;
      TokenLaid(tok[1..], s, open, fmt);
      assert tok + s == [tok[0]] + more;
      assert Behind(open, more, fmt) by {
        if tok[1..] == [] { assert more == s; } else { assert Peek(more) == tok[1]; }
      }
      MarkLaid(tok[0], more, open, fmt);
    }
  }

  lemma {:induction false} DigitsOrdinary(n: nat)
    ensures forall i :: 0 <= i < |Digits(n)| ==> Ordinary(Digits(n)[i])
    decreases n
  {
    if n >= 10 { DigitsOrdinary(n / 10); }
  }

  lemma NumberOrdinary(d: real)
    ensures forall i :: 0 <= i < |NumberText(d)| ==> Ordinary(NumberText(d)[i])
  {
    hide Digits;
    DigitsOrdinary(if d.Floor < 0 then -d.Floor else d.Floor);
  }

  /** A row of bytes within a string. */
  lemma {:induction false} InsideLaid(tok: seq<byte>, s: seq<byte>, open: seq<byte>, fmt: bool)
    requires (forall i :: 0 <= i < |tok| ==> tok[i] != 34 && tok[i] != 92) && Laid(s, open, Inside, fmt)
    ensures Laid(tok + s, open, Inside, fmt)
  {
    if tok == [] {
      assert tok + s == s;
    } else {
      InsideLaid(tok[1..], s, open, fmt);
      assert (tok + s)[1..] == tok[1..] + s;
    }
  }

  lemma EscapedByteLaid(c: byte, s: seq<byte>, open: seq<byte>, fmt: bool)
    requires Laid(s, open, Inside, fmt)
    ensures Laid(EscapeByte(c) + s, open, Inside, fmt)
  {
    hide EscapeTail;
    if c > 31 && c != QUOTE && c != BACKSLASH {
      assert ([c] + s)[1..] == s;
    } else {
      var t := EscapeTail(c);
      TailBytes(c);
      InsideLaid(t[1..], s, open, fmt);
      assert ([BACKSLASH] + t + s)[1..] == t + s && (t + s)[1..] == t[1..] + s;
      assert Laid(t + s, open, Escaped, fmt);
    }
  }

  lemma TailBytes(c: byte)
    ensures var t := EscapeTail(c); t != [] && forall i :: 0 < i < |t| ==> t[i] != 34 && t[i] != 92
  {}

  lemma {:induction false} EscapeLaid(t: seq<byte>, s: seq<byte>, open: seq<byte>, fmt: bool)
    requires Laid(s, open, Inside, fmt)
    ensures Laid(Escape(t) + s, open, Inside, fmt)
  {
    hide Laid, EscapeByte;
    if t == [] {
      assert Escape(t) + s == s;
    } else {
      EscapeLaid(t[1..], s, open, fmt);
      EscapedByteLaid(t[0], Escape(t[1..]) + s, open, fmt);
      assert Escape(t) + s == EscapeByte(t[0]) + (Escape(t[1..]) + s);
    }
  }

  lemma QuotedLaid(t: seq<byte>, s: seq<byte>, open: seq<byte>, fmt: bool)
    requires Spaced(34, open, s, fmt) && Laid(s, open, Outside, fmt)
    ensures Laid(Quoted(t) + s, open, Outside, fmt)
  {
    hide Escape, Spaced;
    assert ([34] + s)[1..] == s;
    EscapeLaid(t, [34] + s, open, fmt);
    assert Quoted(t) + s == [34] + (Escape(t) + ([34] + s));
    assert ([34] + (Escape(t) + ([34] + s)))[1..] == Escape(t) + ([34] + s);
  }

  // Values -------------------------------------------------------------------------

  /** A closing mark ends its bracket, and what may stand behind the value may stand behind the mark. */
  lemma CloseLaid(bracket: byte, c: byte, s: seq<byte>, open: seq<byte>, fmt: bool)
    requires (bracket == 91 && c == 93) || (bracket == 123 && c == 125)
    requires Behind(open, s, fmt) && Laid(s, open, Outside, fmt)
    ensures Laid([c] + s, open + [bracket], Outside, fmt)
  {
    hide Behind, Laid;
    assert (open + [bracket])[..|open|] == open;
    BehindIsSpaced(c, open, s, fmt);
    MarkLaid(c, s, open + [bracket], fmt);
  }

  lemma {:induction false} ValueLaid(v: Json, depth: nat, fmt: bool, rest: seq<byte>, open: seq<byte>)
    requires |open| == depth && Behind(open, rest, fmt) && Laid(rest, open, Outside, fmt)
    ensures Laid(Onto(v, depth, fmt, rest), open, Outside, fmt)
    decreases v, 0
  {
    hide Behind, Laid, Quoted, NumberText, Spaced, ElementsOnto, MembersOnto;
    match v
    case Null => TokenLaid(NULL_TEXT, rest, open, fmt);
    case False => TokenLaid(FALSE_TEXT, rest, open, fmt);
    case True => TokenLaid(TRUE_TEXT, rest, open, fmt);
    case Number(d) =>
      NumberOrdinary(d);
      TokenLaid(NumberText(d), rest, open, fmt);
    case String(s) =>
      BehindIsSpaced(34, open, rest, fmt);
      QuotedLaid(s, rest, open, fmt);
    case Array(items) => ArrayLaid(items, depth, fmt, rest, open);
    case Object(ms) => ObjectLaid(ms, depth, fmt, rest, open);
  }

  lemma BehindIsSpaced(c: byte, open: seq<byte>, s: seq<byte>, fmt: bool)
    requires c != 123 && c != 58 && c != 44 && Behind(open, s, fmt)
    ensures Spaced(c, open, s, fmt)
  {}

  /** In front of a mark other than `}` there is nothing. */
  lemma BehindMark(open: seq<byte>, s: seq<byte>, fmt: bool)
    requires Peek(s) > 32 && Peek(s) != 125
    ensures Behind(open, s, fmt)
  {}

  lemma ArrayLaid(items: seq<Json>, depth: nat, fmt: bool, rest: seq<byte>, open: seq<byte>)
    requires |open| == depth && Behind(open, rest, fmt) && Laid(rest, open, Outside, fmt)
    ensures Laid(Onto(Array(items), depth, fmt, rest), open, Outside, fmt)
    decreases items, 2
  {
    hide Behind, Laid, Spaced, ElementsOnto;
    var inner, close := open + [91], [RBRACKET] + rest;
    CloseLaid(91, 93, rest, open, fmt);
    var body := if items == [] then close else ElementsOnto(items, depth + 1, fmt, close);
    BehindMark(inner, close, fmt);
    if items != [] {
      ElementsLaid(items, depth + 1, fmt, close, inner);
      ElementsBegin(items, depth + 1, fmt, close);
      BehindMark(inner, body, fmt);
    }
    BehindIsSpaced(91, inner, body, fmt);
    MarkLaid(91, body, open, fmt);
  }

  lemma ElementsBegin(items: seq<Json>, depth: nat, fmt: bool, rest: seq<byte>)
    requires items != []
    ensures Peek(ElementsOnto(items, depth, fmt, rest)) > 32 && Peek(ElementsOnto(items, depth, fmt, rest)) != 125
  {
    hide Onto;
    TextStart(items[0], depth, fmt, rest);
    if |items| > 1 {
      TextStart(items[0], depth, fmt, [COMMA] + (When(fmt, [SPACE]) + ElementsOnto(items[1..], depth, fmt, rest)));
    }
  }

  lemma {:induction false} ElementsLaid(items: seq<Json>, depth: nat, fmt: bool, rest: seq<byte>, open: seq<byte>)
    requires items != [] && |open| == depth && depth > 0 && open[depth - 1] == 91
    requires Behind(open, rest, fmt) && Laid(rest, open, Outside, fmt)
    ensures Laid(ElementsOnto(items, depth, fmt, rest), open, Outside, fmt)
    decreases items, 1
  {
    hide Behind, Laid, Onto, Spaced;
    if |items| == 1 {
      ValueLaid(items[0], depth, fmt, rest, open);
    } else {
      var more := ElementsOnto(items[1..], depth, fmt, rest);
      ElementsLaid(items[1..], depth, fmt, rest, open);
      ElementsBegin(items[1..], depth, fmt, rest);
      CommaLaid(more, open, fmt);
      BehindMark(open, [COMMA] + (When(fmt, [SPACE]) + more), fmt);
      ValueLaid(items[0], depth, fmt, [COMMA] + (When(fmt, [SPACE]) + more), open);
    }
  }

  lemma CommaLaid(more: seq<byte>, open: seq<byte>, fmt: bool)
    requires open != [] && open[|open| - 1] == 91 && Peek(more) > 32 && Laid(more, open, Outside, fmt)
    ensures Laid([COMMA] + (When(fmt, [SPACE]) + more), open, Outside, fmt)
  {
    hide Laid;
    if fmt { GapLaid([SPACE], more, open); } else { assert [] + more == more; }
    MarkLaid(44, When(fmt, [SPACE]) + more, open, fmt);
  }

  /** An object without members, and its two braces. */
  lemma EmptyObjectLaid(depth: nat, fmt: bool, rest: seq<byte>, open: seq<byte>)
    requires |open| == depth && Behind(open, rest, fmt) && Laid(rest, open, Outside, fmt)
    ensures Laid([LBRACE] + (When(fmt, [NEWLINE] + Tabs(depth - 1)) + ([RBRACE] + rest)), open, Outside, fmt)
  {
    hide Behind, Laid, Tabs;
    var inner, close := open + [123], [RBRACE] + rest;
    CloseLaid(123, 125, rest, open, fmt);
    if fmt {
      assert [NEWLINE] + Tabs(depth - 1) + close == [NEWLINE] + (Tabs(depth - 1) + close);
      LineIs(depth - 1, close);
      LineLaid(depth - 1, close, inner);
      MarkLaid(123, [NEWLINE] + (Tabs(depth - 1) + close), open, fmt);
    } else {
      assert [] + close == close;
      MarkLaid(123, close, open, fmt);
    }
  }

  /** The new line in front of a closing brace. */
  lemma LastLineLaid(depth: nat, fmt: bool, rest: seq<byte>, open: seq<byte>)
    requires |open| == depth && Behind(open, rest, fmt) && Laid(rest, open, Outside, fmt)
    ensures var s := When(fmt, [NEWLINE]) + (When(fmt, Tabs(depth)) + ([RBRACE] + rest));
            Behind(open + [123], s, fmt) && Laid(s, open + [123], Outside, fmt)
  {
    hide Laid, Tabs;
    var close := [RBRACE] + rest;
    CloseLaid(123, 125, rest, open, fmt);
    if fmt {
      LineIs(depth, close);
      LineLaid(depth, close, open + [123]);
    } else {
      assert [] + ([] + close) == close;
    }
  }

  lemma ObjectLaid(ms: seq<Member>, depth: nat, fmt: bool, rest: seq<byte>, open: seq<byte>)
    requires |open| == depth && Behind(open, rest, fmt) && Laid(rest, open, Outside, fmt)
    ensures Laid(Onto(Object(ms), depth, fmt, rest), open, Outside, fmt)
    decreases ms, 2
  {
    hide Behind, Laid, Spaced, MembersOnto, Tabs, When;
    if ms == [] {
      EmptyObjectLaid(depth, fmt, rest, open);
    } else {
      var close := When(fmt, Tabs(depth)) + ([RBRACE] + rest);
      LastLineLaid(depth, fmt, rest, open);
      MembersLaid(ms, depth + 1, fmt, close, open + [123]);
      MarkLaid(123, When(fmt, [NEWLINE]) + MembersOnto(ms, depth + 1, fmt, close), open, fmt);
    }
  }

  /** A new line with a member on it, as it stands behind `{` and behind `,`. */
  lemma {:induction false} MembersLaid(ms: seq<Member>, depth: nat, fmt: bool, close: seq<byte>, open: seq<byte>)
    requires ms != [] && |open| == depth && InObject(open)
    requires Behind(open, When(fmt, [NEWLINE]) + close, fmt) && Laid(When(fmt, [NEWLINE]) + close, open, Outside, fmt)
    ensures var s := When(fmt, [NEWLINE]) + MembersOnto(ms, depth, fmt, close);
            Laid(s, open, Outside, fmt) && Spaced(123, open, s, fmt) && Spaced(44, open, s, fmt)
    decreases ms, 1
  {
    hide Behind, Laid, Spaced, MemberOnto, Tabs, When, InObject;
    if |ms| == 1 {
      MemberLaid(ms[0], depth, fmt, When(fmt, [NEWLINE]) + close, open);
    } else {
      var more := When(fmt, [NEWLINE]) + MembersOnto(ms[1..], depth, fmt, close);
      MembersLaid(ms[1..], depth, fmt, close, open);
      MarkLaid(44, more, open, fmt);
      BehindMark(open, [COMMA] + more, fmt);
      MemberLaid(ms[0], depth, fmt, [COMMA] + more, open);
    }
  }

  lemma MemberLaid(m: Member, depth: nat, fmt: bool, rest: seq<byte>, open: seq<byte>)
    requires |open| == depth && InObject(open) && Behind(open, rest, fmt) && Laid(rest, open, Outside, fmt)
    ensures var s := When(fmt, [NEWLINE]) + MemberOnto(m, depth, fmt, rest);
            Laid(s, open, Outside, fmt) && Spaced(123, open, s, fmt) && Spaced(44, open, s, fmt)
    decreases m, 1
  {
    hide Behind, Laid, Spaced, Onto, Tabs, When, InObject, Quoted;
    ValueLaid(m.value, depth, fmt, rest, open);
    TextStart(m.value, depth, fmt, rest);
    var value := Onto(m.value, depth, fmt, rest);
    ColonLaid(value, open, fmt);
    var colon := [COLON] + (When(fmt, [TAB]) + value);
    BehindMark(open, colon, fmt);
    BehindIsSpaced(34, open, colon, fmt);
    QuotedLaid(m.name, colon, open, fmt);
    MemberLineLaid(depth, fmt, Quoted(m.name) + colon, open);
  }

  lemma ColonLaid(value: seq<byte>, open: seq<byte>, fmt: bool)
    requires Peek(value) > 32 && Laid(value, open, Outside, fmt)
    ensures Laid([COLON] + (When(fmt, [TAB]) + value), open, Outside, fmt)
  {
    hide Laid;
    if fmt { GapLaid([TAB], value, open); } else { assert [] + value == value; }
    MarkLaid(58, When(fmt, [TAB]) + value, open, fmt);
  }

  lemma MemberLineLaid(depth: nat, fmt: bool, s: seq<byte>, open: seq<byte>)
    requires |open| == depth && InObject(open) && Peek(s) == 34 && Laid(s, open, Outside, fmt)
    ensures var line := When(fmt, [NEWLINE]) + (When(fmt, Tabs(depth)) + s);
            Laid(line, open, Outside, fmt) && Spaced(123, open, line, fmt) && Spaced(44, open, line, fmt)
  {
    hide Laid, Tabs;
    if fmt {
      LineIs(depth, s);
      LineLaid(depth, s, open);
    } else {
      assert [] + ([] + s) == s;
    }
  }

  // Main result ------------------------------------------------------------------------

  /** Both printed texts have just the gaps they should have. */
  lemma PrintedIsLaidOut(v: Json, fmt: bool)
    ensures LaidOut(Text(v, 0, fmt), fmt)
  {
    OntoIsText(v, 0, fmt, []);
    assert Text(v, 0, fmt) + [] == Text(v, 0, fmt);
    TextStart(v, 0, fmt, []);
    ValueLaid(v, 0, fmt, [], []);
  }
}
