/**
 The text cJSON renders for a value, composed the way the allocating printer
 composes it: every part is rendered on its own and the parts are concatenated.
 */
module Printer {
  import opened CText
  import opened Unicode
  import opened JsonValue
  import opened Parser

  /** `%d` of a non-negative integer. */
  function Digits(n: nat): (s: seq<byte>)
    ensures |s| >= 1
  {
    if n < 10 then [ZERO + n] else Digits(n / 10) + [ZERO + n % 10]
  }

  function IntText(n: int): (s: seq<byte>)
    ensures |s| >= 1
  {
    if n < 0 then [MINUS] + Digits(-n) else Digits(n)
  }

  /** `print_number`, on the values it renders with `%d`. */
  function NumberText(d: real): (s: seq<byte>)
    ensures |s| >= 1
  {
    IntText(d.Floor)
  }

  /** One byte of a string: itself, a two-byte escape, or `\u00xx`. */
  function EscapeByte(c: byte): seq<byte> {
    if c > 31 && c != QUOTE && c != BACKSLASH then [c]
    else [BACKSLASH] + EscapeTail(c)
  }

  function EscapeTail(c: byte): seq<byte> {
    if c == BACKSLASH then [BACKSLASH]
    else if c == QUOTE then [QUOTE]
    else if c == BACKSPACE then [98]
    else if c == FORMFEED then [102]
    else if c == NEWLINE then [110]
    else if c == RETURN then [114]
    else if c == TAB then [116]
    else [U] + Hex4(c)
  }

  function Escape(s: seq<byte>): seq<byte> {
    if s == [] then [] else EscapeByte(s[0]) + Escape(s[1..])
  }

  function Quoted(s: seq<byte>): (r: seq<byte>)
    ensures |r| >= 2 && r[0] == QUOTE
  {
    [QUOTE] + Escape(s) + [QUOTE]
  }

  function Tabs(n: int): (s: seq<byte>)
    ensures |s| == if n > 0 then n else 0
  {
    Fill(TAB, if n > 0 then n else 0)
  }

  /** `s` when formatting is on. */
  function When(fmt: bool, s: seq<byte>): seq<byte> {
    if fmt then s else []
  }

  function Text(v: Json, depth: nat, fmt: bool): (s: seq<byte>)
    decreases v, 0
  {
    match v
    case Null => NULL_TEXT
    case False => FALSE_TEXT
    case True => TRUE_TEXT
    case Number(d) => NumberText(d)
    case String(s) => Quoted(s)
    case Array(items) =>
      if items == [] then [LBRACKET, RBRACKET]
      else [LBRACKET] + ElementsText(items, depth + 1, fmt) + [RBRACKET]
    case Object(ms) =>
      if ms == [] then [LBRACE] + When(fmt, [NEWLINE] + Tabs(depth - 1)) + [RBRACE]
      else
        [LBRACE] + When(fmt, [NEWLINE]) + MembersText(ms, depth + 1, fmt)
        + When(fmt, Tabs(depth)) + [RBRACE]
  }

  function ElementsText(items: seq<Json>, depth: nat, fmt: bool): seq<byte>
    requires items != []
    decreases items, 1
  {
    if |items| == 1 then Text(items[0], depth, fmt)
    else
      Text(items[0], depth, fmt) + [COMMA] + When(fmt, [SPACE]) + ElementsText(items[1..], depth, fmt)
  }

  function MemberText(m: Member, depth: nat, fmt: bool): seq<byte>
    decreases m, 1
  {
    When(fmt, Tabs(depth)) + Quoted(m.name) + [COLON] + When(fmt, [TAB]) + Text(m.value, depth, fmt)
  }

  function MembersText(ms: seq<Member>, depth: nat, fmt: bool): seq<byte>
    requires ms != []
    decreases ms, 1
  {
    if |ms| == 1 then MemberText(ms[0], depth, fmt) + When(fmt, [NEWLINE])
    else
      MemberText(ms[0], depth, fmt) + [COMMA] + When(fmt, [NEWLINE]) + MembersText(ms[1..], depth, fmt)
  }

  /** `cJSON_Print` and `cJSON_PrintUnformatted` */
  function Print(v: Json): seq<byte> { Text(v, 0, true) }

  function PrintUnformatted(v: Json): seq<byte> { Text(v, 0, false) }

  // Composing a list piece by piece --------------------------------------------

  /** The elements from number `i` on. */
  function ElementsFrom(items: seq<Json>, i: nat, depth: nat, fmt: bool): seq<byte> {
    if i < |items| then ElementsText(items[i..], depth, fmt) else []
  }

  function MembersFrom(ms: seq<Member>, i: nat, depth: nat, fmt: bool): seq<byte> {
    if i < |ms| then MembersText(ms[i..], depth, fmt) else []
  }

  /** What stands behind element `i`, and behind member `i`. */
  function ElementEnd(next: bool, fmt: bool): seq<byte> {
    if next then [COMMA] + When(fmt, [SPACE]) else []
  }

  function MemberEnd(next: bool, fmt: bool): seq<byte> {
    (if next then [COMMA] else []) + When(fmt, [NEWLINE])
  }

  lemma ElementStep(t: seq<byte>, items: seq<Json>, i: nat, depth: nat, fmt: bool, close: seq<byte>)
    requires i < |items|
    ensures t + ElementsFrom(items, i, depth, fmt) + close ==
            t + Text(items[i], depth, fmt) + ElementEnd(i + 1 < |items|, fmt)
            + ElementsFrom(items, i + 1, depth, fmt) + close
  {
    assert items[i..][1..] == items[i + 1..];
    hide Text;
    Regrouped(t, Text(items[i], depth, fmt), [COMMA], When(fmt, [SPACE]), ElementsFrom(items, i + 1, depth, fmt));
  }

  lemma MemberStep(t: seq<byte>, ms: seq<Member>, i: nat, depth: nat, fmt: bool, close: seq<byte>)
    requires i < |ms|
    ensures t + MembersFrom(ms, i, depth, fmt) + close ==
            t + MemberText(ms[i], depth, fmt) + MemberEnd(i + 1 < |ms|, fmt)
            + MembersFrom(ms, i + 1, depth, fmt) + close
  {
    assert ms[i..][1..] == ms[i + 1..];
    hide MemberText;
    Regrouped(t, MemberText(ms[i], depth, fmt), [COMMA], When(fmt, [NEWLINE]), MembersFrom(ms, i + 1, depth, fmt));
  }

  lemma Regrouped(t: seq<byte>, a: seq<byte>, b: seq<byte>, c: seq<byte>, d: seq<byte>)
    ensures t + (a + b + c + d) == t + a + (b + c) + d && t + (a + c) == t + a + ([] + c) + []
    ensures t + a == t + a + [] + []
  {}
}
