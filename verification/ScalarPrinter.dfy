/** The strings and numbers both printers write, measured first and then written. */
module ScalarPrinter {
  import opened CText
  import opened Decimal
  import opened Unicode
  import opened JsonValue
  import opened Parser
  import opened Printer
  import opened PrintBuffers

  // Strings --------------------------------------------------------------------

  predicate NeedsEscape(c: byte) {
    0 < c < 32 || c == QUOTE || c == BACKSLASH
  }

  lemma {:induction false} PlainText(s: seq<byte>)
    requires NulFree(s) && forall i :: 0 <= i < |s| ==> !NeedsEscape(s[i])
    ensures Escape(s) == s
  {
    if s != [] {
      assert s[0] != NUL;
      PlainText(s[1..]);
    }
  }

  lemma EscapeUnfold(s: seq<byte>, i: nat)
    requires i < |s|
    ensures Escape(s[i..]) == EscapeByte(s[i]) + Escape(s[i + 1..])
  {
    assert s[i..][1..] == s[i + 1..];
  }

  lemma NothingEscaped()
    ensures Escape([]) == []
  {}

  lemma EscapedLength(c: byte)
    ensures |EscapeByte(c)| ==
      if c in [QUOTE, BACKSLASH, BACKSPACE, FORMFEED, NEWLINE, RETURN, TAB] then 2 else if c < 32 then 6 else 1
  {}

  /** The first passes of `print_string_ptr`. */
  method MeasureString(str: seq<byte>) returns (len: nat, flag: bool)
    requires NulFree(str)
    ensures len == |Escape(str)| && (!flag ==> Escape(str) == str)
  {
    hide Escape, EscapeByte;
    var ptr := 0;
    flag := false;
    while At(str, ptr) != NUL
      invariant ptr <= |str| && (!flag ==> forall i :: 0 <= i < ptr ==> !NeedsEscape(str[i]))
      decreases |str| - ptr
    {
      flag := flag || NeedsEscape(str[ptr]);
      ptr := ptr + 1;
    }
    if !flag {
      PlainText(str);
      return ptr, flag;
    }
    len, ptr := 0, 0;
    assert str[0..] == str;
    NothingEscaped();
    while At(str, ptr) != NUL
      invariant ptr <= |str| && len + |Escape(str[ptr..])| == |Escape(str)|
      decreases |str| - ptr
    {
      EscapeUnfold(str, ptr);
      EscapedLength(str[ptr]);
      var token := str[ptr];
      len := len + 1;
      if token in [QUOTE, BACKSLASH, BACKSPACE, FORMFEED, NEWLINE, RETURN, TAB] {
        len := len + 1;
      } else if token < 32 {
        len := len + 5;
      }
      ptr := ptr + 1;
    }
    assert str[ptr..] == [];
  }

  lemma EscapedAs(c: byte, t: seq<byte>)
    ensures var plain := c > 31 && c != QUOTE && c != BACKSLASH;
            t + EscapeByte(c) == if plain then t + [c] else t + [BACKSLASH] + EscapeTail(c)
    ensures |EscapeByte(c)| == |t + EscapeByte(c)| - |t|
  {}

  /** One byte of the second pass, escaped where it has to be. */
  method WriteEscaped(out: array<byte>, ptr: nat, token: byte, ghost t: seq<byte>)
    returns (ptr': nat, ghost t': seq<byte>)
    requires Filled(out, t) && ptr == |t| && ptr + |EscapeByte(token)| <= out.Length && token != NUL
    modifies out
    ensures t' == t + EscapeByte(token) && Filled(out, t') && ptr' == |t'|
  {
    hide Filled, EscapeByte, Hex4;
    EscapedAs(token, t);
    if token > 31 && token != QUOTE && token != BACKSLASH {
      ptr', t' := Put(out, ptr, token, t);
    } else {
      ptr', t' := Put(out, ptr, BACKSLASH, t);
      match token {
        case 92 => ptr', t' := Put(out, ptr', BACKSLASH, t');
        case 34 => ptr', t' := Put(out, ptr', QUOTE, t');
        case 8 => ptr', t' := Put(out, ptr', 98, t');
        case 12 => ptr', t' := Put(out, ptr', 102, t');
        case 10 => ptr', t' := Put(out, ptr', 110, t');
        case 13 => ptr', t' := Put(out, ptr', 114, t');
        case 9 => ptr', t' := Put(out, ptr', 116, t');
        case _ => ptr', t' := Copy(out, ptr', [U] + Hex4(token), t');
      }
    }
  }

  /** The last pass of `print_string_ptr`, into the room the first passes measured. */
  method WriteString(out: array<byte>, start: nat, str: seq<byte>, len: nat, flag: bool, ghost t: seq<byte>)
    returns (ghost t': seq<byte>)
    requires Filled(out, t) && start == |t| && start + len + 3 <= out.Length && NulFree(str)
    requires len == |Escape(str)| && (!flag ==> Escape(str) == str)
    modifies out
    ensures t' == t + Quoted(str) + [NUL] && Filled(out, t')
  {
    var ptr;
    ptr, t' := Put(out, start, QUOTE, t);
    if !flag {
      ptr, t' := Copy(out, ptr, str, t');
    } else {
      var i := 0;
      assert str[0..] == str;
      ghost var goal := t' + Escape(str);
      while At(str, i) != NUL
        invariant i <= |str| && t' + Escape(str[i..]) == goal
        invariant Filled(out, t') && ptr == |t'|
        decreases |str| - i
      {
        EscapeUnfold(str, i);
        Shift(t', EscapeByte(str[i]), Escape(str[i + 1..]));
        ptr, t' := WriteEscaped(out, ptr, str[i], t');
        i := i + 1;
      }
      assert t' == goal;
    }
    ptr, t' := Put(out, ptr, QUOTE, t');
    ptr, t' := Put(out, ptr, NUL, t');
    Shift(t, [QUOTE], Escape(str));
    Shift(t, [QUOTE] + Escape(str), [QUOTE]);
  }

  lemma Shift(a: seq<byte>, b: seq<byte>, c: seq<byte>)
    ensures a + (b + c) == (a + b) + c
  {}

  // Numbers --------------------------------------------------------------------

  lemma {:induction false} DigitsLength(n: nat, k: nat)
    requires 1 <= k && n < Power10(k)
    ensures |Digits(n)| <= k
    decreases k
  {
    if n >= 10 {
      assert k > 1;
      DigitsLength(n / 10, k - 1);
    }
  }

  /** The 21 bytes set aside hold every 32-bit integer. */
  lemma IntTextLength(n: int)
    requires INT_MIN <= n <= INT_MAX
    ensures |IntText(n)| <= 11
  {
    assert Power10(2) == 100 && Power10(4) == 100_00 && Power10(6) == 100_00_00 && Power10(8) == 100_00_00_00;
    assert Power10(10) == 100_00_00_00_00;
    DigitsLength(if n < 0 then -n else n, 10);
  }

  // No rendering holds the terminator --------------------------------------------

  lemma {:induction false} DigitsNulFree(n: nat)
    ensures NulFree(Digits(n))
    decreases n
  {
    if n >= 10 { DigitsNulFree(n / 10); }
  }

  lemma EscapedByteNulFree(c: byte)
    requires c != NUL
    ensures NulFree(EscapeByte(c))
  {
    if |EscapeTail(c)| > 1 { HexNulFree(c); }
  }

  lemma HexNulFree(c: byte)
    ensures NulFree(Hex4(c))
  {}

  lemma {:induction false} EscapeNulFree(s: seq<byte>)
    requires NulFree(s)
    ensures NulFree(Escape(s))
  {
    hide EscapeByte;
    if s != [] {
      EscapeNulFree(s[1..]);
      assert s[0] in s;
      EscapedByteNulFree(s[0]);
    }
  }

  lemma {:induction false} TextNulFree(v: Json, depth: nat, fmt: bool)
    requires Printable(v)
    ensures NulFree(Text(v, depth, fmt))
    decreases v, 0
  {
    hide Digits, Escape, ElementsText, MembersText;
    match v
    case Number(d) => DigitsNulFree(if d.Floor < 0 then -d.Floor else d.Floor);
    case String(s) => EscapeNulFree(s);
    case Array(items) => if items != [] { ElementsNulFree(items, depth + 1, fmt); }
    case Object(ms) => if ms != [] { MembersNulFree(ms, depth + 1, fmt); }
    case _ =>
  }

  lemma {:induction false} ElementsNulFree(items: seq<Json>, depth: nat, fmt: bool)
    requires items != [] && forall i :: 0 <= i < |items| ==> Printable(items[i])
    ensures NulFree(ElementsText(items, depth, fmt))
    decreases items, 1
  {
    TextNulFree(items[0], depth, fmt);
    if |items| > 1 { ElementsNulFree(items[1..], depth, fmt); }
  }

  lemma {:induction false} MembersNulFree(ms: seq<Member>, depth: nat, fmt: bool)
    requires ms != [] && forall i :: 0 <= i < |ms| ==> NulFree(ms[i].name) && Printable(ms[i].value)
    ensures NulFree(MembersText(ms, depth, fmt))
    decreases ms, 1
  {
    EscapeNulFree(ms[0].name);
    TextNulFree(ms[0].value, depth, fmt);
    if |ms| > 1 { MembersNulFree(ms[1..], depth, fmt); }
  }
}
