/**
 The printer that writes a linked tree straight into a growing buffer. Whatever
 the buffer holds and however often it moves, the text it leaves behind is the
 one the allocating printer composes.
 */
module BufferedPrinter {
  import opened CText
  import opened JsonValue
  import opened CJsonNode
  import opened Links
  import opened TreeView
  import opened Parser
  import opened Printer
  import opened PrintBuffers
  import opened ScalarPrinter
  import opened PrintWalk

  /** The buffer holds exactly `t` in front of its offset. */
  ghost predicate Ready(p: PrintBuffer, t: seq<byte>)
    reads p, p.buffer
  {
    p.Valid() && p.offset == |t| && Filled(p.buffer, t)
  }

  /**
   The buffer holds the terminated text `before + text`. The offset is
   anywhere in `text`, where `update` finds the end from.
   */
  ghost predicate Written(p: PrintBuffer, before: seq<byte>, text: seq<byte>)
    reads p, p.buffer
  {
    p.Valid() && Filled(p.buffer, before + text + [NUL]) && |before| <= p.offset <= |before + text|
  }

  lemma OffsetOf(p: PrintBuffer, t: seq<byte>)
    requires Ready(p, t)
    ensures p.offset == |t|
  {}

  ghost predicate Fits(t: seq<byte>, text: seq<byte>) {
    |t| + |text| + 21 <= MAX
  }

  /** What a piece of the printer may touch. */
  twostate predicate SameOrMoved(p: PrintBuffer)
    reads p
  {
    p.buffer == old(p.buffer) || fresh(p.buffer)
  }

  /** `ensure`, the bytes `s`, a terminator if room was asked for it, and past `s`. */
  method Append(p: PrintBuffer, s: seq<byte>, needed: nat, ghost t: seq<byte>) returns (ghost t': seq<byte>)
    requires Ready(p, t) && |s| <= needed && |t| + needed <= MAX
    modifies p, p.buffer
    ensures t' == t + s && Ready(p, t') && SameOrMoved(p)
  {
    var ptr := p.Ensure(needed);
    ptr, t' := Copy(p.buffer, ptr, s, t);
    if |s| < needed {
      ghost var t0;
      ptr, t0 := Put(p.buffer, ptr, NUL, t');
      assert p.buffer[..|t0|][..|t'|] == t';
    }
    p.offset := p.offset + |s|;
  }

  /** The last bytes of a value: `ensure`, the bytes `s` and the terminator. */
  method Finish(p: PrintBuffer, s: seq<byte>, needed: nat, ghost t: seq<byte>, ghost before: seq<byte>,
                ghost text: seq<byte>)
    returns (ptr: nat)
    requires Ready(p, t) && |s| < needed && |t| + needed <= MAX && |before| <= |t| && t + s == before + text
    modifies p, p.buffer
    ensures ptr == |t| && Written(p, before, text) && SameOrMoved(p)
  {
    ptr := p.Ensure(needed);
    var end;
    ghost var u;
    end, u := Copy(p.buffer, ptr, s, t);
    end, u := Put(p.buffer, end, NUL, u);
  }

  /** `p->offset=update(p)` */
  method Advance(p: PrintBuffer, ghost before: seq<byte>, ghost text: seq<byte>)
    requires Written(p, before, text) && NulFree(text)
    modifies p`offset
    ensures Ready(p, before + text)
  {
    ghost var t := before + text;
    assert forall i :: |before| <= i < |t| ==> t[i] == text[i - |before|];
    p.offset := p.Update(t);
    assert p.buffer[..|t + [NUL]|][..|t|] == t;
  }

  /** `print_string_ptr` with a buffer. */
  method PrintStringPtr(str: seq<byte>, p: PrintBuffer, ghost before: seq<byte>) returns (ptr: nat)
    requires Ready(p, before) && NulFree(str) && Fits(before, Quoted(str))
    modifies p, p.buffer
    ensures ptr == |before| && Written(p, before, Quoted(str)) && SameOrMoved(p)
  {
    var len, flag := MeasureString(str);
    ptr := p.Ensure(len + 3);
    ghost var t := WriteString(p.buffer, ptr, str, len, flag, before);
  }

  /** `print_number` with a buffer. */
  method PrintNumber(item: Node, p: PrintBuffer, ghost before: seq<byte>) returns (ptr: nat)
    requires IsInt32(item.valuedouble)
    requires Ready(p, before) && Fits(before, NumberText(item.valuedouble))
    modifies p, p.buffer
    ensures ptr == |before| && Written(p, before, NumberText(item.valuedouble)) && SameOrMoved(p)
  {
    var d := item.valuedouble;
    if d == 0.0 {
      ptr := Finish(p, [ZERO], 2, before, before, [ZERO]);
    } else {
      IntTextLength(d.Floor);
      ptr := Finish(p, IntText(d.Floor), 21, before, before, IntText(d.Floor));
    }
  }

  // Values ---------------------------------------------------------------------

  /** `print_value` with a buffer. */
  method PrintValue(item: Node, depth: nat, fmt: bool, p: PrintBuffer, ghost w: View, ghost v: Json,
                    ghost before: seq<byte>)
    returns (ptr: nat)
    requires Prints(item, w, v) && Ready(p, before) && Fits(before, Text(v, depth, fmt))
    modifies p, p.buffer
    ensures ptr == |before| && Written(p, before, Text(v, depth, fmt)) && SameOrMoved(p)
    decreases v, 3
  {
    hide Prints, Reads, Written, Ready, Printable;
    Fields(item, w, v);
    match item.kind {
      case NullKind => ptr := Finish(p, NULL_TEXT, 5, before, before, NULL_TEXT);
      case FalseKind => ptr := Finish(p, FALSE_TEXT, 6, before, before, FALSE_TEXT);
      case TrueKind => ptr := Finish(p, TRUE_TEXT, 5, before, before, TRUE_TEXT);
      case NumberKind => ptr := PrintNumber(item, p, before);
      case StringKind => ptr := PrintStringPtr(item.valuestring.value, p, before);
      case ArrayKind => ptr := PrintArray(item, depth, fmt, p, w, v, before);
      case ObjectKind => ptr := PrintObject(item, depth, fmt, p, w, v, before);
    }
  }

  /** `print_array` with a buffer. */
  method PrintArray(item: Node, depth: nat, fmt: bool, p: PrintBuffer, ghost w: View, ghost v: Json,
                    ghost before: seq<byte>)
    returns (out: nat)
    requires v.Array? && Prints(item, w, v) && Ready(p, before) && Fits(before, Text(v, depth, fmt))
    modifies p, p.buffer
    ensures out == |before| && Written(p, before, Text(v, depth, fmt)) && SameOrMoved(p)
    decreases v, 2
  {
    hide Prints, AtKid, Reads, Chain, Written, Ready, Printable, Text, ElementsText, NulFree, Roots, KidValues;
    Fields(item, w, v);
    FirstKid(item, w, v);
    ArrayText(v.items, depth, fmt);
    ghost var text := Text(v, depth, fmt);
    ghost var t, i := before, 0;
    var numentries := CountChildren(item, w);
    if numentries == 0 {
      out := Finish(p, [LBRACKET, RBRACKET], 3, before, before, text);
      return;
    }
    out := p.offset;
    OffsetOf(p, before);
    Shift3(before, [LBRACKET], ElementsFrom(v.items, 0, depth + 1, fmt), [RBRACKET]);
    t := Append(p, [LBRACKET], 1, before);
    var child := item.child;
    while child != null
      invariant out == |before| < |t| && i <= Size(v) && AtKid(child, w, v, i) && Ready(p, t) && SameOrMoved(p)
      invariant t + ElementsFrom(v.items, i, depth + 1, fmt) + [RBRACKET] == before + text
      decreases Size(v) - i
    {
      t := PrintElement(child, depth + 1, fmt, p, w, v, i, t, before + text);
      child := child.next;
      i := i + 1;
    }
    LastKid(w, v, i);
    var ptr := Finish(p, [RBRACKET], 2, t, before, text);
  }

  /** One round of the loop: the element, and a comma when another one follows. */
  method PrintElement(child: Node, depth: nat, fmt: bool, p: PrintBuffer,
                      ghost w: View, ghost v: Json, ghost i: nat, ghost t: seq<byte>, ghost goal: seq<byte>)
    returns (ghost t': seq<byte>)
    requires v.Array? && AtKid(child, w, v, i) && Ready(p, t)
    requires t + ElementsFrom(v.items, i, depth, fmt) + [RBRACKET] == goal && |goal| + 21 <= MAX
    modifies p, p.buffer
    ensures |t| <= |t'| && Ready(p, t') && SameOrMoved(p) && i < Size(v) && AtKid(child.next, w, v, i + 1)
    ensures t' + ElementsFrom(v.items, i + 1, depth, fmt) + [RBRACKET] == goal
    decreases v, 1
  {
    hide Prints, AtKid, Reads, Chain, Written, Ready, Printable, Text, ElementsText, NulFree, Roots, KidValues;
    Kid(child, w, v, i);
    ElementStep(t, v.items, i, depth, fmt, [RBRACKET]);
    ghost var text := Text(v.items[i], depth, fmt);
    TextNulFree(v.items[i], depth, fmt);
    var ptr := PrintValue(child, depth, fmt, p, w.kids[i], v.items[i], t);
    Advance(p, t, text);
    t' := t + text;
    if child.next != null {
      var len := if fmt then 2 else 1;
      t' := Append(p, [COMMA] + When(fmt, [SPACE]), len + 1, t');
    }
    assert t' == t + text + ElementEnd(i + 1 < |v.items|, fmt);
  }

  /** `print_object` with a buffer. */
  method PrintObject(item: Node, depth0: nat, fmt: bool, p: PrintBuffer, ghost w: View, ghost v: Json,
                     ghost before: seq<byte>)
    returns (out: nat)
    requires v.Object? && Prints(item, w, v) && Ready(p, before) && Fits(before, Text(v, depth0, fmt))
    modifies p, p.buffer
    ensures out == |before| && Written(p, before, Text(v, depth0, fmt)) && SameOrMoved(p)
    decreases v, 2
  {
    hide Prints, AtKid, Reads, Chain, Written, Ready, Printable, Text, MembersText, NulFree, Roots, KidValues;
    Fields(item, w, v);
    FirstKid(item, w, v);
    ObjectText(v.members, depth0, fmt);
    ghost var text := Text(v, depth0, fmt);
    ghost var t, i := before, 0;
    var numentries := CountChildren(item, w);
    if numentries == 0 {
      out := Finish(p, [LBRACE] + When(fmt, [NEWLINE] + Tabs(depth0 - 1)) + [RBRACE], if fmt then depth0 + 4 else 3,
                    before, before, text);
      return;
    }
    out := p.offset;
    OffsetOf(p, before);
    ghost var close := When(fmt, Tabs(depth0)) + [RBRACE];
    Shift3(before, [LBRACE] + When(fmt, [NEWLINE]), MembersFrom(v.members, 0, depth0 + 1, fmt), close);
    var len := if fmt then 2 else 1;
    t := Append(p, [LBRACE] + When(fmt, [NEWLINE]), len + 1, before);
    var child := item.child;
    var depth := depth0 + 1;
    while child != null
      invariant out == |before| < |t| && i <= Size(v) && AtKid(child, w, v, i) && Ready(p, t) && SameOrMoved(p)
      invariant t + MembersFrom(v.members, i, depth, fmt) + close == before + text
      decreases Size(v) - i
    {
      t := PrintMember(child, depth, fmt, p, w, v, i, t, close, before + text);
      child := child.next;
      i := i + 1;
    }
    LastKid(w, v, i);
    var ptr := Finish(p, When(fmt, Tabs(depth - 1)) + [RBRACE], if fmt then depth + 1 else 2, t, before, text);
  }

  /** One round of the loop: the member, and what stands between it and the next one. */
  method PrintMember(child: Node, depth: nat, fmt: bool, p: PrintBuffer,
                     ghost w: View, ghost v: Json, ghost i: nat,
                     ghost t: seq<byte>, ghost close: seq<byte>, ghost goal: seq<byte>)
    returns (ghost t': seq<byte>)
    requires v.Object? && AtKid(child, w, v, i) && Ready(p, t)
    requires t + MembersFrom(v.members, i, depth, fmt) + close == goal && |goal| + 21 <= MAX
    modifies p, p.buffer
    ensures |t| <= |t'| && Ready(p, t') && SameOrMoved(p) && i < Size(v) && AtKid(child.next, w, v, i + 1)
    ensures t' + MembersFrom(v.members, i + 1, depth, fmt) + close == goal
    decreases v, 1
  {
    hide Prints, AtKid, Reads, Chain, Written, Ready, Printable, Text, MembersText, NulFree, Roots, KidValues;
    Kid(child, w, v, i);
    ghost var m := v.members[i];
    MemberStep(t, v.members, i, depth, fmt, close);
    ghost var text := Text(m.value, depth, fmt);
    TextNulFree(m.value, depth, fmt);
    t' := PrintName(child.name.value, depth, fmt, p, t);
    Kid(child, w, v, i);
    var ptr := PrintValue(child, depth, fmt, p, w.kids[i], m.value, t');
    Advance(p, t', text);
    t' := t' + text;
    MemberPieces(t, When(fmt, Tabs(depth)), Quoted(m.name), When(fmt, [TAB]), text);
    var len := (if fmt then 1 else 0) + (if child.next != null then 1 else 0);
    t' := Append(p, MemberEnd(child.next != null, fmt), len + 1, t');
  }

  /** `"name":` with its indentation. */
  method PrintName(name: seq<byte>, depth: nat, fmt: bool, p: PrintBuffer, ghost t: seq<byte>)
    returns (ghost t': seq<byte>)
    requires Ready(p, t) && NulFree(name) && |t| + |When(fmt, Tabs(depth))| + |Quoted(name)| + 21 <= MAX
    modifies p, p.buffer
    ensures t' == t + When(fmt, Tabs(depth)) + Quoted(name) + ([COLON] + When(fmt, [TAB]))
    ensures Ready(p, t') && SameOrMoved(p)
  {
    hide Ready, Written, NulFree, Quoted;
    QuotedNulFree(name);
    t' := t;
    assert t + [] == t;
    if fmt { t' := Append(p, Tabs(depth), depth, t'); }
    var ptr := PrintStringPtr(name, p, t');
    Advance(p, t', Quoted(name));
    t' := t' + Quoted(name);
    var len := if fmt then 2 else 1;
    t' := Append(p, [COLON] + When(fmt, [TAB]), len, t');
  }

  /** `cJSON_PrintBuffered`: the text of `cJSON_Print` or `cJSON_PrintUnformatted`, from any first size. */
  method PrintBuffered(item: Node, prebuffer: nat, fmt: bool, ghost w: View, ghost v: Json) returns (out: seq<byte>)
    requires Prints(item, w, v) && Fits([], Text(v, 0, fmt))
    ensures out == Text(v, 0, fmt)
  {
    hide Prints, Text, NulFree;
    Fields(item, w, v);
    var p := new PrintBuffer(prebuffer);
    ghost var text := Text(v, 0, fmt);
    assert [] + text == text;
    PrintableOf(item, w, v);
    TextNulFree(v, 0, fmt);
    var ptr := PrintValue(item, 0, fmt, p, w, v, []);
    Advance(p, [], text);
    out := p.buffer[ptr..p.offset];
  }
}
