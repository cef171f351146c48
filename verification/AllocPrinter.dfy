/**
 The printer that allocates: it renders every part into a string of its own,
 adds up the room, and composes the parts in a block of that size. That every
 write stays inside its block is part of what verifies here.
 */
module AllocPrinter {
  import opened CText
  import opened JsonValue
  import opened CJsonNode
  import opened Links
  import opened TreeView
  import opened Parser
  import opened Printer
  import opened PrintBuffers
  import opened ScalarPrinter
  import opened PrintWalk

  /** A terminated string as its reader sees it, by `strlen`. */
  method StringOf(out: array<byte>, ghost t: seq<byte>) returns (s: seq<byte>)
    requires Filled(out, t + [NUL]) && NulFree(t)
    ensures s == t
  {
    assert forall i :: 0 <= i <= |t| ==> out[i] == (t + [NUL])[i];
    var n := 0;
    while out[n] != NUL
      invariant n <= |t|
      decreases |t| - n
    {
      n := n + 1;
    }
    s := out[..n];
  }

  /** `strcpy` into a block of `size` bytes. */
  method StringIn(size: nat, s: seq<byte>) returns (r: seq<byte>)
    requires |s| < size && NulFree(s)
    ensures r == s
  {
    var out := new byte[size];
    var ptr;
    ghost var t;
    ptr, t := Copy(out, 0, s, []);
    ptr, t := Put(out, ptr, NUL, t);
    assert t == s + [NUL];
    r := StringOf(out, s);
  }

  /** `print_string_ptr` without a buffer: the block of `len + 3` bytes is filled exactly. */
  method PrintStringPtr(str: seq<byte>) returns (r: seq<byte>, ghost block: seq<byte>)
    requires NulFree(str)
    ensures r == Quoted(str) && block == Quoted(str) + [NUL]
  {
    QuotedNulFree(str);
    var len, flag := MeasureString(str);
    var out := new byte[len + 3];
    ghost var t := WriteString(out, 0, str, len, flag, []);
    assert t == Quoted(str) + [NUL];
    r := StringOf(out, Quoted(str));
    block := out[..];
  }

  /** `print_number` without a buffer. */
  method PrintNumber(item: Node) returns (r: seq<byte>)
    requires IsInt32(item.valuedouble)
    ensures r == NumberText(item.valuedouble)
  {
    var d := item.valuedouble;
    TextNulFree(Number(d), 0, false);
    if d == 0.0 {
      r := StringIn(2, [ZERO]);
    } else {
      IntTextLength(d.Floor);
      r := StringIn(21, IntText(d.Floor));
    }
  }

  // The room the first pass adds up ------------------------------------------------

  function ElementRoom(text: nat, fmt: bool): nat {
    text + 2 + (if fmt then 1 else 0)
  }

  function MemberRoom(name: nat, text: nat, depth: nat, fmt: bool): nat {
    text + name + 2 + (if fmt then 2 + depth else 0)
  }

  ghost function ElementsRoom(items: seq<Json>, i: nat, depth: nat, fmt: bool): nat
    decreases |items| - i
  {
    if i >= |items| then 0
    else ElementRoom(|Text(items[i], depth, fmt)|, fmt) + ElementsRoom(items, i + 1, depth, fmt)
  }

  ghost function MembersRoom(ms: seq<Member>, i: nat, depth: nat, fmt: bool): nat
    decreases |ms| - i
  {
    if i >= |ms| then 0
    else
      MemberRoom(|Quoted(ms[i].name)|, |Text(ms[i].value, depth, fmt)|, depth, fmt)
      + MembersRoom(ms, i + 1, depth, fmt)
  }

  ghost function KidValue(v: Json, j: nat): (k: Json)
    requires j < Size(v)
    ensures k < v
  {
    if v.Array? then v.items[j] else v.members[j].value
  }

  /** What child `i` adds to the room. */
  lemma RoomTaken(v: Json, i: nat, depth: nat, fmt: bool)
    requires i < Size(v)
    ensures v.Array? ==>
      ElementsRoom(v.items, i, depth, fmt) ==
      ElementRoom(|Text(KidValue(v, i), depth, fmt)|, fmt) + ElementsRoom(v.items, i + 1, depth, fmt)
    ensures v.Object? ==>
      MembersRoom(v.members, i, depth, fmt) ==
      MemberRoom(|Quoted(v.members[i].name)|, |Text(KidValue(v, i), depth, fmt)|, depth, fmt)
      + MembersRoom(v.members, i + 1, depth, fmt)
  {
    hide Text, Quoted;
  }

  lemma NoRoomLeft(v: Json, i: nat, depth: nat, fmt: bool)
    requires i == Size(v)
    ensures v.Array? ==> ElementsRoom(v.items, i, depth, fmt) == 0
    ensures v.Object? ==> MembersRoom(v.members, i, depth, fmt) == 0
  {}

  /** The block of `print_array` holds the array and its terminator. */
  lemma ArrayFits(items: seq<Json>, depth: nat, fmt: bool)
    requires items != []
    ensures |Text(Array(items), depth, fmt)| + 1 <= 5 + ElementsRoom(items, 0, depth + 1, fmt)
  {
    ArrayText(items, depth, fmt);
    ElementsFit(items, 0, depth + 1, fmt);
  }

  lemma {:induction false} ElementsFit(items: seq<Json>, i: nat, depth: nat, fmt: bool)
    requires i <= |items|
    ensures |ElementsFrom(items, i, depth, fmt)| <= ElementsRoom(items, i, depth, fmt)
    decreases |items| - i
  {
    hide Text;
    if i < |items| {
      ElementStep([], items, i, depth, fmt, []);
      ElementsFit(items, i + 1, depth, fmt);
    }
  }

  /** The block of `print_object` holds the object and its terminator, at every depth. */
  lemma ObjectFits(ms: seq<Member>, depth: nat, fmt: bool)
    requires ms != []
    ensures |Text(Object(ms), depth, fmt)| + 1 <=
            7 + (if fmt then depth + 1 else 0) + MembersRoom(ms, 0, depth + 1, fmt)
  {
    ObjectText(ms, depth, fmt);
    MembersFit(ms, 0, depth + 1, fmt);
  }

  lemma {:induction false} MembersFit(ms: seq<Member>, i: nat, depth: nat, fmt: bool)
    requires i <= |ms|
    ensures |MembersFrom(ms, i, depth, fmt)| <= MembersRoom(ms, i, depth, fmt)
    decreases |ms| - i
  {
    hide Text, Quoted;
    if i < |ms| {
      MemberStep([], ms, i, depth, fmt, []);
      MembersFit(ms, i + 1, depth, fmt);
    }
  }

  // Values -------------------------------------------------------------------------

  /** `print_value` without a buffer. */
  method PrintValue(item: Node, depth: nat, fmt: bool, ghost w: View, ghost v: Json) returns (r: seq<byte>)
    requires Prints(item, w, v)
    ensures r == Text(v, depth, fmt)
    decreases v, 3
  {
    hide Prints, Reads, Printable;
    Fields(item, w, v);
    match item.kind {
      case NullKind => r := StringIn(5, NULL_TEXT);
      case FalseKind => r := StringIn(6, FALSE_TEXT);
      case TrueKind => r := StringIn(5, TRUE_TEXT);
      case NumberKind => r := PrintNumber(item);
      case StringKind =>
        ghost var block;
        r, block := PrintStringPtr(item.valuestring.value);
      case ArrayKind => r := PrintArray(item, depth, fmt, w, v);
      case ObjectKind => r := PrintObject(item, depth, fmt, w, v);
    }
  }

  /** The strings so far are the renderings of the first children. */
  ghost predicate Rendered(entries: seq<seq<byte>>, v: Json, n: nat, depth: nat, fmt: bool)
    requires n <= Size(v) == |entries|
  {
    forall j :: 0 <= j < n ==> entries[j] == Text(KidValue(v, j), depth, fmt)
  }

  ghost predicate Named(names: seq<seq<byte>>, v: Json, n: nat)
    requires v.Object? && n <= |v.members| == |names|
  {
    forall j :: 0 <= j < n ==> names[j] == Quoted(v.members[j].name)
  }

  lemma RenderedMore(entries: seq<seq<byte>>, v: Json, n: nat, depth: nat, fmt: bool)
    requires n < Size(v) == |entries| && Rendered(entries, v, n, depth, fmt)
    ensures Rendered(entries[n := Text(KidValue(v, n), depth, fmt)], v, n + 1, depth, fmt)
  {
    hide Text;
  }

  lemma NamedMore(names: seq<seq<byte>>, v: Json, n: nat)
    requires v.Object? && n < |v.members| == |names| && Named(names, v, n)
    ensures Named(names[n := Quoted(v.members[n].name)], v, n + 1)
  {
    hide Quoted;
  }

  lemma NoneYet(texts: seq<seq<byte>>, v: Json, depth: nat, fmt: bool)
    requires |texts| == Size(v)
    ensures Rendered(texts, v, 0, depth, fmt) && (v.Object? ==> Named(texts, v, 0))
  {}

  /** `print_array` without a buffer. */
  method PrintArray(item: Node, depth: nat, fmt: bool, ghost w: View, ghost v: Json) returns (r: seq<byte>)
    requires v.Array? && Prints(item, w, v)
    ensures r == Text(v, depth, fmt)
    decreases v, 2
  {
    hide Prints, AtKid, Reads, Chain, Printable, Text, ElementsText, NulFree, Roots, KidValues, Rendered, ElementsRoom,
         ElementsFrom;
    Fields(item, w, v);
    FirstKid(item, w, v);
    ArrayText(v.items, depth, fmt);
    var numentries := CountChildren(item, w);
    if numentries == 0 {
      r := StringIn(3, [LBRACKET, RBRACKET]);
      return;
    }
    var entries := new seq<byte>[numentries](_ => []);
    var len, i := 5, 0;
    ghost var texts := entries[..];
    NoneYet(texts, v, depth + 1, fmt);
    var child := item.child;
    while child != null
      invariant i <= numentries == |texts| && AtKid(child, w, v, i)
      invariant entries[..] == texts && Rendered(texts, v, i, depth + 1, fmt)
      invariant len + ElementsRoom(v.items, i, depth + 1, fmt) == 5 + ElementsRoom(v.items, 0, depth + 1, fmt)
      decreases numentries - i
    {
      var ret := PrintElement(child, depth + 1, fmt, w, v, i);
      RenderedMore(texts, v, i, depth + 1, fmt);
      RoomTaken(v, i, depth + 1, fmt);
      entries[i] := ret;
      texts := texts[i := ret];
      len := len + ElementRoom(|ret|, fmt);
      child := child.next;
      i := i + 1;
    }
    LastKid(w, v, i);
    ArrayFits(v.items, depth, fmt);
    NoRoomLeft(v, i, depth + 1, fmt);
    r := ComposeArray(entries, len, depth, fmt, v);
  }

  method PrintElement(child: Node, depth: nat, fmt: bool, ghost w: View, ghost v: Json, ghost i: nat)
    returns (ret: seq<byte>)
    requires v.Array? && AtKid(child, w, v, i)
    ensures i < Size(v) && ret == Text(v.items[i], depth, fmt) && AtKid(child.next, w, v, i + 1)
    decreases v, 1
  {
    hide Prints, AtKid, Reads, Chain, Printable, Text, NulFree, Roots, KidValues;
    Kid(child, w, v, i);
    ret := PrintValue(child, depth, fmt, w.kids[i], v.items[i]);
    Kid(child, w, v, i);
  }

  /** A text, the part of it that is written, and the part that is still to come. */
  ghost predicate Composed(out: array<byte>, ptr: nat, t: seq<byte>, rest: seq<byte>, goal: seq<byte>)
    reads out
  {
    Filled(out, t) && ptr == |t| && t + rest == goal && |goal| < out.Length
  }

  /** The second half of `print_array`. */
  method ComposeArray(entries: array<seq<byte>>, len: nat, depth: nat, fmt: bool, ghost v: Json) returns (r: seq<byte>)
    requires v.Array? && v.items != [] && entries.Length == |v.items| && Printable(v)
    requires Rendered(entries[..], v, |v.items|, depth + 1, fmt) && |Text(v, depth, fmt)| < len
    ensures r == Text(v, depth, fmt)
  {
    hide Printable, Text, ElementsText, NulFree;
    ghost var items, goal := v.items, Text(v, depth, fmt);
    ArrayText(items, depth, fmt);
    TextNulFree(v, depth, fmt);
    var out := new byte[len];
    var ptr;
    ghost var t;
    ptr, t := Put(out, 0, LBRACKET, []);
    Shift3([], [LBRACKET], ElementsFrom(items, 0, depth + 1, fmt), [RBRACKET]);
    for i := 0 to entries.Length
      invariant Composed(out, ptr, t, ElementsFrom(items, i, depth + 1, fmt) + [RBRACKET], goal)
    {
      ptr, t := ComposeElement(out, ptr, entries, i, depth + 1, fmt, v, t, goal);
    }
    ptr, t := Put(out, ptr, RBRACKET, t);
    ptr, t := Put(out, ptr, NUL, t);
    r := StringOf(out, goal);
  }

  method ComposeElement(out: array<byte>, ptr: nat, entries: array<seq<byte>>, i: nat, depth: nat, fmt: bool,
                        ghost v: Json, ghost t: seq<byte>, ghost goal: seq<byte>)
    returns (ptr': nat, ghost t': seq<byte>)
    requires v.Array? && i < entries.Length == |v.items| && Rendered(entries[..], v, |v.items|, depth, fmt)
    requires Composed(out, ptr, t, ElementsFrom(v.items, i, depth, fmt) + [RBRACKET], goal)
    modifies out
    ensures Composed(out, ptr', t', ElementsFrom(v.items, i + 1, depth, fmt) + [RBRACKET], goal)
  {
    hide Text, ElementsText;
    Shift(t, ElementsFrom(v.items, i, depth, fmt), [RBRACKET]);
    ElementStep(t, v.items, i, depth, fmt, [RBRACKET]);
    var entry := entries[i];
    ghost var next := ElementsFrom(v.items, i + 1, depth, fmt);
    ptr', t' := Copy(out, ptr, entry, t);
    if i != entries.Length - 1 {
      ptr', t' := Put(out, ptr', COMMA, t');
      if fmt { ptr', t' := Put(out, ptr', SPACE, t'); }
      Terminate(out, ptr', t');
    }
    assert t' == t + entry + ElementEnd(i + 1 < |v.items|, fmt);
    Shift(t', next, [RBRACKET]);
  }

  /** `*ptr=0`, which the next part overwrites. */
  method Terminate(out: array<byte>, ptr: nat, ghost t: seq<byte>)
    requires Filled(out, t) && ptr == |t| < out.Length
    modifies out
    ensures Filled(out, t)
  {
    out[ptr] := NUL;
  }

  /** `print_object` without a buffer. */
  method PrintObject(item: Node, depth0: nat, fmt: bool, ghost w: View, ghost v: Json) returns (r: seq<byte>)
    requires v.Object? && Prints(item, w, v)
    ensures r == Text(v, depth0, fmt)
    decreases v, 2
  {
    hide Prints, AtKid, Reads, Chain, Printable, Text, MembersText, NulFree, Roots, KidValues, Quoted, Rendered, Named,
         MembersRoom, MembersFrom, MemberRoom;
    Fields(item, w, v);
    FirstKid(item, w, v);
    ObjectText(v.members, depth0, fmt);
    PrintableOf(item, w, v);
    var numentries := CountChildren(item, w);
    if numentries == 0 {
      TextNulFree(v, depth0, fmt);
      r := StringIn(if fmt then depth0 + 4 else 3, [LBRACE] + When(fmt, [NEWLINE] + Tabs(depth0 - 1)) + [RBRACE]);
      return;
    }
    var names := new seq<byte>[numentries](_ => []);
    var entries := new seq<byte>[numentries](_ => []);
    var len, i, depth := 7, 0, depth0 + 1;
    if fmt { len := len + depth; }
    ghost var len0, labels, texts := len, names[..], entries[..];
    NoneYet(labels, v, depth, fmt);
    NoneYet(texts, v, depth, fmt);
    var child := item.child;
    while child != null
      invariant i <= numentries == |labels| == |texts| && AtKid(child, w, v, i)
      invariant names[..] == labels && Named(labels, v, i)
      invariant entries[..] == texts && Rendered(texts, v, i, depth, fmt)
      invariant len + MembersRoom(v.members, i, depth, fmt) == len0 + MembersRoom(v.members, 0, depth, fmt)
      decreases numentries - i
    {
      var str, ret := PrintMember(child, depth, fmt, w, v, i);
      NamedMore(labels, v, i);
      RenderedMore(texts, v, i, depth, fmt);
      RoomTaken(v, i, depth, fmt);
      names[i], entries[i] := str, ret;
      labels, texts := labels[i := str], texts[i := ret];
      len := len + MemberRoom(|str|, |ret|, depth, fmt);
      child := child.next;
      i := i + 1;
    }
    LastKid(w, v, i);
    ObjectFits(v.members, depth0, fmt);
    NoRoomLeft(v, i, depth, fmt);
    r := ComposeObject(names, entries, len, depth, fmt, v);
  }

  method PrintMember(child: Node, depth: nat, fmt: bool, ghost w: View, ghost v: Json, ghost i: nat)
    returns (str: seq<byte>, ret: seq<byte>)
    requires v.Object? && AtKid(child, w, v, i)
    ensures i < Size(v) && str == Quoted(v.members[i].name) && ret == Text(v.members[i].value, depth, fmt)
    ensures AtKid(child.next, w, v, i + 1)
    decreases v, 1
  {
    hide Prints, AtKid, Reads, Chain, Printable, Text, NulFree, Roots, KidValues, Quoted;
    Kid(child, w, v, i);
    ghost var block;
    str, block := PrintStringPtr(child.name.value);
    Kid(child, w, v, i);
    ret := PrintValue(child, depth, fmt, w.kids[i], v.members[i].value);
  }

  /** The second half of `print_object`. */
  method ComposeObject(names: array<seq<byte>>, entries: array<seq<byte>>, len: nat, depth: nat, fmt: bool,
                       ghost v: Json)
    returns (r: seq<byte>)
    requires v.Object? && v.members != [] && names.Length == entries.Length == |v.members| && Printable(v) && depth > 0
    requires Named(names[..], v, |v.members|) && Rendered(entries[..], v, |v.members|, depth, fmt)
    requires |Text(v, depth - 1, fmt)| < len
    ensures r == Text(v, depth - 1, fmt)
  {
    hide Printable, Text, MembersText, MembersFrom, NulFree, Quoted, Rendered, Named, Composed, Filled, Tabs, When;
    ghost var ms, goal := v.members, Text(v, depth - 1, fmt);
    ghost var close := When(fmt, Tabs(depth - 1)) + [RBRACE];
    ObjectText(ms, depth - 1, fmt);
    TextNulFree(v, depth - 1, fmt);
    var out := new byte[len];
    var ptr;
    ghost var t;
    ptr, t := WriteOpen(out, fmt);
    Begun(out, ptr, t, MembersFrom(ms, 0, depth, fmt), close, goal);
    for i := 0 to entries.Length
      invariant Composed(out, ptr, t, MembersFrom(ms, i, depth, fmt) + close, goal)
    {
      ptr, t := ComposeMember(out, ptr, names, entries, i, depth, fmt, v, t, close, goal);
    }
    NothingFrom(ms, depth, fmt);
    Ended(out, ptr, t, close, goal);
    WriteClose(out, ptr, depth, fmt, t, close);
    r := StringOf(out, goal);
  }

  lemma Begun(out: array<byte>, ptr: nat, t: seq<byte>, more: seq<byte>, close: seq<byte>, goal: seq<byte>)
    requires Filled(out, t) && ptr == |t| && goal == t + more + close && |goal| < out.Length
    ensures Composed(out, ptr, t, more + close, goal)
  {
    Shift(t, more, close);
  }

  lemma NothingFrom(ms: seq<Member>, depth: nat, fmt: bool)
    ensures MembersFrom(ms, |ms|, depth, fmt) == []
  {}

  lemma Ended(out: array<byte>, ptr: nat, t: seq<byte>, close: seq<byte>, goal: seq<byte>)
    requires Composed(out, ptr, t, [] + close, goal)
    ensures Filled(out, t) && ptr == |t| && t + close == goal && |goal| < out.Length
  {
    assert [] + close == close;
  }

  method WriteOpen(out: array<byte>, fmt: bool) returns (ptr: nat, ghost t: seq<byte>)
    requires 1 + |When(fmt, [NEWLINE])| < out.Length
    modifies out
    ensures Filled(out, t) && ptr == |t| && t == [LBRACE] + When(fmt, [NEWLINE])
  {
    ptr, t := Put(out, 0, LBRACE, []);
    if fmt { ptr, t := Put(out, ptr, NEWLINE, t); }
    Terminate(out, ptr, t);
  }

  method WriteClose(out: array<byte>, start: nat, depth: nat, fmt: bool, ghost t: seq<byte>, ghost close: seq<byte>)
    requires Filled(out, t) && start == |t| && close == When(fmt, Tabs(depth - 1)) + [RBRACE]
    requires |t| + |close| < out.Length
    modifies out
    ensures Filled(out, t + close + [NUL])
  {
    var ptr;
    ghost var u;
    ptr, u := start, t;
    if fmt { ptr, u := Copy(out, ptr, Tabs(depth - 1), u); }
    ptr, u := Put(out, ptr, RBRACE, u);
    assert u == t + close;
    ptr, u := Put(out, ptr, NUL, u);
  }

  method ComposeMember(out: array<byte>, ptr: nat, names: array<seq<byte>>, entries: array<seq<byte>>, i: nat,
                       depth: nat, fmt: bool, ghost v: Json, ghost t: seq<byte>, ghost close: seq<byte>,
                       ghost goal: seq<byte>)
    returns (ptr': nat, ghost t': seq<byte>)
    requires v.Object? && i < names.Length == entries.Length == |v.members|
    requires Named(names[..], v, |v.members|) && Rendered(entries[..], v, |v.members|, depth, fmt)
    requires Composed(out, ptr, t, MembersFrom(v.members, i, depth, fmt) + close, goal)
    modifies out
    ensures Composed(out, ptr', t', MembersFrom(v.members, i + 1, depth, fmt) + close, goal)
  {
    hide Text, MembersText, Quoted;
    Shift(t, MembersFrom(v.members, i, depth, fmt), close);
    MemberStep(t, v.members, i, depth, fmt, close);
    var name, entry := names[i], entries[i];
    ghost var next := MembersFrom(v.members, i + 1, depth, fmt);
    MemberPieces(t, When(fmt, Tabs(depth)), name, When(fmt, [TAB]), entry);
    ptr', t' := WriteMember(out, ptr, name, entry, i != entries.Length - 1, depth, fmt, t);
    Shift(t', next, close);
  }

  method WriteMember(out: array<byte>, ptr: nat, name: seq<byte>, entry: seq<byte>, next: bool, depth: nat, fmt: bool,
                     ghost t: seq<byte>)
    returns (ptr': nat, ghost t': seq<byte>)
    requires Filled(out, t) && ptr == |t|
    requires |t| + |When(fmt, Tabs(depth))| + |name| + 1 + |When(fmt, [TAB])| + |entry| + |MemberEnd(next, fmt)|
             < out.Length
    modifies out
    ensures Filled(out, t') && ptr' == |t'|
    ensures t' == t + When(fmt, Tabs(depth)) + name + ([COLON] + When(fmt, [TAB])) + entry + MemberEnd(next, fmt)
  {
    ghost var u := t + When(fmt, Tabs(depth)) + name + ([COLON] + When(fmt, [TAB]));
    ptr', t' := WriteName(out, ptr, name, depth, fmt, t);
    ptr', t' := Copy(out, ptr', entry, t');
    ptr', t' := PutIf(out, ptr', next, COMMA, t');
    ptr', t' := PutIf(out, ptr', fmt, NEWLINE, t');
    assert t' == u + entry + MemberEnd(next, fmt);
    Terminate(out, ptr', t');
  }

  method WriteName(out: array<byte>, ptr: nat, name: seq<byte>, depth: nat, fmt: bool, ghost t: seq<byte>)
    returns (ptr': nat, ghost t': seq<byte>)
    requires Filled(out, t) && ptr == |t|
    requires |t| + |When(fmt, Tabs(depth))| + |name| + 1 + |When(fmt, [TAB])| <= out.Length
    modifies out
    ensures Filled(out, t') && ptr' == |t'|
    ensures t' == t + When(fmt, Tabs(depth)) + name + ([COLON] + When(fmt, [TAB]))
  {
    ptr', t' := Copy(out, ptr, When(fmt, Tabs(depth)), t);
    ptr', t' := Copy(out, ptr', name, t');
    ghost var u := t';
    ptr', t' := Put(out, ptr', COLON, t');
    ptr', t' := PutIf(out, ptr', fmt, TAB, t');
    assert t' == u + ([COLON] + When(fmt, [TAB]));
  }

  /** `cJSON_Print` and `cJSON_PrintUnformatted` */
  method Print(item: Node, fmt: bool, ghost w: View, ghost v: Json) returns (r: seq<byte>)
    requires Prints(item, w, v)
    ensures r == if fmt then Printer.Print(v) else Printer.PrintUnformatted(v)
  {
    r := PrintValue(item, 0, fmt, w, v);
  }
}
