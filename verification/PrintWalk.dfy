/**
 Walking the linked tree in step with the value it stands for, and composing a
 rendering piece by piece.
 */
module PrintWalk {
  import opened CText
  import opened JsonValue
  import opened CJsonNode
  import opened Links
  import opened TreeView
  import opened Printer
  import opened ScalarPrinter

  method CountChildren(item: Node, ghost w: View) returns (numentries: nat)
    requires w.node == item && Chain(item, Roots(w.kids))
    ensures numentries == |w.kids|
  {
    var child := item.child;
    numentries := 0;
    while child != null
      invariant numentries <= |w.kids| && child == NodeAt(Roots(w.kids), numentries)
      decreases |w.kids| - numentries
    {
      assert Roots(w.kids)[numentries].next == NodeAt(Roots(w.kids), numentries + 1);
      child := child.next;
      numentries := numentries + 1;
    }
  }

  /** The item to print is read as `v`, with reference items or without. */
  ghost predicate Prints(item: Node, w: View, v: Json)
    reads item`child, item`kind, item`valuestring, item`valuedouble, w.below
  {
    w.node == item && Reads(w, v) && Printable(v)
  }

  lemma Fields(item: Node, w: View, v: Json)
    requires Prints(item, w, v)
    ensures w.node == item && Chain(item, Roots(w.kids))
    ensures match v
            case Null => item.kind == NullKind
            case False => item.kind == FalseKind
            case True => item.kind == TrueKind
            case Number(d) => item.kind == NumberKind && item.valuedouble == d && IsInt32(d)
            case String(t) => item.kind == StringKind && item.valuestring == Some(t) && NulFree(t)
            case Array(_) => item.kind == ArrayKind
            case Object(_) => item.kind == ObjectKind
  {}

  function Size(v: Json): nat {
    match v
    case Array(items) => |items|
    case Object(ms) => |ms|
    case _ => 0
  }

  /** Child `i`, when the walk over the children has come to it. */
  ghost predicate AtKid(child: Node?, w: View, v: Json, i: nat)
    reads w.below, w.node`child, w.node`kind, w.node`valuestring, w.node`valuedouble
  {
    Reads(w, v) && Printable(v) && i <= |w.kids| == |KidValues(v)| && child == NodeAt(Roots(w.kids), i)
  }

  lemma Kid(child: Node, w: View, v: Json, i: nat)
    requires AtKid(child, w, v, i)
    ensures i < |w.kids| && Prints(child, w.kids[i], KidValues(v)[i]) && AtKid(child.next, w, v, i + 1)
    ensures i < Size(v) && (child.next != null <==> i + 1 < Size(v))
    ensures v.Array? ==> Prints(child, w.kids[i], v.items[i]) && Printable(v.items[i])
    ensures v.Object? ==>
      && child.name == Some(v.members[i].name) && NulFree(v.members[i].name)
      && Prints(child, w.kids[i], v.members[i].value) && Printable(v.members[i].value)
  {
    KidsRead(w, v);
    assert Roots(w.kids)[i].next == NodeAt(Roots(w.kids), i + 1);
  }

  lemma LastKid(w: View, v: Json, i: nat)
    requires AtKid(null, w, v, i)
    ensures i == Size(v)
  {}

  lemma FirstKid(item: Node, w: View, v: Json)
    requires Prints(item, w, v)
    ensures AtKid(item.child, w, v, 0) && |w.kids| == Size(v)
  {
    KidsRead(w, v);
  }

  lemma ArrayText(items: seq<Json>, depth: nat, fmt: bool)
    ensures items == [] ==> Text(Array(items), depth, fmt) == [LBRACKET, RBRACKET]
    ensures items != [] ==>
      Text(Array(items), depth, fmt) == [LBRACKET] + ElementsFrom(items, 0, depth + 1, fmt) + [RBRACKET]
  {
    assert items[0..] == items;
  }

  lemma Shift3(a: seq<byte>, b: seq<byte>, c: seq<byte>, d: seq<byte>)
    ensures a + (b + c + d) == a + b + c + d
  {}

  lemma ObjectText(ms: seq<Member>, depth: nat, fmt: bool)
    ensures ms == [] ==> Text(Object(ms), depth, fmt) == [LBRACE] + When(fmt, [NEWLINE] + Tabs(depth - 1)) + [RBRACE]
    ensures ms != [] ==>
      Text(Object(ms), depth, fmt) ==
      [LBRACE] + When(fmt, [NEWLINE]) + MembersFrom(ms, 0, depth + 1, fmt) + (When(fmt, Tabs(depth)) + [RBRACE])
  {
    assert ms[0..] == ms;
  }

  lemma QuotedNulFree(name: seq<byte>)
    requires NulFree(name)
    ensures NulFree(Quoted(name))
  {
    EscapeNulFree(name);
  }

  lemma MemberPieces(t: seq<byte>, a: seq<byte>, b: seq<byte>, c: seq<byte>, d: seq<byte>)
    ensures t + (a + b + [COLON] + c + d) == t + a + b + ([COLON] + c) + d && t + [] == t
  {}

  lemma PrintableOf(item: Node, w: View, v: Json)
    requires Prints(item, w, v)
    ensures Printable(v)
  {}
}
