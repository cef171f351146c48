/**
 The tree of libtoml, walked in either order, and freed on the way up. An item
 of a list carries its link and the node below it, and a node carries the head
 of its list, so that an item and its node are one object here and a link that
 leads back to the head leads to the owner of the list.
 */
module TomlTree {
  import opened Sequences
  import opened Shapes

  datatype Kind = Root | Table | TableArray | List | Int | Float | Text | Date | Boolean

  predicate IsContainer(k: Kind) {
    k == Root || k == Table || k == TableArray || k == List
  }

  /** A string on the heap. */
  class Block {
    constructor () {}
  }

  class Item {
    var kind: Kind
    var name: Block?
    var text: Block?    // value.string
    var next: Item      // the link in the list it belongs to
    var prev: Item
    var first: Item     // the head of its own list, value.map or value.list
    var last: Item

    constructor (kind: Kind)
      ensures this.kind == kind && name == null && text == null
      ensures next == this && prev == this && first == this && last == this
    {
      this.kind, name, text := kind, null, null;
      next, prev, first, last := this, this, this, this;
    }
  }

  // Lists ------------------------------------------------------------------------------

  function At(owner: Item, p: seq<Item>, i: int): Item {
    if 0 <= i < |p| then p[i] else owner
  }

  /** The ring through the head of `owner` and the items `p`. */
  ghost predicate Ring(owner: Item, p: seq<Item>)
    reads owner`first, owner`last, p`next, p`prev
  {
    && owner !in p && Distinct(p) && owner.first == At(owner, p, 0) && owner.last == At(owner, p, |p| - 1)
    && (forall i {:trigger p[i].next} :: 0 <= i < |p| ==> p[i].next == At(owner, p, i + 1))
    && (forall i {:trigger p[i].prev} :: 0 <= i < |p| ==> p[i].prev == At(owner, p, i - 1))
  }

  lemma RingStart(owner: Item, p: seq<Item>)
    requires Ring(owner, p)
    ensures owner.first == At(owner, p, 0)
  {}

  lemma RingStep(owner: Item, p: seq<Item>, k: nat)
    requires Ring(owner, p) && k <= |p| && At(owner, p, k) != owner
    ensures k < |p| && p[k].next == At(owner, p, k + 1)
  {}

  lemma RingDone(owner: Item, p: seq<Item>, k: nat)
    requires Ring(owner, p) && k <= |p| && At(owner, p, k) == owner
    ensures k == |p|
  {}

  // Trees ------------------------------------------------------------------------------

  type ItemShape = Shape<Item>

  /** No two subtrees share a node. */
  ghost predicate Apart(s: ItemShape) {
    && s.node !in AllNodes(s.kids) && s.nodes == {s.node} + AllNodes(s.kids) && Separate(s.kids)
    && (forall i :: 0 <= i < |s.kids| ==> Apart(s.kids[i]))
  }

  /** The list of `s.node` links the roots of its subtrees, all the way down. */
  ghost predicate Holds(s: ItemShape)
    requires Apart(s)
    reads s.node`kind, s.node`first, s.node`last, s.nodes - {s.node}
  {
    && (if IsContainer(s.node.kind) then Ring(s.node, Tops(s.kids)) else s.kids == [])
    && (forall i :: 0 <= i < |s.kids| ==> Holds(s.kids[i]))
  }

  lemma ApartKid(s: ItemShape, i: nat)
    requires Apart(s) && i < |s.kids|
    ensures Apart(s.kids[i]) && s.kids[i].nodes <= AllNodes(s.kids) <= s.nodes && s.node in s.nodes
    ensures s.kids[i].node in s.kids[i].nodes && s.node !in s.kids[i].nodes && s.node !in AllNodes(s.kids)
    ensures s.kids[i].nodes == {s.kids[i].node} + AllNodes(s.kids[i].kids)
    ensures s.kids[i].node !in AllNodes(s.kids[i].kids) && Separate(s.kids)
  {
    InAll(s.kids, i);
  }

  // The two orders ---------------------------------------------------------------------

  datatype Order = Walk | Dive

  /** The nodes in the order `fn` is called on them. */
  ghost function Visits(s: ItemShape, order: Order): seq<Item>
    decreases s, 0
  {
    match order
    case Walk => [s.node] + VisitsOf(s.kids, order)
    case Dive => VisitsOf(s.kids, order) + [s.node]
  }

  ghost function VisitsOf(ks: seq<ItemShape>, order: Order): seq<Item>
    decreases ks, 1
  {
    if ks == [] then [] else VisitsOf(ks[..|ks| - 1], order) + Visits(ks[|ks| - 1], order)
  }

  lemma VisitsMore(ks: seq<ItemShape>, i: nat, order: Order)
    requires i < |ks|
    ensures VisitsOf(ks[..i + 1], order) == VisitsOf(ks[..i], order) + Visits(ks[i], order)
  {
    assert ks[..i + 1][..i] == ks[..i];
  }

  lemma VisitsAround(s: ItemShape, order: Order)
    ensures Visits(s, order) ==
      (if order == Walk then [s.node] else []) + VisitsOf(s.kids, order) + (if order == Dive then [s.node] else [])
  {}

  lemma Regroup(a: seq<Item>, b: seq<Item>, c: seq<Item>)
    ensures a + b + c == a + (b + c)
  {}

  lemma NoVisits(order: Order)
    ensures VisitsOf([], order) == []
  {}

  lemma Content(s: ItemShape)
    requires Apart(s) && Holds(s)
    ensures KidsHold(s, 0) && s.node in s.nodes && s.node !in AllNodes(s.kids)
    ensures if IsContainer(s.node.kind) then Ring(s.node, Tops(s.kids)) else s.kids == []
  {}

  /** The subtrees from number `i` on are as they were. */
  ghost predicate KidsHold(s: ItemShape, i: nat)
    requires Apart(s)
    reads s.nodes
  {
    forall j :: i <= j < |s.kids| ==> Holds(s.kids[j])
  }

  lemma KidHolds(s: ItemShape, i: nat, k: nat)
    requires Apart(s) && KidsHold(s, i) && i <= k < |s.kids|
    ensures Apart(s.kids[k]) && Holds(s.kids[k])
  {}

  /** `_toml_process` with a callback that records where it was called. */
  method Process(node: Item, order: Order, ghost s: ItemShape) returns (visited: seq<Item>)
    requires s.node == node && Apart(s) && Holds(s)
    ensures visited == Visits(s, order)
    decreases s
  {
    hide Apart, Holds, KidsHold, VisitsOf, Visits, AllNodes, Ring;
    VisitsAround(s, order);
    visited := if order == Walk then [node] else [];
    ghost var before := visited;
    Content(s);
    NoVisits(order);
    ghost var k, p := 0, Tops(s.kids);
    if IsContainer(node.kind) {
      RingStart(node, p);
      var item := node.first;
      while item != node
        invariant k <= |s.kids| && item == At(node, p, k) && visited == before + VisitsOf(s.kids[..k], order)
        decreases |s.kids| - k
      {
        RingStep(node, p, k);
        var next := item.next;
        KidHolds(s, 0, k);
        VisitsMore(s.kids, k, order);
        var more := Process(item, order, s.kids[k]);
        Regroup(before, VisitsOf(s.kids[..k], order), more);
        visited := visited + more;
        item := next;
        k := k + 1;
      }
      RingDone(node, p, k);
    }
    assert s.kids[..k] == s.kids;
    if order == Dive { visited := visited + [node]; }
    else { assert visited + [] == visited; }
  }

  ghost predicate Exactly(p: seq<Item>, nodes: set<Item>) {
    Distinct(p) && (forall n :: n in p ==> n in nodes) && (forall n :: n in nodes ==> n in p)
  }

  lemma ExactlyJoin(p: seq<Item>, a: set<Item>, q: seq<Item>, b: set<Item>)
    requires Exactly(p, a) && Exactly(q, b) && a !! b
    ensures Exactly(p + q, a + b)
  {
    var r := p + q;
    forall i, j | 0 <= i < j < |r| ensures r[i] != r[j] {
      if i < |p| <= j { assert r[i] in p && r[j] in q; }
    }
  }

  /** Either order visits every node of the tree exactly once. */
  lemma {:induction false} VisitsAll(s: ItemShape, order: Order)
    requires Apart(s)
    ensures Exactly(Visits(s, order), s.nodes)
    decreases s, 0
  {
    VisitsAllOf(s, |s.kids|, order);
    assert s.kids[..|s.kids|] == s.kids;
    assert Exactly([s.node], {s.node});
    if order == Walk {
      ExactlyJoin([s.node], {s.node}, VisitsOf(s.kids, order), AllNodes(s.kids));
    } else {
      ExactlyJoin(VisitsOf(s.kids, order), AllNodes(s.kids), [s.node], {s.node});
    }
  }

  lemma NothingVisited(order: Order)
    ensures var none: seq<ItemShape> := []; Exactly(VisitsOf(none, order), AllNodes(none))
  {
    var none: seq<ItemShape> := [];
    assert AllNodes(none) == {};
  }

  lemma {:induction false} VisitsAllOf(s: ItemShape, k: nat, order: Order)
    requires Apart(s) && k <= |s.kids|
    ensures Exactly(VisitsOf(s.kids[..k], order), AllNodes(s.kids[..k]))
    decreases s.kids, k
  {
    hide Apart, AllNodes, Exactly, Separate;
    if k == 0 {
      NothingVisited(order);
      assert s.kids[..0] == [];
    } else {
      ApartKid(s, k - 1);
      var ks, last := s.kids[..k], s.kids[k - 1];
      VisitsAllOf(s, k - 1, order);
      VisitsAll(last, order);
      assert ks[..k - 1] == s.kids[..k - 1];
      OneMoreKid(s.kids, k - 1);
      ExactlyJoin(VisitsOf(s.kids[..k - 1], order), AllNodes(s.kids[..k - 1]), Visits(last, order), last.nodes);
    }
  }

  /** `t` is a subtree of `s`. */
  ghost predicate Below(t: ItemShape, s: ItemShape) {
    t == s || exists i :: 0 <= i < |s.kids| && Below(t, s.kids[i])
  }

  /** A walk visits every node before all nodes below it, a dive after them. */
  lemma {:induction false} NodeAtItsEnd(s: ItemShape, t: ItemShape, order: Order, i: nat, j: nat)
    requires Apart(s) && Below(t, s)
    requires i < |Visits(s, order)| && j < |Visits(s, order)|
    requires Visits(s, order)[i] in t.nodes && Visits(s, order)[j] == t.node
    ensures if order == Walk then j <= i else i <= j
    decreases s
  {
    hide Apart, Visits, VisitsOf, AllNodes, Exactly;
    if t == s {
      RootAtItsEnd(s, order, j);
    } else {
      var k :| 0 <= k < |s.kids| && Below(t, s.kids[k]);
      ApartKid(s, k);
      BelowInside(t, s.kids[k]);
      var a := InRun(s, k, order, i);
      var b := InRun(s, k, order, j);
      NodeAtItsEnd(s.kids[k], t, order, i - a, j - b);
    }
  }

  lemma RootAtItsEnd(s: ItemShape, order: Order, j: nat)
    requires Apart(s) && j < |Visits(s, order)| && Visits(s, order)[j] == s.node
    ensures j == if order == Walk then 0 else |Visits(s, order)| - 1
  {
    VisitsAll(s, order);
    var p := Visits(s, order);
    assert p[if order == Walk then 0 else |p| - 1] == s.node;
  }

  /** Either order is done with one child and all below it before it comes to the next one. */
  lemma {:induction false} ChildrenInTurn(s: ItemShape, t: ItemShape, order: Order, k: nat, m: nat, i: nat, j: nat)
    requires Apart(s) && Below(t, s) && k < m < |t.kids|
    requires i < |Visits(s, order)| && j < |Visits(s, order)|
    requires Visits(s, order)[i] in t.kids[k].nodes && Visits(s, order)[j] in t.kids[m].nodes
    ensures i < j
    decreases s
  {
    hide Apart, Visits, VisitsOf, AllNodes, Exactly;
    if t == s {
      var a := InRun(s, k, order, i);
      var b := InRun(s, m, order, j);
      RunOf(s.kids, k, m, order);
    } else {
      var n :| 0 <= n < |s.kids| && Below(t, s.kids[n]);
      ApartKid(s, n);
      BelowInside(t, s.kids[n]);
      BelowApart(t, s.kids[n]);
      ApartKid(t, k);
      ApartKid(t, m);
      var a := InRun(s, n, order, i);
      var b := InRun(s, n, order, j);
      ChildrenInTurn(s.kids[n], t, order, k, m, i - a, j - b);
    }
  }

  lemma {:induction false} BelowApart(t: ItemShape, s: ItemShape)
    requires Apart(s) && Below(t, s)
    ensures Apart(t)
    decreases s
  {
    if t != s {
      var k :| 0 <= k < |s.kids| && Below(t, s.kids[k]);
      ApartKid(s, k);
      BelowApart(t, s.kids[k]);
    }
  }

  /** A visit to a node of subtree `k` falls in the run of visits to that subtree. */
  lemma InRun(s: ItemShape, k: nat, order: Order, i: nat) returns (a: nat)
    requires Apart(s) && k < |s.kids| && i < |Visits(s, order)| && Visits(s, order)[i] in s.kids[k].nodes
    ensures a == |VisitsOf(s.kids[..k], order)| + (if order == Walk then 1 else 0)
    ensures a <= i < a + |Visits(s.kids[k], order)|
    ensures Visits(s.kids[k], order)[i - a] == Visits(s, order)[i]
  {
    hide Apart, Visits, VisitsOf, AllNodes;
    ApartKid(s, k);
    a := SliceOf(s, k, order);
    VisitsAll(s, order);
    VisitsAll(s.kids[k], order);
    InSlice(Visits(s, order), a, Visits(s.kids[k], order), s.kids[k].nodes, i);
  }

  lemma {:induction false} BelowInside(t: ItemShape, s: ItemShape)
    requires Apart(s) && Below(t, s)
    ensures t.nodes <= s.nodes && t.node in t.nodes
    decreases s
  {
    if t != s {
      var k :| 0 <= k < |s.kids| && Below(t, s.kids[k]);
      BelowInside(t, s.kids[k]);
      ApartKid(s, k);
    }
  }

  /** A node of a subtree stands inside the run of visits to that subtree. */
  lemma InSlice(p: seq<Item>, a: nat, q: seq<Item>, nodes: set<Item>, i: nat)
    requires a + |q| <= |p| && p[a..a + |q|] == q && Distinct(p) && Exactly(q, nodes)
    requires i < |p| && p[i] in nodes
    ensures a <= i < a + |q| && q[i - a] == p[i]
  {
    assert p[i] in q;
    var k :| 0 <= k < |q| && q[k] == p[i];
    assert p[a + k] == q[k];
  }

  /** Where the run of visits to subtree `k` begins. */
  lemma SliceOf(s: ItemShape, k: nat, order: Order) returns (a: nat)
    requires Apart(s) && k < |s.kids|
    ensures a == |VisitsOf(s.kids[..k], order)| + (if order == Walk then 1 else 0)
    ensures a + |Visits(s.kids[k], order)| <= |Visits(s, order)|
    ensures Visits(s, order)[a..a + |Visits(s.kids[k], order)|] == Visits(s.kids[k], order)
  {
    hide VisitsOf, Apart, Visits;
    var b, n := |VisitsOf(s.kids[..k], order)|, |Visits(s.kids[k], order)|;
    var front, back := if order == Walk then [s.node] else [], if order == Dive then [s.node] else [];
    a := |front| + b;
    RunOf(s.kids, k, |s.kids|, order);
    assert s.kids[..|s.kids|] == s.kids;
    VisitsAround(s, order);
    SliceInside(front, VisitsOf(s.kids, order), back, b, b + n);
  }

  lemma SliceInside(front: seq<Item>, p: seq<Item>, back: seq<Item>, a: nat, n: nat)
    requires a <= n <= |p|
    ensures (front + p + back)[|front| + a..|front| + n] == p[a..n]
  {}

  lemma SliceOfFirst(p: seq<Item>, q: seq<Item>, a: nat, n: nat)
    requires a <= n <= |p|
    ensures (p + q)[a..n] == p[a..n]
  {}

  lemma SliceOfSecond(p: seq<Item>, q: seq<Item>)
    ensures (p + q)[|p|..|p| + |q|] == q
  {}

  lemma {:induction false} RunOf(ks: seq<ItemShape>, k: nat, m: nat, order: Order)
    requires k < m <= |ks|
    ensures var a, n := |VisitsOf(ks[..k], order)|, |Visits(ks[k], order)|;
            a + n <= |VisitsOf(ks[..m], order)| && VisitsOf(ks[..m], order)[a..a + n] == Visits(ks[k], order)
    decreases m
  {
    hide Visits, VisitsOf;
    VisitsMore(ks, m - 1, order);
    var a, n := |VisitsOf(ks[..k], order)|, |Visits(ks[k], order)|;
    if k == m - 1 {
      SliceOfSecond(VisitsOf(ks[..k], order), Visits(ks[k], order));
    } else {
      RunOf(ks, k, m - 1, order);
      SliceOfFirst(VisitsOf(ks[..m - 1], order), Visits(ks[m - 1], order), a, a + n);
    }
  }

  // Freeing ----------------------------------------------------------------------------

  /** The items and the strings that are allocated and not yet freed. No other item may be read. */
  class Heap {
    var live: set<Item>
    var strings: set<Block>

    constructor (live: set<Item>, strings: set<Block>)
      ensures this.live == live && this.strings == strings
    {
      this.live, this.strings := live, strings;
    }

    method Free(n: Item)
      requires n in live
      modifies `live
      ensures live == old(live) - {n}
    {
      live := live - {n};
    }

    method FreeString(s: Block)
      requires s in strings
      modifies `strings
      ensures strings == old(strings) - {s}
    {
      strings := strings - {s};
    }

    /** The link behind `x` in the list of `owner`, whose head stands for itself. */
    function Next(owner: Item, x: Item): Item
      requires x in live
      reads `live, owner`first, x`next
    {
      if x == owner then owner.first else x.next
    }

    /** `list_del`: reads the links of an item and writes to its neighbours, all of them live. */
    method ListDel(owner: Item, entry: Item, ghost p: seq<Item>, ghost k: nat)
      requires Ring(owner, p) && k < |p| && entry == p[k]
      requires entry in live && entry.next in live && entry.prev in live
      modifies owner`first, owner`last, p`next, p`prev
      ensures Ring(owner, Without(p, k))
    {
      hide Ring;
      RingLinks(owner, p);
      var next, prev := entry.next, entry.prev;
      if next == owner { owner.last := prev; } else { next.prev := prev; }
      if prev == owner { owner.first := next; } else { prev.next := next; }
      RingWithout(owner, p, k);
    }
  }

  lemma RingLinks(owner: Item, p: seq<Item>)
    requires Ring(owner, p)
    ensures owner !in p && Distinct(p) && owner.first == At(owner, p, 0) && owner.last == At(owner, p, |p| - 1)
    ensures forall i {:trigger p[i].next} :: 0 <= i < |p| ==> p[i].next == At(owner, p, i + 1)
    ensures forall i {:trigger p[i].prev} :: 0 <= i < |p| ==> p[i].prev == At(owner, p, i - 1)
  {}

  /** The ring without an item, read off the links. */
  lemma RingWithout(owner: Item, p: seq<Item>, k: nat)
    requires k < |p| && owner !in p && Distinct(p)
    requires owner.first == At(owner, p, if k == 0 then 1 else 0)
    requires owner.last == At(owner, p, if k == |p| - 1 then k - 1 else |p| - 1)
    requires forall i {:trigger p[i].next} :: 0 <= i < |p| && i != k ==>
      p[i].next == At(owner, p, if i == k - 1 then k + 1 else i + 1)
    requires forall i {:trigger p[i].prev} :: 0 <= i < |p| && i != k ==>
      p[i].prev == At(owner, p, if i == k + 1 then k - 1 else i - 1)
    ensures Ring(owner, Without(p, k))
  {
    hide Distinct, At, Without;
    var q := Without(p, k);
    DistinctEdits(p, k, owner);
    AtWithout(owner, p, k, 0);
    AtWithout(owner, p, k, |p| - 2);
    forall i | 0 <= i < |q|
      ensures q[i].next == At(owner, q, i + 1) && q[i].prev == At(owner, q, i - 1) && q[i] != owner {
      AtWithout(owner, p, k, i - 1);
      AtWithout(owner, p, k, i);
      AtWithout(owner, p, k, i + 1);
    }
  }

  lemma AtWithout(owner: Item, p: seq<Item>, k: nat, i: int)
    requires k < |p| && -1 <= i < |p|
    ensures |Without(p, k)| == |p| - 1 && At(owner, Without(p, k), i) == At(owner, p, if i < k then i else i + 1)
    ensures 0 <= i < |p| - 1 ==> Without(p, k)[i] == p[if i < k then i else i + 1]
    ensures At(owner, p, |p|) == owner && At(owner, p, -1) == owner
  {}

  /** The strings the nodes own. */
  ghost function Strings(nodes: set<Item>): set<Block>
    reads nodes`kind, nodes`name, nodes`text
  {
    (set n | n in nodes && n.name != null :: n.name)
    + (set n | n in nodes && n.kind == Text && n.text != null :: n.text)
  }

  /** No string is owned twice. */
  ghost predicate OwnStrings(nodes: set<Item>)
    reads nodes`name, nodes`text
  {
    && (forall n, m :: n in nodes && m in nodes && n != m && n.name != null ==> n.name != m.name)
    && (forall n, m :: n in nodes && m in nodes && n != m && n.text != null ==> n.text != m.text)
    && (forall n, m :: n in nodes && m in nodes && n.name != null ==> n.name != m.text)
  }

  lemma StringsJoin(a: set<Item>, b: set<Item>)
    ensures Strings(a + b) == Strings(a) + Strings(b)
  {}

  lemma StringsApart(nodes: set<Item>, a: set<Item>, b: set<Item>)
    requires OwnStrings(nodes) && a <= nodes && b <= nodes
    ensures OwnStrings(a) && (a !! b ==> Strings(a) !! Strings(b))
  {}

  /** `toml_node_walker_free`: the strings of a node, and each item of its list, unlinked before it is freed. */
  method FreeItems(heap: Heap, node: Item, ghost p: seq<Item>)
    requires node in heap.live && OwnStrings({node}) && Strings({node}) <= heap.strings
    requires if IsContainer(node.kind) then Ring(node, p) && Members(p) <= heap.live else p == []
    modifies heap, node`first, node`last, p`next, p`prev
    ensures heap.live == old(heap.live) - Members(p)
    ensures heap.strings == old(heap.strings) - Strings({node})
    ensures IsContainer(node.kind) ==> Ring(node, [])
  {
    hide Ring, Members;
    if p == [] { NoMembers(p); }
    if node.name != null { heap.FreeString(node.name); }
    if IsContainer(node.kind) {
      FreeList(heap, node, p);
    } else if node.kind == Text && node.text != null {
      heap.FreeString(node.text);
    }
  }

  ghost function Members(p: seq<Item>): set<Item> {
    set n | n in p
  }

  /** The loop over the items, which reads the next link before the item is gone. */
  method FreeList(heap: Heap, node: Item, ghost p: seq<Item>)
    requires node in heap.live && Ring(node, p) && Members(p) <= heap.live
    modifies heap`live, node`first, node`last, p`next, p`prev
    ensures heap.live == old(heap.live) - Members(p) && Ring(node, [])
  {
    hide Ring, Members, Distinct, At;
    ghost var k := 0;
    ghost var live := heap.live;
    assert p[0..] == p;
    NoMembers(p);
    ItemsAhead(node, p, 0);
    var item := heap.Next(node, node);
    var next := heap.Next(node, item);
    while item != node
      invariant k <= |p| && item == At(node, p, k) && (item != node ==> next == At(node, p, k + 1))
      invariant Ring(node, p[k..]) && node in heap.live && Distinct(p) && node !in p
      invariant heap.live == live - Members(p[..k])
      decreases |p| - k
    {
      InList(node, p, k);
      FreeFirst(heap, node, item, p, k);
      item := next;
      k := k + 1;
      ItemsAhead(node, p, k);
      next := heap.Next(node, item);
    }
    AtEnd(node, p, k);
  }

  /** One round: the first of the items that are left. */
  method FreeFirst(heap: Heap, node: Item, item: Item, ghost p: seq<Item>, ghost k: nat)
    requires k < |p| && item == At(node, p, k) && Ring(node, p[k..]) && node in heap.live && Distinct(p) && node !in p
    requires Members(p) - Members(p[..k]) <= heap.live
    modifies heap`live, node`first, node`last, p`next, p`prev
    ensures Ring(node, p[k + 1..]) && heap.live == old(heap.live) - {item} && item != node
    ensures Members(p[..k + 1]) == Members(p[..k]) + {item}
    ensures At(node, p, k + 1) != node ==> At(node, p, k + 1) in heap.live
  {
    hide Ring, Members, Distinct, At;
    ItemsAhead(node, p, k);
    heap.ListDel(node, item, p[k..], 0);
    heap.Free(item);
    Advance(node, p, k);
  }

  lemma InList(node: Item, p: seq<Item>, k: nat)
    requires At(node, p, k) != node
    ensures k < |p|
  {}

  lemma NoMembers(p: seq<Item>)
    ensures Members(p[..0]) == {}
  {}

  /** What is known of the items from number `k` on, before that one is taken out. */
  lemma ItemsAhead(node: Item, p: seq<Item>, k: nat)
    requires k <= |p| && Ring(node, p[k..]) && (k == 0 || (Distinct(p) && node !in p))
    ensures Distinct(p) && node !in p && node.first == At(node, p, k)
    ensures At(node, p, k) != node <==> k < |p|
    ensures k < |p| ==>
      && p[k..] != [] && p[k..][0] == p[k] == At(node, p, k) && p[k] in Members(p) && p[k] !in Members(p[..k])
      && p[k].prev == node && p[k].next == At(node, p, k + 1)
      && (p[k].next == node || (p[k].next in Members(p) && p[k].next !in Members(p[..k])))
    ensures forall n :: n in p[k..] ==> n in p
  {
    assert k == 0 ==> p[0..] == p;
    var q := p[k..];
    if k < |p| {
      assert q[0] == p[k] && q[0].next == At(node, q, 1) && q[0].prev == node;
      assert k + 1 < |p| ==> q[1] == p[k + 1];
    }
  }

  lemma Advance(node: Item, p: seq<Item>, k: nat)
    requires k < |p| && Distinct(p)
    ensures Without(p[k..], 0) == p[k + 1..] && Members(p[..k + 1]) == Members(p[..k]) + {p[k]}
    ensures At(node, p, k) == p[k] && (At(node, p, k + 1) != node ==>
      At(node, p, k + 1) !in Members(p[..k + 1]) && At(node, p, k + 1) in Members(p))
  {
    assert p[..k + 1] == p[..k] + [p[k]];
  }

  lemma AtEnd(node: Item, p: seq<Item>, k: nat)
    requires k <= |p| && At(node, p, k) == node && node !in p
    ensures k == |p| && p[..k] == p && p[k..] == []
  {}

  /** The nodes at the top of the first `i` subtrees. */
  ghost function TopSet(ks: seq<ItemShape>, i: nat): set<Item>
    requires i <= |ks|
  {
    Members(Tops(ks)[..i])
  }

  lemma TopSetMore(ks: seq<ItemShape>, i: nat)
    requires i < |ks| && Separate(ks)
    ensures TopSet(ks, i + 1) == TopSet(ks, i) + {ks[i].node}
    ensures TopSet(ks, i) <= AllNodes(ks[..i])
    ensures i == |ks| - 1 ==> TopSet(ks, i + 1) == Members(Tops(ks))
  {
    var p, b := Tops(ks), ks[..i];
    assert p[..i + 1] == p[..i] + [p[i]] && p[..|ks|] == p;
    forall n | n in TopSet(ks, i) ensures n in AllNodes(b) {
      var j :| 0 <= j < i && p[j] == n;
      assert b[j] == ks[j];
    }
  }

  /** How far the walk over the children has got: what is left below them are their own nodes. */
  ghost predicate FreedUpTo(heap: Heap, s: ItemShape, k: nat, live: set<Item>, strings: set<Block>)
    requires k <= |s.kids|
    reads heap, AllNodes(s.kids[..k])`kind, AllNodes(s.kids[..k])`name, AllNodes(s.kids[..k])`text
  {
    && heap.live == live - (AllNodes(s.kids[..k]) - TopSet(s.kids, k))
    && heap.strings == strings - Strings(AllNodes(s.kids[..k]))
  }

  lemma NoneFreed(heap: Heap, s: ItemShape)
    ensures FreedUpTo(heap, s, 0, heap.live, heap.strings)
  {
    assert AllNodes(s.kids[..0]) == {};
  }

  /** Before a child is visited, all its nodes and strings are there. */
  lemma KidIsLive(heap: Heap, s: ItemShape, k: nat, live: set<Item>, strings: set<Block>)
    requires Apart(s) && k < |s.kids| && FreedUpTo(heap, s, k, live, strings) && OwnStrings(s.nodes)
    requires s.nodes <= live && Strings(s.nodes) <= strings
    ensures s.kids[k].nodes <= heap.live && Strings(s.kids[k].nodes) <= heap.strings && OwnStrings(s.kids[k].nodes)
    ensures s.node in heap.live && (forall j :: k <= j < |s.kids| ==> s.kids[j].node in heap.live)
  {
    hide AllNodes, Apart, Separate, Strings, OwnStrings, TopSet;
    KidsApart(s);
    OneMoreKid(s.kids, k);
    ApartKid(s, k);
    var before, kid := AllNodes(s.kids[..k]), s.kids[k].nodes;
    FirstKids(s.kids, k);
    StringsApart(s.nodes, kid, before);
    StringsJoin(s.nodes, kid);
    assert s.nodes + kid == s.nodes;
    forall j | k <= j < |s.kids| ensures s.kids[j].node in heap.live {
      ApartKid(s, j);
      LaterKid(s.kids, k, j);
    }
  }

  lemma FirstKids(ks: seq<ItemShape>, k: nat)
    requires k <= |ks|
    ensures AllNodes(ks[..k]) <= AllNodes(ks)
  {
    assert ks[..k] + ks[k..] == ks;
    AllNodesAppend(ks[..k], ks[k..]);
  }

  lemma LaterKid(ks: seq<ItemShape>, k: nat, j: nat)
    requires k <= j < |ks| && Separate(ks)
    ensures AllNodes(ks[..k]) !! ks[j].nodes && ks[j].node in ks[j].nodes
  {
    OneMoreKid(ks, j);
    assert ks[..j][..k] == ks[..k];
    FirstKids(ks[..j], k);
  }

  /** And afterwards just its own node is left. */
  lemma KidFreed(heap: Heap, s: ItemShape, k: nat, live: set<Item>, strings: set<Block>)
    requires Apart(s) && k < |s.kids| && s.nodes <= live
    requires heap.live == live - (AllNodes(s.kids[..k]) - TopSet(s.kids, k)) - AllNodes(s.kids[k].kids)
    requires heap.strings == strings - Strings(AllNodes(s.kids[..k])) - Strings(s.kids[k].nodes)
    ensures FreedUpTo(heap, s, k + 1, live, strings)
  {
    hide Apart, AllNodes, Strings, TopSet, Separate;
    ApartKid(s, k);
    OneMoreKid(s.kids, k);
    TopSetMore(s.kids, k);
    StringsJoin(AllNodes(s.kids[..k]), s.kids[k].nodes);
  }

  /** The visit to one child, seen from the list it is in. */
  method FreeBelowKid(heap: Heap, item: Item, ghost s: ItemShape, ghost k: nat, ghost live: set<Item>,
                      ghost strings: set<Block>)
    requires Apart(s) && k < |s.kids| && KidsHold(s, k) && item == s.kids[k].node && OwnStrings(s.nodes)
    requires FreedUpTo(heap, s, k, live, strings) && s.nodes <= live && Strings(s.nodes) <= strings
    modifies heap, s.kids[k].nodes`first, s.kids[k].nodes`last
    modifies AllNodes(s.kids[k].kids)`next, AllNodes(s.kids[k].kids)`prev
    ensures KidsHold(s, k + 1) && FreedUpTo(heap, s, k + 1, live, strings)
    decreases s, 0
  {
    hide Holds, Strings, OwnStrings, Apart, KidsHold, AllNodes, TopSet, Separate;
    KidHolds(s, k, k);
    KidIsLive(heap, s, k, live, strings);
    ApartKid(s, k);
    OtherKids(s, k);
    ghost var before := Strings(AllNodes(s.kids[..k]));
    DiveFree(heap, item, s.kids[k]);
    assert Strings(AllNodes(s.kids[..k])) == before;
    KidFreed(heap, s, k, live, strings);
    KidsStill(s, k + 1);
  }

  /** The later siblings, none of whose nodes are in subtree `k`. */
  lemma OtherKids(s: ItemShape, k: nat)
    requires Apart(s) && k < |s.kids| && KidsHold(s, k)
    ensures forall j :: k < j < |s.kids| ==> Apart(s.kids[j]) && Holds(s.kids[j])
    ensures forall j :: k < j < |s.kids| ==> s.kids[j].nodes !! s.kids[k].nodes && s.kids[j].node in s.kids[j].nodes
    ensures AllNodes(s.kids[k].kids) <= s.kids[k].nodes
  {
    ApartKid(s, k);
  }

  lemma KidsStill(s: ItemShape, k: nat)
    requires Apart(s) && forall j :: k <= j < |s.kids| ==> Apart(s.kids[j]) && Holds(s.kids[j])
    ensures KidsHold(s, k)
  {}

  /**
   `_toml_process` in dive order with `toml_node_walker_free`: it is called on
   live nodes only, reads links of live items only, frees every item below
   `node` and every string of the tree once, and leaves `node`.
   */
  method DiveFree(heap: Heap, node: Item, ghost s: ItemShape)
    requires s.node == node && Apart(s) && Holds(s) && OwnStrings(s.nodes)
    requires s.nodes <= heap.live && Strings(s.nodes) <= heap.strings
    modifies heap, s.nodes`first, s.nodes`last, AllNodes(s.kids)`next, AllNodes(s.kids)`prev
    ensures heap.live == old(heap.live) - AllNodes(s.kids)
    ensures heap.strings == old(heap.strings) - Strings(s.nodes)
    decreases s, 1
  {
    hide Holds, Strings, OwnStrings, Apart, KidsHold, AllNodes, TopSet, Separate, FreedUpTo, Ring;
    ghost var live, strings, p, k := heap.live, heap.strings, Tops(s.kids), 0;
    Content(s);
    InnerNodes(s);
    NoneFreed(heap, s);
    assert Strings(s.nodes) <= strings && OwnStrings(s.nodes);
    if IsContainer(node.kind) {
      RingStart(node, p);
      var item := heap.Next(node, node);
      while item != node
        invariant k <= |s.kids| && item == At(node, p, k) && Ring(node, p) && KidsHold(s, k)
        invariant FreedUpTo(heap, s, k, live, strings) && OwnStrings(s.nodes) && Strings(s.nodes) <= strings
        decreases |s.kids| - k
      {
        RingStep(node, p, k);
        KidIsLive(heap, s, k, live, strings);
        var next := heap.Next(node, item);
        FreeBelowKid(heap, item, s, k, live, strings);
        item := next;
        k := k + 1;
      }
      RingDone(node, p, k);
    }
    AllVisited(heap, s, live, strings);
    FreeItems(heap, node, p);
  }

  /** The links of the list are none of those the visits to its children write to. */
  lemma InnerNodes(s: ItemShape)
    requires Apart(s)
    ensures s.node in s.nodes && AllNodes(s.kids) <= s.nodes && s.node !in AllNodes(s.kids)
    ensures forall n :: n in Tops(s.kids) ==> n in AllNodes(s.kids)
    ensures forall j :: 0 <= j < |s.kids| ==>
      && s.kids[j].nodes <= AllNodes(s.kids) && AllNodes(s.kids[j].kids) <= AllNodes(s.kids)
      && s.node !in s.kids[j].nodes
    ensures forall i, j :: 0 <= i < |s.kids| && 0 <= j < |s.kids| ==> s.kids[i].node !in AllNodes(s.kids[j].kids)
  {
    hide Apart, AllNodes, Separate;
    KidsApart(s);
    TopNodes(s.kids);
    forall j | 0 <= j < |s.kids|
      ensures s.kids[j].nodes <= AllNodes(s.kids) && AllNodes(s.kids[j].kids) <= s.kids[j].nodes
      ensures s.kids[j].node !in AllNodes(s.kids[j].kids) && s.kids[j].node in s.kids[j].nodes
      ensures s.node !in s.kids[j].nodes
    {
      ApartKid(s, j);
    }
  }

  lemma KidsApart(s: ItemShape)
    requires Apart(s)
    ensures s.node in s.nodes && AllNodes(s.kids) <= s.nodes && s.node !in AllNodes(s.kids) && Separate(s.kids)
  {}

  /** What the callback finds at a node when all below it were visited. */
  lemma AllVisited(heap: Heap, s: ItemShape, live: set<Item>, strings: set<Block>)
    requires Apart(s) && FreedUpTo(heap, s, |s.kids|, live, strings) && OwnStrings(s.nodes)
    requires s.nodes <= live && Strings(s.nodes) <= strings
    ensures s.node in heap.live && Members(Tops(s.kids)) <= heap.live
    ensures OwnStrings({s.node}) && Strings({s.node}) <= heap.strings
    ensures heap.live - Members(Tops(s.kids)) == live - AllNodes(s.kids)
    ensures heap.strings - Strings({s.node}) == strings - Strings(s.nodes)
  {
    var p := Tops(s.kids);
    assert s.kids[..|s.kids|] == s.kids && p[..|s.kids|] == p;
    assert TopSet(s.kids, |s.kids|) == Members(p);
    forall n | n in p ensures n in AllNodes(s.kids) {
      var j :| 0 <= j < |p| && p[j] == n;
      ApartKid(s, j);
    }
    StringsJoin({s.node}, AllNodes(s.kids));
    StringsApart(s.nodes, {s.node}, AllNodes(s.kids));
  }

  /** `toml_free`: every node and every string of the tree is freed, each exactly once, and nothing else. */
  method TomlFree(heap: Heap, root: Item, ghost s: ItemShape)
    requires root.kind == Root && s.node == root && Apart(s) && Holds(s) && OwnStrings(s.nodes)
    requires s.nodes <= heap.live && Strings(s.nodes) <= heap.strings
    modifies heap, s.nodes`first, s.nodes`last, AllNodes(s.kids)`next, AllNodes(s.kids)`prev
    ensures heap.live == old(heap.live) - s.nodes
    ensures heap.strings == old(heap.strings) - Strings(s.nodes)
  {
    hide Holds, Strings, OwnStrings;
    KidsApart(s);
    DiveFree(heap, root, s);
    heap.Free(root);
  }
}
