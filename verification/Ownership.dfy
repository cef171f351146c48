/** Who frees and who copies which node. */
module Ownership {
  import opened CText
  import opened JsonValue
  import opened CJsonNode
  import opened Links
  import opened NodeTree
  import opened Shapes
  import opened ChildList
  import opened TreeView

  /**
   The blocks `cJSON_malloc` has handed out and `cJSON_free` has not taken back:
   nodes, and the strings that `string` and `valuestring` of a node point at.
   `corrupt` says that something else was freed.
   */
  class Allocator {
    var live: set<Node>
    var names: set<Node>    // whose `string` is on the heap
    var texts: set<Node>    // whose `valuestring` is
    var corrupt: bool

    constructor (live: set<Node>, names: set<Node>, texts: set<Node>)
      ensures this.live == live && this.names == names && this.texts == texts && !corrupt
    {
      this.live, this.names, this.texts, corrupt := live, names, texts, false;
    }

    method Free(n: Node)
      requires n in live
      modifies `live
      ensures live == old(live) - {n}
    {
      live := live - {n};
    }

    /** `cJSON_free(n->string)` */
    method FreeName(n: Node)
      modifies `names, `corrupt
      ensures names == old(names) - {n} && (corrupt <==> old(corrupt) || n !in old(names))
    {
      if n !in names { corrupt := true; }
      names := names - {n};
    }

    /** `cJSON_free(n->valuestring)` */
    method FreeText(n: Node)
      modifies `texts, `corrupt
      ensures texts == old(texts) - {n} && (corrupt <==> old(corrupt) || n !in old(texts))
    {
      if n !in texts { corrupt := true; }
      texts := texts - {n};
    }
  }

  /** The nodes whose name `cJSON_Delete` frees, and those whose text it frees. */
  ghost function OwnNames(nodes: set<Node>): set<Node>
    reads nodes`name, nodes`nameIsConst
  {
    set n | n in nodes && n.name.Some? && !n.nameIsConst
  }

  ghost function OwnTexts(nodes: set<Node>): set<Node>
    reads nodes`valuestring, nodes`isReference
  {
    set n | n in nodes && n.valuestring.Some? && !n.isReference
  }

  /** What a deletion of the nodes frees is there. */
  ghost predicate Covers(heap: Allocator, nodes: set<Node>)
    reads heap, nodes`name, nodes`nameIsConst, nodes`valuestring, nodes`isReference
  {
    nodes <= heap.live && OwnNames(nodes) <= heap.names && OwnTexts(nodes) <= heap.texts
  }

  /** And nothing else of theirs is: a deletion leaves no string behind. */
  ghost predicate Accounted(heap: Allocator, nodes: set<Node>)
    reads heap, nodes`name, nodes`nameIsConst, nodes`valuestring, nodes`isReference
  {
    nodes <= heap.live && OwnNames(nodes) == heap.names * nodes && OwnTexts(nodes) == heap.texts * nodes
  }

  /** What is left of the heap when the nodes and their strings have been freed. */
  ghost predicate LeftBy(heap: Allocator, nodes: set<Node>, live: set<Node>, names: set<Node>, texts: set<Node>,
                         corrupt: bool)
    reads heap, nodes`name, nodes`nameIsConst, nodes`valuestring, nodes`isReference
  {
    && heap.live == live - nodes && heap.names == names - OwnNames(nodes) && heap.texts == texts - OwnTexts(nodes)
    && heap.corrupt == corrupt
  }

  /** The body of the loop of `cJSON_Delete`, behind the children. */
  method FreeNode(heap: Allocator, c: Node)
    requires Covers(heap, {c})
    modifies heap
    ensures LeftBy(heap, {c}, old(heap.live), old(heap.names), old(heap.texts), old(heap.corrupt))
  {
    if !c.isReference && c.valuestring.Some? { heap.FreeText(c); }
    if !c.nameIsConst && c.name.Some? { heap.FreeName(c); }
    heap.Free(c);
  }

  /** Strings of nodes that are not touched are still there. */
  lemma StillCovers(heap: Allocator, nodes: set<Node>, freed: set<Node>, live: set<Node>, names: set<Node>,
                    texts: set<Node>, corrupt: bool)
    requires LeftBy(heap, freed, live, names, texts, corrupt) && freed !! nodes
    requires nodes <= live && OwnNames(nodes) <= names && OwnTexts(nodes) <= texts
    ensures Covers(heap, nodes)
  {}

  lemma LeftByBoth(heap: Allocator, a: set<Node>, b: set<Node>, live: set<Node>, names: set<Node>, texts: set<Node>,
                   corrupt: bool)
    requires heap.live == live - a - b && heap.names == names - OwnNames(a) - OwnNames(b)
    requires heap.texts == texts - OwnTexts(a) - OwnTexts(b) && heap.corrupt == corrupt
    ensures LeftBy(heap, a + b, live, names, texts, corrupt)
  {
    OwnJoin(a, b);
  }

  lemma OwnJoin(a: set<Node>, b: set<Node>)
    ensures OwnNames(a + b) == OwnNames(a) + OwnNames(b) && OwnTexts(a + b) == OwnTexts(a) + OwnTexts(b)
  {}

  lemma Sets(heap: Allocator, nodes: set<Node>, live: set<Node>, names: set<Node>, texts: set<Node>, corrupt: bool)
    requires LeftBy(heap, nodes, live, names, texts, corrupt)
    ensures heap.live == live - nodes && heap.names == names - OwnNames(nodes)
    ensures heap.texts == texts - OwnTexts(nodes) && heap.corrupt == corrupt
  {}

  lemma PartCovered(heap: Allocator, nodes: set<Node>, part: set<Node>)
    requires Covers(heap, nodes) && part <= nodes
    ensures Covers(heap, part)
  {}

  /**
   `cJSON_Delete` on a chain of trees: frees every node they own with its
   strings, each once, and nothing that is only reachable through a reference
   item, nor a name that is flagged constant.
   */
  method Delete(heap: Allocator, c0: Node?, ghost ks: seq<NodeShape>)
    requires Siblings(ks) && c0 == NodeAt(Tops(ks), 0) && Covers(heap, AllNodes(ks))
    modifies heap
    ensures LeftBy(heap, AllNodes(ks), old(heap.live), old(heap.names), old(heap.texts), old(heap.corrupt))
    decreases ks, 1
  {
    hide Covers, LeftBy, OwnNames, OwnTexts, Tree, AllNodes, Separate;
    ghost var live, names, texts, corrupt := heap.live, heap.names, heap.texts, heap.corrupt;
    NothingLeft(heap, ks);
    var c := c0;
    ghost var i := 0;
    while c != null
      invariant i <= |ks| && c == NodeAt(Tops(ks), i)
      invariant LeftBy(heap, AllNodes(ks[..i]), live, names, texts, corrupt)
      invariant AllNodes(ks) <= live && OwnNames(AllNodes(ks)) <= names && OwnTexts(AllNodes(ks)) <= texts
      decreases |ks| - i
    {
      var next := c.next;
      OneMoreKid(ks, i);
      KidCovered(heap, ks, i, live, names, texts, corrupt);
      Sets(heap, AllNodes(ks[..i]), live, names, texts, corrupt);
      ghost var live1, names1, texts1, corrupt1 := heap.live, heap.names, heap.texts, heap.corrupt;
      ghost var ownNames, ownTexts := OwnNames(AllNodes(ks[..i])), OwnTexts(AllNodes(ks[..i]));
      DeleteOne(heap, c, ks[i]);
      assert OwnNames(AllNodes(ks[..i])) == ownNames && OwnTexts(AllNodes(ks[..i])) == ownTexts;
      Sets(heap, ks[i].nodes, live1, names1, texts1, corrupt1);
      LeftByBoth(heap, AllNodes(ks[..i]), ks[i].nodes, live, names, texts, corrupt);
      c := next;
      i := i + 1;
    }
    assert ks[..i] == ks;
  }

  lemma NothingLeft(heap: Allocator, ks: seq<NodeShape>)
    requires Covers(heap, AllNodes(ks))
    ensures LeftBy(heap, AllNodes(ks[..0]), heap.live, heap.names, heap.texts, heap.corrupt)
    ensures AllNodes(ks) <= heap.live && OwnNames(AllNodes(ks)) <= heap.names && OwnTexts(AllNodes(ks)) <= heap.texts
  {
    assert AllNodes(ks[..0]) == {};
  }

  lemma KidCovered(heap: Allocator, ks: seq<NodeShape>, i: nat, live: set<Node>, names: set<Node>, texts: set<Node>,
                   corrupt: bool)
    requires i < |ks| && Separate(ks) && LeftBy(heap, AllNodes(ks[..i]), live, names, texts, corrupt)
    requires AllNodes(ks) <= live && OwnNames(AllNodes(ks)) <= names && OwnTexts(AllNodes(ks)) <= texts
    ensures Covers(heap, ks[i].nodes)
  {
    hide AllNodes, Separate, LeftBy, Covers;
    OneMoreKid(ks, i);
    InAll(ks, i);
    assert AllNodes(ks) == AllNodes(ks) + ks[i].nodes;
    OwnJoin(AllNodes(ks), ks[i].nodes);
    StillCovers(heap, ks[i].nodes, AllNodes(ks[..i]), live, names, texts, corrupt);
  }

  /** One round of its loop. */
  method DeleteOne(heap: Allocator, c: Node, ghost k: NodeShape)
    requires Tree(k) && k.node == c && Covers(heap, k.nodes)
    modifies heap
    ensures LeftBy(heap, k.nodes, old(heap.live), old(heap.names), old(heap.texts), old(heap.corrupt))
    decreases k, 0
  {
    hide Covers, LeftBy, OwnNames, OwnTexts, AllNodes, Separate;
    ghost var below := AllNodes(k.kids);
    ghost var live, names, texts, corrupt := heap.live, heap.names, heap.texts, heap.corrupt;
    OwnerOf(k);
    PartCovered(heap, k.nodes, below);
    PartCovered(heap, k.nodes, {c});
    Available(heap, {c});
    if !c.isReference && c.child != null {
      Delete(heap, c.child, k.kids);
    } else {
      NothingBelow(heap, k);
    }
    StillCovers(heap, {c}, below, live, names, texts, corrupt);
    Sets(heap, below, live, names, texts, corrupt);
    ghost var live1, names1, texts1, corrupt1 := heap.live, heap.names, heap.texts, heap.corrupt;
    FreeNode(heap, c);
    Sets(heap, {c}, live1, names1, texts1, corrupt1);
    LeftByBoth(heap, below, {c}, live, names, texts, corrupt);
    assert below + {c} == k.nodes;
  }

  lemma Available(heap: Allocator, nodes: set<Node>)
    requires Covers(heap, nodes)
    ensures nodes <= heap.live && OwnNames(nodes) <= heap.names && OwnTexts(nodes) <= heap.texts
  {}

  lemma NothingBelow(heap: Allocator, k: NodeShape)
    requires Tree(k) && (k.node.isReference || k.node.child == null)
    ensures LeftBy(heap, AllNodes(k.kids), heap.live, heap.names, heap.texts, heap.corrupt)
  {
    assert k.kids == [] && AllNodes(k.kids) == {};
  }

  lemma RemoveThenInsert(ks: seq<NodeShape>, k: nat, it: NodeShape)
    requires k < |ks|
    ensures k <= |Removed(ks, k)| && Inserted(Removed(ks, k), k, it) == ks[k := it]
  {}

  lemma ReplacedIsSeparate(ks: seq<NodeShape>, k: nat, it: NodeShape)
    requires Separate(ks) && k < |ks| && it.node in it.nodes && AllNodes(ks) !! it.nodes
    ensures Separate(ks[k := it]) && AllNodes(ks[k := it]) == AllNodes(ks) - ks[k].nodes + it.nodes
    ensures Tops(ks[k := it]) == Tops(ks)[k := it.node]
  {
    hide Separate, AllNodes, Removed, Inserted;
    RemovedIsSeparate(ks, k);
    RemoveThenInsert(ks, k, it);
    InsertedIsSeparate(Removed(ks, k), k, it);
  }

  /**
   `cJSON_ReplaceItemInArray` frees exactly the tree it takes out. Through a
   reference item it leaves the root with a pointer to a freed first child.
   */
  method ReplaceItemInArray(heap: Allocator, owner: Node, which: int, newitem: Node, ghost s: NodeShape,
                            ghost it: NodeShape)
    returns (ghost s': NodeShape)
    requires Tree(s) && SharesList(owner, s) && Covers(heap, s.nodes)
    requires Alone(it) && it.node == newitem && s.nodes + {owner} !! it.nodes
    modifies heap, owner`child, Tops(s.kids)`next, Tops(s.kids)`prev, newitem`next, newitem`prev
    ensures Heads(owner, Tops(s'.kids))
    ensures var k := Clamp(which);
            if k >= |s.kids| then s' == s && Tree(s) && unchanged(heap)
            else
              && s' == Shape(s.node, s.kids[k := it], s.nodes - s.kids[k].nodes + it.nodes)
              && LeftBy(heap, s.kids[k].nodes, old(heap.live), old(heap.names), old(heap.texts), old(heap.corrupt))
              && (Tree(s') <==> owner == s.node || k > 0)
              && (Tree(s') || (s.node.child == s.kids[0].node && s.node.child !in heap.live))
  {
    hide Tree, Trees, Separate, AllNodes, Linked, Chain, Heads, Alone, SharesList, Siblings, Covers, LeftBy;
    s' := s;
    SharedHeads(owner, s);
    FirstChild(s);
    var c := GetArrayItem(owner, which, Tops(s.kids));
    if c == null { return; }
    ghost var k := Clamp(which);
    PartCovered(heap, s.nodes, s.kids[k].nodes);
    s' := Exchange(owner, c, k, newitem, s, it);
    AloneChain(s.kids[k]);
    ghost var live1, names1, texts1, corrupt1 := heap.live, heap.names, heap.texts, heap.corrupt;
    Delete(heap, c, [s.kids[k]]);
    Sets(heap, s.kids[k].nodes, live1, names1, texts1, corrupt1);
  }

  /** The part of it that links. */
  method Exchange(owner: Node, c: Node, ghost k: nat, newitem: Node, ghost s: NodeShape, ghost it: NodeShape)
    returns (ghost s': NodeShape)
    requires Tree(s) && SharesList(owner, s) && k < |s.kids| && c == s.kids[k].node
    requires Alone(it) && it.node == newitem && s.nodes + {owner} !! it.nodes
    modifies owner`child, Tops(s.kids)`next, Tops(s.kids)`prev, newitem`next, newitem`prev
    ensures s' == Shape(s.node, s.kids[k := it], s.nodes - s.kids[k].nodes + it.nodes)
    ensures Heads(owner, Tops(s'.kids)) && Alone(s.kids[k]) && (Tree(s') <==> owner == s.node || k > 0)
  {
    hide Tree, Trees, Separate, AllNodes, Linked, Chain;
    KidTrees(s);
    OwnerOf(s);
    SharedHeads(owner, s);
    OwnerOf(it);
    ReplacedIsSeparate(s.kids, k, it);
    s' := Shape(s.node, s.kids[k := it], s.nodes - s.kids[k].nodes + it.nodes);
    LinkInstead(owner, newitem, c, Tops(s.kids), k);
    assert forall i :: 0 <= i < |s.kids| ==> Tree(s.kids[i]);
    TreesReplaced(s.kids, k, it);
    WholeIff(s', owner);
  }

  lemma TreesReplaced(ks: seq<NodeShape>, k: nat, it: NodeShape)
    requires k < |ks| && Separate(ks) && Separate(ks[k := it]) && Tree(it)
    requires forall i :: 0 <= i < |ks| ==> Tree(ks[i])
    ensures Trees(ks[k := it]) && Tree(ks[k])
  {
    hide Tree, Separate;
  }

  lemma AloneChain(s: NodeShape)
    requires Alone(s)
    ensures Siblings([s]) && AllNodes([s]) == s.nodes && s.node == NodeAt(Tops([s]), 0)
  {
    OwnerOf(s);
    AllNodesOne(s);
  }

  /** `cJSON_DeleteItemFromArray` frees exactly the tree at the index, be it the first child the root points at. */
  method DeleteItemFromArray(heap: Allocator, owner: Node, which: int, ghost s: NodeShape) returns (ghost s': NodeShape)
    requires Tree(s) && SharesList(owner, s) && Covers(heap, s.nodes)
    modifies heap, owner`child, Tops(s.kids)`next, Tops(s.kids)`prev
    ensures Heads(owner, Tops(s'.kids))
    ensures var k := Clamp(which);
            if k >= |s.kids| then s' == s && Tree(s) && unchanged(heap)
            else
              && s' == Shape(s.node, Removed(s.kids, k), s.nodes - s.kids[k].nodes)
              && LeftBy(heap, s.kids[k].nodes, old(heap.live), old(heap.names), old(heap.texts), old(heap.corrupt))
              && (Tree(s') <==> owner == s.node || k > 0)
              && (Tree(s') || (s.node.child == s.kids[0].node && s.node.child !in heap.live))
  {
    hide Tree, Separate, AllNodes, Linked, Chain, Heads, Removed, Alone, SharesList, Siblings, Covers, LeftBy;
    ghost var k := Clamp(which);
    SharedHeads(owner, s);
    FirstChild(s);
    if k < |s.kids| { PartCovered(heap, s.nodes, s.kids[k].nodes); }
    var c;
    c, s' := DetachItemFromArray(owner, which, s);
    if c != null {
      AloneChain(s.kids[k]);
      ghost var live1, names1, texts1, corrupt1 := heap.live, heap.names, heap.texts, heap.corrupt;
      Delete(heap, c, [s.kids[k]]);
      Sets(heap, s.kids[k].nodes, live1, names1, texts1, corrupt1);
    }
  }

  lemma FirstChild(s: NodeShape)
    requires Tree(s) && !s.node.isReference
    ensures s.node.child == NodeAt(Tops(s.kids), 0)
    ensures forall i :: 0 <= i < |s.kids| ==> s.kids[i].node in s.kids[i].nodes && s.kids[i].nodes <= s.nodes
  {
    OwnerOf(s);
  }

  // References -----------------------------------------------------------------

  /** `create_reference`: a node of its own that shares the children of `item`, is read alike, and owns none of them. */
  method CreateReference(item: Node, ghost w: View, ghost v: Json) returns (ref: Node, ghost r: NodeShape)
    requires w.node == item && Reads(w, v)
    ensures fresh(ref) && r == Shape(ref, [], {ref}) && Alone(r)
    ensures ref.isReference && ref.child == item.child && ref.name == None && SameFields(item, ref)
    ensures ref.nameIsConst == item.nameIsConst
    ensures Reads(View(ref, w.kids, w.below), v)
  {
    hide Reads, Alone, Tree;
    ref := new Node();
    ref.child, ref.kind, ref.nameIsConst := item.child, item.kind, item.nameIsConst;
    ref.valuestring, ref.valuedouble := item.valuestring, item.valuedouble;
    ref.isReference := true;
    r := Shape(ref, [], {ref});
    NoKids(r);
    AloneIs(r);
    ReadsAlike(w, View(ref, w.kids, w.below), v);
  }

  lemma AloneIs(s: NodeShape)
    requires Tree(s) && s.node.next == null && s.node.prev == null
    ensures Alone(s)
  {}

  lemma IsTree(s: NodeShape, v: Json)
    requires TreeOf(s, v)
    ensures Tree(s)
  {}

  /** What is read of a node depends on its kind, its values and where its children begin. */
  lemma ReadsAlike(w: View, w': View, v: Json)
    requires Reads(w, v) && w'.kids == w.kids && w'.below == w.below
    requires SameFields(w.node, w'.node) && w.node.child == w'.node.child
    ensures Reads(w', v)
  {}

  /** Below `w` neither the list nor its last child is met. */
  ghost predicate Clear(w: View, owner: Node, p: seq<Node>) {
    owner !in w.below && LastOf(p) !! w.below
  }

  /** The view of a list that has got one more child at its end. */
  ghost function Longer(w: View, kid: View): View {
    View(w.node, w.kids + [kid], w.below + {kid.node} + kid.below)
  }

  lemma LongerReads(w: View, vs: seq<Json>, kid: View, v: Json)
    requires w.node.kind == ArrayKind && Within(w.kids, w.below) && |w.kids| == |vs|
    requires forall j :: 0 <= j < |vs| ==> Reads(w.kids[j], vs[j])
    requires Reads(kid, v) && Chain(w.node, Roots(w.kids) + [kid.node])
    ensures Reads(Longer(w, kid), Array(vs + [v]))
  {
    var all := w.kids + [kid];
    assert Roots(all) == Roots(w.kids) + [kid.node];
    forall j | 0 <= j < |all| ensures Reads(all[j], (vs + [v])[j]) {
      assert j < |w.kids| ==> all[j] == w.kids[j];
    }
  }

  /**
   `cJSON_AddItemReferenceToArray`: the list grows by a node that owns nothing,
   so that the tree of `item` stays outside what a deletion of the list frees.
   Read, the list has the value of `item` at its end; what its children and the
   item meet must not itself lead to the end of the list, which would make a ring.
   */
  method AddItemReferenceToArray(owner: Node, item: Node, ghost s: NodeShape, ghost w: View, ghost vs: seq<Json>,
                                 ghost wi: View, ghost v: Json)
    returns (ref: Node, ghost s': NodeShape, ghost w': View)
    requires Tree(s) && SharesList(owner, s)
    requires w.node == owner && Reads(w, Array(vs)) && wi.node == item && Reads(wi, v)
    requires Clear(wi, owner, Tops(s.kids)) && forall j :: 0 <= j < |w.kids| ==> Clear(w.kids[j], owner, Tops(s.kids))
    modifies owner`child, LastOf(Tops(s.kids))`next
    ensures fresh(ref) && ref.isReference && w'.node == owner && Reads(w', Array(vs + [v]))
    ensures s' == Shape(s.node, Inserted(s.kids, |s.kids|, Shape(ref, [], {ref})), s.nodes + {ref})
    ensures Tree(s') <==> owner == s.node || s.kids != []
  {
    hide Reads, Tree, Alone, Chain, Within, AllNodes, Heads;
    ghost var r;
    ListBefore(owner, s, w, vs);
    ref, r := CreateReference(item, wi, v);
    ghost var kid := View(ref, wi.kids, wi.below);
    s' := AddItemToArray(owner, ref, s, r);
    w' := Longer(w, kid);
    ListAfter(owner, s, s', ref);
    LongerReads(w, vs, kid, v);
  }

  lemma ListBefore(owner: Node, s: NodeShape, w: View, vs: seq<Json>)
    requires Tree(s) && SharesList(owner, s) && w.node == owner && Reads(w, Array(vs))
    ensures Roots(w.kids) == Tops(s.kids) && Within(w.kids, w.below) && |w.kids| == |vs| && w.node.kind == ArrayKind
    ensures forall j :: 0 <= j < |vs| ==> w.kids[j].node != w.node && Reads(w.kids[j], vs[j])
  {
    SharedHeads(owner, s);
    KidsRead(w, Array(vs));
    ChainUnique(owner, Roots(w.kids), Tops(s.kids));
    forall j | 0 <= j < |vs| ensures w.kids[j].node != w.node {
      assert Tops(s.kids)[j] == w.kids[j].node;
    }
  }

  lemma ListAfter(owner: Node, s: NodeShape, s': NodeShape, ref: Node)
    requires s'.kids == Inserted(s.kids, |s.kids|, Shape(ref, [], {ref})) && Heads(owner, Tops(s'.kids))
    ensures Chain(owner, Tops(s.kids) + [ref])
  {
    assert Tops(s'.kids) == Tops(s.kids) + [ref];
  }

  // Names ----------------------------------------------------------------------

  lemma RootInTree(it: NodeShape)
    requires Alone(it)
    ensures it.node in it.nodes
  {
    OwnerOf(it);
  }

  lemma AccountedOne(heap: Allocator, n: Node)
    ensures Accounted(heap, {n}) <==>
      && n in heap.live && (n in heap.names <==> n.name.Some? && !n.nameIsConst)
      && (n in heap.texts <==> n.valuestring.Some? && !n.isReference)
  {
    assert n in {n};
    if Accounted(heap, {n}) {
      assert n in OwnNames({n}) <==> n in heap.names * {n};
      assert n in OwnTexts({n}) <==> n in heap.texts * {n};
    }
  }

  /** The name `cJSON_AddItemToObject` gives an item. */
  method NewName(heap: Allocator, item: Node, name: seq<byte>)
    modifies heap`names, heap`corrupt, item`name
    ensures item.name == Some(name) && heap.names == old(heap.names) + {item}
    ensures heap.corrupt <==> old(heap.corrupt) || (old(item.name.Some?) && item !in old(heap.names))
    ensures old(Accounted(heap, {item})) ==>
      && (heap.corrupt <==> old(heap.corrupt) || (old(item.name.Some?) && item.nameIsConst))
      && (Accounted(heap, {item}) <==> !item.nameIsConst)
  {
    hide Accounted, OwnNames, OwnTexts;
    AccountedOne(heap, item);
    if item.name.Some? { heap.FreeName(item); }
    item.name := Some(name);
    heap.names := heap.names + {item};
    AccountedOne(heap, item);
  }

  /** And the one `cJSON_AddItemToObjectCS` gives it. */
  method ConstName(heap: Allocator, item: Node, name: seq<byte>)
    requires Accounted(heap, {item})
    modifies heap`names, heap`corrupt, item`name, item`nameIsConst
    ensures item.name == Some(name) && item.nameIsConst && heap.names == old(heap.names) - {item}
    ensures heap.corrupt == old(heap.corrupt) && Accounted(heap, {item})
  {
    hide Accounted, OwnNames, OwnTexts;
    AccountedOne(heap, item);
    if !item.nameIsConst && item.name.Some? { heap.FreeName(item); }
    item.name := Some(name);
    item.nameIsConst := true;
    AccountedOne(heap, item);
  }

  /**
   `cJSON_AddItemToObject`. It frees the old name of the item whether or not
   that is flagged constant, and leaves the flag, so that a later deletion does
   not free the new name: of an item whose strings are accounted for, something
   else is freed if and only if the item had a constant name, and its strings
   stay accounted for if and only if it is not flagged.
   */
  method AddItemToObject(heap: Allocator, owner: Node, name: seq<byte>, item: Node, ghost s: NodeShape,
                         ghost it: NodeShape)
    returns (ghost s': NodeShape)
    requires Tree(s) && SharesList(owner, s) && Alone(it) && it.node == item && s.nodes + {owner} !! it.nodes
    modifies heap, item`name, owner`child, LastOf(Tops(s.kids))`next, item`prev
    ensures s' == Shape(s.node, Inserted(s.kids, |s.kids|, it), s.nodes + it.nodes) && Heads(owner, Tops(s'.kids))
    ensures Tree(s') <==> owner == s.node || s.kids != []
    ensures item.name == Some(name) && heap.names == old(heap.names) + {item}
    ensures heap.live == old(heap.live) && heap.texts == old(heap.texts)
    ensures heap.corrupt <==> old(heap.corrupt) || (old(item.name.Some?) && item !in old(heap.names))
    ensures old(Accounted(heap, {item})) ==>
      && (heap.corrupt <==> old(heap.corrupt) || (old(item.name.Some?) && item.nameIsConst))
      && (Accounted(heap, {item}) <==> !item.nameIsConst)
  {
    hide Tree, Alone, Heads, AllNodes, Inserted, SharesList, Accounted;
    RootInTree(it);
    NewName(heap, item, name);
    s' := AddItemToArray(owner, item, s, it);
  }

  /** `cJSON_AddItemToObjectCS`, which looks at the flag: nothing else is freed, and all stays accounted for. */
  method AddItemToObjectCS(heap: Allocator, owner: Node, name: seq<byte>, item: Node, ghost s: NodeShape,
                           ghost it: NodeShape)
    returns (ghost s': NodeShape)
    requires Tree(s) && SharesList(owner, s) && Alone(it) && it.node == item && s.nodes + {owner} !! it.nodes
    requires Accounted(heap, {item})
    modifies heap, item`name, item`nameIsConst, owner`child, LastOf(Tops(s.kids))`next, item`prev
    ensures s' == Shape(s.node, Inserted(s.kids, |s.kids|, it), s.nodes + it.nodes) && Heads(owner, Tops(s'.kids))
    ensures Tree(s') <==> owner == s.node || s.kids != []
    ensures item.name == Some(name) && item.nameIsConst && heap.names == old(heap.names) - {item}
    ensures heap.live == old(heap.live) && heap.texts == old(heap.texts)
    ensures heap.corrupt == old(heap.corrupt) && Accounted(heap, {item})
  {
    hide Tree, Alone, Heads, AllNodes, Inserted, SharesList, Accounted;
    RootInTree(it);
    ConstName(heap, item, name);
    s' := AddItemToArray(owner, item, s, it);
  }

  // Copies ---------------------------------------------------------------------

  /**
   `cJSON_Duplicate`. With `recurse` the copy is a tree of new nodes, none of
   them a reference item, that stands for what is read of the source, be its
   nodes owned or referred to; without, it is the node alone. The copy of a name
   is flagged constant where the name was, although it is a block of its own.
   */
  method Duplicate(item: Node, recurse: bool, ghost w: View, ghost v: Json) returns (newitem: Node, ghost d: NodeShape)
    requires Reads(w, v) && w.node == item
    ensures fresh(d.nodes) && Alone(d) && d.node == newitem && newitem.name == item.name
    ensures recurse ==> TreeOf(d, v) && (AnyConst(d.nodes) <==> ConstNamed(w))
    ensures !recurse ==> d.kids == [] && !newitem.isReference && SameFields(item, newitem)
    ensures newitem.nameIsConst == item.nameIsConst
    decreases w, 2
  {
    hide Reads, Alone, Tree, TreeOf;
    newitem := new Node();
    newitem.kind, newitem.nameIsConst, newitem.valuedouble := item.kind, item.nameIsConst, item.valuedouble;
    newitem.valuestring := item.valuestring;
    newitem.name := item.name;
    d := Shape(newitem, [], {newitem});
    NoKids(d);
    AloneIs(d);
    if !recurse { return; }
    d := CopyChildren(item, newitem, w, v);
    IsTree(d, v);
    AloneIs(d);
  }

  /** A name that is flagged constant. */
  ghost predicate AnyConst(nodes: set<Node>)
    reads nodes`name, nodes`nameIsConst
  {
    exists n :: n in nodes && n.name.Some? && n.nameIsConst
  }

  /** The same in what is read below a node. */
  ghost predicate ConstNamed(w: View)
    reads w.node`name, w.node`nameIsConst, w.below
    decreases w
  {
    Within(w.kids, w.below) &&
    ((w.node.name.Some? && w.node.nameIsConst) || exists i :: 0 <= i < |w.kids| && ConstNamed(w.kids[i]))
  }

  ghost predicate SameFields(a: Node, b: Node)
    reads a`kind, a`valuestring, a`valuedouble, b`kind, b`valuestring, b`valuedouble
  {
    a.kind == b.kind && a.valuestring == b.valuestring && a.valuedouble == b.valuedouble
  }

  /** The copies made so far, chained under the new node. */
  ghost predicate CopiedSoFar(newitem: Node, w: View, v: Json, dk: seq<NodeShape>)
    reads newitem`child, AllNodes(dk), w.below
  {
    Separate(dk) && CopiedBut(newitem, w, v, dk) && Heads(newitem, Tops(dk))
  }

  /** The nodes of the copies that are not chained themselves. */
  ghost function Inner(dk: seq<NodeShape>): set<Node> {
    set n | n in AllNodes(dk) && n !in Tops(dk)
  }

  /** All of that but the chain. */
  ghost predicate CopiedBut(newitem: Node, w: View, v: Json, dk: seq<NodeShape>)
    requires Separate(dk)
    reads AllNodes(dk)`child, AllNodes(dk)`isReference, AllNodes(dk)`kind, AllNodes(dk)`valuestring
    reads AllNodes(dk)`valuedouble, AllNodes(dk)`name, AllNodes(dk)`nameIsConst, Inner(dk), w.below
  {
    TopNodes(dk);
    && |dk| <= |w.kids| == |KidValues(v)| && Within(w.kids, w.below) && newitem !in AllNodes(dk)
    && (forall j :: 0 <= j < |dk| ==> TreeOf(dk[j], KidValues(v)[j]))
    && (forall j :: 0 <= j < |dk| ==> dk[j].node.name == w.kids[j].node.name)
    && (forall j :: 0 <= j < |dk| ==> (AnyConst(dk[j].nodes) <==> ConstNamed(w.kids[j])))
  }

  /** The new nodes are none of those the source is read from. */
  ghost predicate Outside(w: View, newitem: Node, nodes: set<Node>) {
    newitem != w.node && newitem !in w.below && w.node !in nodes && w.below !! nodes
  }

  /** The loop of `cJSON_Duplicate` over the children. */
  method CopyChildren(item: Node, newitem: Node, ghost w: View, ghost v: Json) returns (ghost d: NodeShape)
    requires Reads(w, v) && w.node == item && Outside(w, newitem, {})
    requires newitem.child == newitem.next == newitem.prev == null && !newitem.isReference
    requires SameFields(item, newitem) && newitem.name == item.name && newitem.nameIsConst == item.nameIsConst
    modifies newitem`child
    ensures fresh(d.nodes - {newitem}) && newitem in d.nodes && TreeOf(d, v) && d.node == newitem
    ensures AnyConst(d.nodes) <==> ConstNamed(w)
    decreases w, 1
  {
    hide *;
    ghost var dk: seq<NodeShape>, made: set<Node> := [], {};
    var cptr := item.child;
    var nptr: Node? := null;
    NothingCopied(newitem, w, v);
    while cptr != null
      invariant |dk| <= |w.kids| && cptr == NodeAt(Roots(w.kids), |dk|) && nptr == NodeAt(Tops(dk), |dk| - 1)
      invariant CopiedSoFar(newitem, w, v, dk) && fresh(AllNodes(dk)) && Outside(w, newitem, AllNodes(dk))
      invariant Reads(w, v)
      decreases |w.kids| - |dk|
    {
      MoreToCopy(w, |dk|);
      nptr, cptr, dk, made := CopyKid(newitem, cptr, nptr, w, v, dk, AllNodes(dk));
    }
    d := Shape(newitem, dk, {newitem} + AllNodes(dk));
    AllCopied(w, v, |dk|);
    Copied(w, d, v);
    FlagsCopied(w, d, v);
  }

  lemma MoreToCopy(w: View, n: nat)
    requires n <= |w.kids| && NodeAt(Roots(w.kids), n) != null
    ensures n < |w.kids|
  {}

  lemma AllCopied(w: View, v: Json, n: nat)
    requires n <= |w.kids| && NodeAt(Roots(w.kids), n) == null
    ensures n == |w.kids|
  {}

  lemma NothingCopied(newitem: Node, w: View, v: Json)
    requires newitem.child == null && Reads(w, v) && Outside(w, newitem, {})
    ensures CopiedSoFar(newitem, w, v, []) && Outside(w, newitem, {})
    ensures var none: seq<NodeShape> := []; AllNodes(none) == {} && NodeAt(Tops(none), -1) == null
    ensures w.node.child == NodeAt(Roots(w.kids), 0)
  {
    var none: seq<NodeShape> := [];
    assert AllNodes(none) == {};
    KidsRead(w, v);
  }

  /** One round: copy a child and chain the copy behind the last one. */
  method CopyKid(newitem: Node, cptr: Node, nptr: Node?, ghost w: View, ghost v: Json, ghost dk: seq<NodeShape>,
                 ghost done: set<Node>)
    returns (newchild: Node, next: Node?, ghost dk': seq<NodeShape>, ghost made: set<Node>)
    requires done == AllNodes(dk) && Outside(w, newitem, done)
    requires |dk| < |w.kids| && cptr == NodeAt(Roots(w.kids), |dk|) && nptr == NodeAt(Tops(dk), |dk| - 1)
    requires CopiedSoFar(newitem, w, v, dk) && Reads(w, v)
    modifies newitem`child, done`next
    ensures |dk'| == |dk| + 1 <= |w.kids| && newchild == NodeAt(Tops(dk'), |dk|) && next == NodeAt(Roots(w.kids), |dk'|)
    ensures CopiedSoFar(newitem, w, v, dk') && AllNodes(dk') == done + made && fresh(made) && Reads(w, v)
    ensures Outside(w, newitem, AllNodes(dk'))
    decreases w, 0
  {
    hide Tree, TreeOf, Separate, AllNodes, KidValues, Reads, Chain, CopiedSoFar, Alone, AnyConst, ConstNamed;
    NextKid(w, v, cptr, |dk|);
    ghost var k, dc := |dk|, Shape(newitem, [], {});
    newchild, dc := Duplicate(cptr, true, w.kids[k], KidValues(v)[k]);
    RootInTree(dc);
    made := dc.nodes;
    dk' := dk + [dc];
    LinkCopy(newitem, newchild, nptr, dc, w, v, dk, done);
    next := cptr.next;
  }

  /** A copy is chained behind the others. */
  method LinkCopy(newitem: Node, newchild: Node, nptr: Node?, ghost dc: NodeShape, ghost w: View, ghost v: Json,
                  ghost dk: seq<NodeShape>, ghost done: set<Node>)
    requires done == AllNodes(dk) && CopiedSoFar(newitem, w, v, dk) && |dk| < |w.kids| == |KidValues(v)|
    requires nptr == NodeAt(Tops(dk), |dk| - 1) && Within(w.kids, w.below)
    requires Alone(dc) && dc.node == newchild && newitem !in dc.nodes && done !! dc.nodes
    requires w.below !! dc.nodes + done + {newitem}
    requires TreeOf(dc, KidValues(v)[|dk|]) && newchild.name == w.kids[|dk|].node.name
    requires AnyConst(dc.nodes) <==> ConstNamed(w.kids[|dk|])
    modifies newitem`child, done`next, newchild`prev
    ensures CopiedSoFar(newitem, w, v, dk + [dc]) && AllNodes(dk + [dc]) == done + dc.nodes
    ensures newchild == NodeAt(Tops(dk + [dc]), |dk|)
  {
    hide Tree, TreeOf, Separate, AllNodes, KidValues, CopiedBut, CopiedSoFar, Alone, Heads, Inner, AnyConst, ConstNamed;
    BeforeLink(newitem, newchild, nptr, dc, w, v, dk);
    LinkAfter(newitem, nptr, newchild, Tops(dk));
    OneMoreCopied(newitem, dc, w, v, dk);
  }

  /** A copy that is about to be chained behind the others. */
  lemma BeforeLink(newitem: Node, newchild: Node, nptr: Node?, dc: NodeShape, w: View, v: Json, dk: seq<NodeShape>)
    requires CopiedSoFar(newitem, w, v, dk) && Alone(dc) && dc.node == newchild
    requires newitem !in dc.nodes && AllNodes(dk) !! dc.nodes
    ensures newchild in dc.nodes && newchild != newitem && newchild !in Tops(dk)
    ensures newchild.next == null && newchild.prev == null && Separate(dk) && Heads(newitem, Tops(dk))
    ensures CopiedBut(newitem, w, v, dk) && newitem !in AllNodes(dk)
    ensures forall n :: n in Tops(dk) ==> n in AllNodes(dk)
    ensures forall n :: n in Inner(dk) ==> n in AllNodes(dk) && n !in Tops(dk)
  {
    OwnerOf(dc);
    TopNodesOf(dk);
  }

  /** And the list of copies with it. */
  lemma OneMoreCopied(newitem: Node, dc: NodeShape, w: View, v: Json, dk: seq<NodeShape>)
    requires Separate(dk) && CopiedBut(newitem, w, v, dk) && |dk| < |w.kids| && Heads(newitem, Tops(dk) + [dc.node])
    requires TreeOf(dc, KidValues(v)[|dk|]) && dc.node.name == w.kids[|dk|].node.name
    requires AnyConst(dc.nodes) <==> ConstNamed(w.kids[|dk|])
    requires dc.node in dc.nodes && newitem !in dc.nodes && AllNodes(dk) !! dc.nodes
    ensures CopiedSoFar(newitem, w, v, dk + [dc]) && AllNodes(dk + [dc]) == AllNodes(dk) + dc.nodes
    ensures dc.node == NodeAt(Tops(dk + [dc]), |dk|)
  {
    Appended(dk, dc);
    var dk' := dk + [dc];
    assert Tops(dk') == Tops(dk) + [dc.node];
    forall j | 0 <= j < |dk'|
      ensures TreeOf(dk'[j], KidValues(v)[j]) && dk'[j].node.name == w.kids[j].node.name
      ensures AnyConst(dk'[j].nodes) <==> ConstNamed(w.kids[j])
    {
      assert j < |dk| ==> dk'[j] == dk[j];
    }
  }

  lemma NextKid(w: View, v: Json, cptr: Node, i: nat)
    requires Reads(w, v) && i < |w.kids| && cptr == NodeAt(Roots(w.kids), i)
    ensures cptr == w.kids[i].node && cptr.next == NodeAt(Roots(w.kids), i + 1)
    ensures Within(w.kids, w.below) && w.kids[i].below <= w.below && cptr in w.below
    ensures |KidValues(v)| == |w.kids| && Reads(w.kids[i], KidValues(v)[i])
  {
    KidsRead(w, v);
    assert Roots(w.kids)[i].next == NodeAt(Roots(w.kids), i + 1);
  }

  /** Equal fields and children that stand for equal values. */
  lemma Copied(w: View, d: NodeShape, v: Json)
    requires Reads(w, v) && SameFields(w.node, d.node) && !d.node.isReference
    requires d.nodes == {d.node} + AllNodes(d.kids) && |d.kids| == |w.kids|
    requires CopiedSoFar(d.node, w, v, d.kids)
    ensures TreeOf(d, v)
  {
    assert Trees(d.kids);
    Owned(d);
    assert Siblings(d.kids);
    if v.Array? {
      assert RepresentItems(d.kids, v.items);
    } else if v.Object? {
      KidsRead(w, v);
      assert RepresentMembers(d.kids, v.members);
    }
  }

  /** And so are their flags. */
  lemma FlagsCopied(w: View, d: NodeShape, v: Json)
    requires d.nodes == {d.node} + AllNodes(d.kids) && |d.kids| == |w.kids| && CopiedSoFar(d.node, w, v, d.kids)
    requires d.node.name == w.node.name && d.node.nameIsConst == w.node.nameIsConst
    ensures AnyConst(d.nodes) <==> ConstNamed(w)
  {
    if AnyConst(AllNodes(d.kids)) {
      var n :| n in AllNodes(d.kids) && n.name.Some? && n.nameIsConst;
      var i :| 0 <= i < |d.kids| && n in d.kids[i].nodes;
      assert AnyConst(d.kids[i].nodes);
    }
    forall i | 0 <= i < |w.kids| && ConstNamed(w.kids[i]) ensures AnyConst(AllNodes(d.kids)) {
      InAll(d.kids, i);
    }
  }

  // Leaks ----------------------------------------------------------------------

  lemma {:induction false} NoReferences(s: NodeShape, v: Json)
    requires TreeOf(s, v)
    ensures forall n :: n in s.nodes ==> !n.isReference
    decreases s
  {
    KidsOf(s, v);
    OwnerOf(s);
    forall n | n in AllNodes(s.kids) ensures !n.isReference {
      var i :| 0 <= i < |s.kids| && n in s.kids[i].nodes;
      NoReferences(s.kids[i], KidValues(v)[i]);
    }
  }

  /**
   The copy `cJSON_Duplicate` makes, each of its strings a block of its own: a
   deletion of the copy leaves no string behind, if and only if none of its
   names is flagged constant.
   */
  lemma CopyAccountedIff(heap: Allocator, d: NodeShape, v: Json)
    requires TreeOf(d, v) && d.nodes <= heap.live
    requires forall n :: n in d.nodes ==> (n in heap.names <==> n.name.Some?)
    requires forall n :: n in d.nodes ==> (n in heap.texts <==> n.valuestring.Some?)
    ensures Accounted(heap, d.nodes) <==> !AnyConst(d.nodes)
  {
    NoReferences(d, v);
    assert OwnTexts(d.nodes) == heap.texts * d.nodes;
    if AnyConst(d.nodes) {
      var n :| n in d.nodes && n.name.Some? && n.nameIsConst;
      assert n in heap.names * d.nodes && n !in OwnNames(d.nodes);
    } else {
      assert OwnNames(d.nodes) == heap.names * d.nodes;
    }
  }

  /** A deletion leaves exactly the strings behind that are not accounted for. */
  lemma NothingLeftIff(heap: Allocator, nodes: set<Node>, live: set<Node>, names: set<Node>, texts: set<Node>,
                       corrupt: bool)
    requires LeftBy(heap, nodes, live, names, texts, corrupt)
    requires nodes <= live && OwnNames(nodes) <= names && OwnTexts(nodes) <= texts
    ensures heap.names !! nodes && heap.texts !! nodes <==>
            OwnNames(nodes) == names * nodes && OwnTexts(nodes) == texts * nodes
  {
    forall n | n in names * nodes ensures n in heap.names * nodes <==> n !in OwnNames(nodes) {}
    forall n | n in texts * nodes ensures n in heap.texts * nodes <==> n !in OwnTexts(nodes) {}
  }
}
