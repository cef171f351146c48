/**
 Editing the child list of an array or object: each operation is one edit of
 the list of shapes, and the rest of the tree stays as it was.
 */
module ChildList {
  import opened CText
  import opened CJsonNode
  import opened Links
  import opened Sequences
  import opened NodeTree
  import opened Shapes

  /** A tree that is in no list. */
  ghost predicate Alone(s: NodeShape)
    reads s.node`child, s.node`isReference, s.node`next, s.node`prev, s.nodes - {s.node}
  {
    Tree(s) && s.node.next == null && s.node.prev == null
  }

  function Inserted(ks: seq<NodeShape>, k: nat, it: NodeShape): seq<NodeShape>
    requires k <= |ks|
  {
    ks[..k] + [it] + ks[k..]
  }

  function Removed(ks: seq<NodeShape>, k: nat): seq<NodeShape>
    requires k < |ks|
  {
    ks[..k] + ks[k + 1..]
  }

  lemma InsertedIsSeparate(ks: seq<NodeShape>, k: nat, it: NodeShape)
    requires Separate(ks) && k <= |ks| && it.node in it.nodes && AllNodes(ks) !! it.nodes
    ensures Separate(Inserted(ks, k, it)) && AllNodes(Inserted(ks, k, it)) == AllNodes(ks) + it.nodes
    ensures Tops(Inserted(ks, k, it)) == With(Tops(ks), k, it.node)
  {
    var none: seq<NodeShape> := [];
    assert AllNodes(none) == {};
    hide Separate, AllNodes, Tops, With;
    assert ks[..k] + [] + ks[k..] == ks;
    SeparateParts(ks[..k], [], ks[k..]);
    AllNodesSplice(ks[..k], [], ks[k..]);
    AllNodesOne(it);
    AllNodesSplice(ks[..k], [it], ks[k..]);
    SeparateSplice(ks[..k], [it], ks[k..]);
    TopsInserted(ks, k, it);
  }

  lemma RemovedIsSeparate(ks: seq<NodeShape>, k: nat)
    requires Separate(ks) && k < |ks|
    ensures Separate(Removed(ks, k)) && AllNodes(Removed(ks, k)) == AllNodes(ks) - ks[k].nodes
    ensures Tops(Removed(ks, k)) == Without(Tops(ks), k)
  {
    hide Separate, AllNodes, Tops, Without;
    assert ks[..k] + [ks[k]] + ks[k + 1..] == ks;
    SeparateParts(ks[..k], [ks[k]], ks[k + 1..]);
    AllNodesSplice(ks[..k], [ks[k]], ks[k + 1..]);
    AllNodesOne(ks[k]);
    AllNodesAppend(ks[..k], ks[k + 1..]);
    SeparateAppend(ks[..k], ks[k + 1..]);
    TopsRemoved(ks, k);
  }

  lemma TopsRemoved(ks: seq<NodeShape>, k: nat)
    requires k < |ks|
    ensures Tops(Removed(ks, k)) == Without(Tops(ks), k)
  {}

  lemma TopsInserted(ks: seq<NodeShape>, k: nat, it: NodeShape)
    requires k <= |ks|
    ensures Tops(Inserted(ks, k, it)) == With(Tops(ks), k, it.node)
  {}

  lemma Appended(ks: seq<NodeShape>, it: NodeShape)
    requires Separate(ks) && it.node in it.nodes && AllNodes(ks) !! it.nodes
    ensures Separate(ks + [it]) && AllNodes(ks + [it]) == AllNodes(ks) + it.nodes
  {
    InsertedIsSeparate(ks, |ks|, it);
    assert Inserted(ks, |ks|, it) == ks + [it];
  }

  lemma TopNodesOf(ks: seq<NodeShape>)
    requires Separate(ks)
    ensures forall n :: n in Tops(ks) ==> n in AllNodes(ks)
    ensures forall i, j :: 0 <= i < |ks| && 0 <= j < |ks| && ks[i].node in ks[j].nodes ==> i == j
  {
    TopNodes(ks);
  }

  lemma NoKids(d: NodeShape)
    requires d.kids == [] && d.nodes == {d.node} && (d.node.isReference || d.node.child == null)
    ensures Tree(d)
  {}

  /** What the tree predicate says about the owner of a list. */
  lemma OwnerOf(s: NodeShape)
    requires Tree(s)
    ensures s.node in s.nodes && s.nodes == {s.node} + AllNodes(s.kids) && s.node !in AllNodes(s.kids)
    ensures Separate(s.kids) && Trees(s.kids) && Linked(Tops(s.kids))
    ensures !s.node.isReference ==> Heads(s.node, Tops(s.kids)) && Chain(s.node, Tops(s.kids))
    ensures forall i :: 0 <= i < |s.kids| ==> s.kids[i].node in AllNodes(s.kids) && s.kids[i].nodes <= AllNodes(s.kids)
    ensures forall i, j :: 0 <= i < |s.kids| && 0 <= j < |s.kids| && s.kids[i].node in s.kids[j].nodes ==> i == j
  {
    TopNodes(s.kids);
  }

  lemma Owned(s: NodeShape)
    requires s.nodes == {s.node} + AllNodes(s.kids) && s.node !in AllNodes(s.kids)
    requires Separate(s.kids) && Trees(s.kids) && Heads(s.node, Tops(s.kids)) && !s.node.isReference
    ensures Tree(s)
  {}

  lemma KidTrees(s: NodeShape)
    requires Tree(s)
    ensures forall i :: 0 <= i < |s.kids| ==> Tree(s.kids[i])
  {
    assert Trees(s.kids);
  }

  lemma TreesInserted(ks: seq<NodeShape>, k: nat, it: NodeShape)
    requires k <= |ks| && Separate(ks) && Separate(Inserted(ks, k, it)) && Tree(it)
    requires forall i :: 0 <= i < |ks| ==> Tree(ks[i])
    ensures Trees(Inserted(ks, k, it))
  {
    hide Tree, Separate;
  }

  function Clamp(which: int): nat { if which > 0 then which else 0 }

  /** `cJSON_GetArrayItem`, on the children of any item. */
  method GetArrayItem(owner: Node, item: int, ghost p: seq<Node>) returns (c: Node?)
    requires Chain(owner, p)
    ensures c == NodeAt(p, Clamp(item))
  {
    c := owner.child;
    var which := item;
    ghost var i := 0;
    while c != null && which > 0
      invariant i <= |p| && c == NodeAt(p, i)
      invariant if c == null then i <= Clamp(item) else i + Clamp(which) == Clamp(item)
      decreases |p| - i
    {
      assert p[i].next == NodeAt(p, i + 1);
      c := c.next;
      which := which - 1;
      i := i + 1;
    }
  }

  // Edits ------------------------------------------------------------------------

  /**
   An item whose list is that of the tree `s`: its root, or a reference item
   that shares the children, for which the source keeps no account.
   */
  ghost predicate SharesList(owner: Node, s: NodeShape)
    reads owner`child, s.node`child, s.node`isReference
  {
    !s.node.isReference && owner.child == s.node.child && owner !in AllNodes(s.kids)
  }

  lemma SharedHeads(owner: Node, s: NodeShape)
    requires Tree(s) && SharesList(owner, s)
    ensures Heads(owner, Tops(s.kids)) && Chain(owner, Tops(s.kids)) && !s.node.isReference
  {
    OwnerOf(s);
  }

  /**
   An edited list under one of the items that share it: the tree is whole if
   and only if its root points at the first node of the list.
   */
  lemma WholeIff(s: NodeShape, owner: Node)
    requires s.nodes == {s.node} + AllNodes(s.kids) && s.node !in AllNodes(s.kids) && !s.node.isReference
    requires Separate(s.kids) && Trees(s.kids) && Heads(owner, Tops(s.kids))
    ensures Tree(s) <==> s.node.child == NodeAt(Tops(s.kids), 0)
  {}

  /** `cJSON_AddItemToArray`. Through a reference item it breaks the tree exactly if the list was empty. */
  method AddItemToArray(owner: Node, item: Node, ghost s: NodeShape, ghost it: NodeShape) returns (ghost s': NodeShape)
    requires Tree(s) && SharesList(owner, s) && Alone(it) && it.node == item && s.nodes + {owner} !! it.nodes
    modifies owner`child, LastOf(Tops(s.kids))`next, item`prev
    ensures s' == Shape(s.node, Inserted(s.kids, |s.kids|, it), s.nodes + it.nodes) && Heads(owner, Tops(s'.kids))
    ensures Tree(s') <==> owner == s.node || s.kids != []
  {
    hide Tree, Trees, Separate, AllNodes, Linked, Chain, Inserted;
    KidTrees(s);
    OwnerOf(s);
    SharedHeads(owner, s);
    OwnerOf(it);
    InsertedIsSeparate(s.kids, |s.kids|, it);
    s' := Shape(s.node, Inserted(s.kids, |s.kids|, it), s.nodes + it.nodes);
    LinkLast(owner, item, Tops(s.kids));
    assert forall i :: 0 <= i < |s.kids| ==> Tree(s.kids[i]);
    TreesInserted(s.kids, |s.kids|, it);
    WholeIff(s', owner);
  }

  /**
   `cJSON_DetachItemFromArray`. Taking the first item out through a reference
   item leaves the root with a pointer to it, and only that.
   */
  method DetachItemFromArray(owner: Node, which: int, ghost s: NodeShape) returns (c: Node?, ghost s': NodeShape)
    requires Tree(s) && SharesList(owner, s)
    modifies owner`child, Tops(s.kids)`next, Tops(s.kids)`prev
    ensures Heads(owner, Tops(s'.kids))
    ensures var k := Clamp(which);
            if k >= |s.kids| then c == null && s' == s && Tree(s)
            else
              && c == s.kids[k].node && Alone(s.kids[k])
              && s' == Shape(s.node, Removed(s.kids, k), s.nodes - s.kids[k].nodes)
              && (Tree(s') <==> owner == s.node || k > 0)
  {
    hide Tree, Trees, Separate, AllNodes, Linked, Chain, Removed;
    s' := s;
    KidTrees(s);
    OwnerOf(s);
    SharedHeads(owner, s);
    c := GetArrayItem(owner, which, Tops(s.kids));
    if c != null {
      ghost var k := Clamp(which);
      RemovedIsSeparate(s.kids, k);
      s' := Shape(s.node, Removed(s.kids, k), s.nodes - s.kids[k].nodes);
      FirstIsOther(Tops(s.kids), k);
      Unlink(owner, c, Tops(s.kids), k);
      assert forall i :: 0 <= i < |s.kids| ==> Tree(s.kids[i]);
      TreesRemoved(s.kids, k);
      WholeIff(s', owner);
    }
  }

  lemma FirstIsOther(p: seq<Node>, k: nat)
    requires Linked(p) && k < |p|
    ensures NodeAt(Without(p, k), 0) == NodeAt(p, 0) <==> k > 0
  {}

  lemma TreesRemoved(ks: seq<NodeShape>, k: nat)
    requires k < |ks| && Separate(ks) && Separate(Removed(ks, k))
    requires forall i :: 0 <= i < |ks| ==> Tree(ks[i])
    ensures Trees(Removed(ks, k))
  {
    hide Tree, Separate;
  }

  /**
   `cJSON_InsertItemInArray`. Put in front of all others through a reference
   item, the new item is lost to the root.
   */
  method InsertItemInArray(owner: Node, which: int, newitem: Node, ghost s: NodeShape, ghost it: NodeShape)
    returns (ghost s': NodeShape)
    requires Tree(s) && SharesList(owner, s) && Alone(it) && it.node == newitem && s.nodes + {owner} !! it.nodes
    modifies owner`child, Tops(s.kids)`next, Tops(s.kids)`prev, newitem`next, newitem`prev
    ensures var k := if Clamp(which) < |s.kids| then Clamp(which) else |s.kids|;
            && s' == Shape(s.node, Inserted(s.kids, k, it), s.nodes + it.nodes) && Heads(owner, Tops(s'.kids))
            && (Tree(s') <==> owner == s.node || k > 0)
  {
    hide Tree, Heads, Alone, Chain, Inserted, SharesList, AllNodes;
    SharedHeads(owner, s);
    var c := GetArrayItem(owner, which, Tops(s.kids));
    if c == null {
      s' := AddItemToArray(owner, newitem, s, it);
    } else {
      s' := InsertBefore(owner, c, Clamp(which), newitem, s, it);
    }
  }

  method InsertBefore(owner: Node, c: Node, ghost k: nat, newitem: Node, ghost s: NodeShape, ghost it: NodeShape)
    returns (ghost s': NodeShape)
    requires Tree(s) && SharesList(owner, s) && Alone(it) && it.node == newitem && s.nodes + {owner} !! it.nodes
    requires k < |s.kids| && c == s.kids[k].node
    modifies owner`child, Tops(s.kids)`next, Tops(s.kids)`prev, newitem`next, newitem`prev
    ensures s' == Shape(s.node, Inserted(s.kids, k, it), s.nodes + it.nodes) && Heads(owner, Tops(s'.kids))
    ensures Tree(s') <==> owner == s.node || k > 0
  {
    hide Tree, Trees, Separate, AllNodes, Linked, Chain, Inserted;
    KidTrees(s);
    OwnerOf(s);
    SharedHeads(owner, s);
    OwnerOf(it);
    InsertedIsSeparate(s.kids, k, it);
    s' := Shape(s.node, Inserted(s.kids, k, it), s.nodes + it.nodes);
    LinkBefore(owner, newitem, c, Tops(s.kids), k);
    assert forall i :: 0 <= i < |s.kids| ==> Tree(s.kids[i]);
    TreesInserted(s.kids, k, it);
    WholeIff(s', owner);
  }

  // By name --------------------------------------------------------------------

  /** The two cases of one letter of A to Z, or the same byte. */
  predicate SameLetter(x: byte, y: byte) {
    x == y || (65 <= x <= 90 && y - x == 32) || (65 <= y <= 90 && x - y == 32)
  }

  /** Names that differ in nothing but the case of letters. */
  predicate SameText(a: seq<byte>, b: seq<byte>) {
    |a| == |b| && forall i :: 0 <= i < |b| ==> SameLetter(a[i], b[i])
  }

  predicate SameName(a: Option<seq<byte>>, b: seq<byte>) {
    a.Some? && SameText(a.value, b)
  }

  /** Names fall into classes: no name is found under two that differ in more than case. */
  lemma SameTextIsEquivalence(a: seq<byte>, b: seq<byte>, c: seq<byte>)
    ensures SameText(a, a)
    ensures SameText(a, b) ==> SameText(b, a)
    ensures SameText(a, b) && SameText(b, c) ==> SameText(a, c)
  {
    if SameText(a, b) && SameText(b, c) {
      forall i | 0 <= i < |c| ensures SameLetter(a[i], c[i]) {
        assert SameLetter(a[i], b[i]) && SameLetter(b[i], c[i]);
      }
    }
  }

  /** ASCII `tolower` */
  function Lower(c: byte): byte {
    if 65 <= c <= 90 then c + 32 else c
  }

  lemma LowerIsSameLetter(x: byte, y: byte)
    ensures Lower(x) == Lower(y) <==> SameLetter(x, y)
  {}

  /** `cJSON_strcasecmp(s1, s2) == 0`; the end of a name reads NUL. */
  method StrCaseEqual(s1: Option<seq<byte>>, s2: seq<byte>) returns (same: bool)
    ensures same <==> SameName(s1, s2)
  {
    if s1.None? { return false; }
    var a, i := s1.value, 0;
    while i < |a| && i < |s2| && Lower(a[i]) == Lower(s2[i])
      invariant i <= |a| && i <= |s2| && forall j :: 0 <= j < i ==> SameLetter(a[j], s2[j])
    {
      LowerIsSameLetter(a[i], s2[i]);
      i := i + 1;
    }
    if i < |a| && i < |s2| { LowerIsSameLetter(a[i], s2[i]); }
    same := i == |a| && i == |s2|;
  }

  /** The first node of that name, or the end of the list. */
  ghost predicate FirstNamed(p: seq<Node>, name: seq<byte>, k: nat)
    reads p`name
  {
    && k <= |p|
    && (forall i :: 0 <= i < k ==> !SameName(p[i].name, name))
    && (k < |p| ==> SameName(p[k].name, name))
  }

  /** `cJSON_GetObjectItem`, with the index the by-name operations count. */
  method FindByName(owner: Node, name: seq<byte>, ghost p: seq<Node>) returns (c: Node?, i: nat)
    requires Chain(owner, p)
    ensures FirstNamed(p, name, i) && c == NodeAt(p, i)
  {
    c := owner.child;
    i := 0;
    while c != null
      invariant i <= |p| && c == NodeAt(p, i)
      invariant forall j :: 0 <= j < i ==> !SameName(p[j].name, name)
      decreases |p| - i
    {
      var found := StrCaseEqual(c.name, name);
      if found { break; }
      assert p[i].next == NodeAt(p, i + 1);
      c := c.next;
      i := i + 1;
    }
  }

  /** `cJSON_DetachItemFromObject` takes out the item `cJSON_GetObjectItem` finds. */
  method DetachItemFromObject(owner: Node, name: seq<byte>, ghost s: NodeShape)
    returns (c: Node?, ghost s': NodeShape, ghost k: nat)
    requires Tree(s) && SharesList(owner, s)
    modifies owner`child, Tops(s.kids)`next, Tops(s.kids)`prev
    ensures old(FirstNamed(Tops(s.kids), name, k)) && Heads(owner, Tops(s'.kids))
    ensures if k == |s.kids| then c == null && s' == s && Tree(s)
            else
              && c == s.kids[k].node && Alone(s.kids[k])
              && s' == Shape(s.node, Removed(s.kids, k), s.nodes - s.kids[k].nodes)
              && (Tree(s') <==> owner == s.node || k > 0)
  {
    hide Tree, Heads, Chain, Removed, Alone, SharesList;
    SharedHeads(owner, s);
    var found, i := FindByName(owner, name, Tops(s.kids));
    k := i;
    if found != null {
      c, s' := DetachItemFromArray(owner, i, s);
    } else {
      c, s' := null, s;
    }
  }
}
