/**
 The linked tree of cJSON: which nodes make up a tree, in what order, and the
 value it stands for.
 */
module NodeTree {
  import opened JsonValue
  import opened CJsonNode
  import opened Links
  import opened Shapes

  type NodeShape = Shape<Node>

  /**
   The fields of `s` link exactly its nodes, none of them twice. A reference
   item owns no children: its `child` belongs to another tree.
   */
  ghost predicate Tree(s: NodeShape)
    reads s.node`child, s.node`isReference, s.nodes - {s.node}
    decreases s, 0
  {
    && s.node !in AllNodes(s.kids)
    && s.nodes == {s.node} + AllNodes(s.kids)
    && (if s.node.isReference then s.kids == [] else s.node.child == NodeAt(Tops(s.kids), 0))
    && Siblings(s.kids)
  }

  /** Trees chained by `next` and, mirrored, by `prev`, with no node in common. */
  ghost predicate Siblings(ks: seq<NodeShape>)
    reads AllNodes(ks)
    decreases ks, 1
  {
    && Separate(ks)
    && Linked(Tops(ks))
    && Trees(ks)
  }

  ghost predicate Trees(ks: seq<NodeShape>)
    requires Separate(ks)
    reads AllNodes(ks)
    decreases ks, 0
  {
    forall i :: 0 <= i < |ks| ==> Tree(ks[i])
  }

  /** The tree of shape `s` stands for the value `v`. */
  ghost predicate Represents(s: NodeShape, v: Json)
    requires Tree(s)
    reads s.node`child, s.node`isReference, s.node`kind, s.node`valuestring, s.node`valuedouble, s.nodes - {s.node}
    decreases s, 0
  {
    assert Siblings(s.kids);
    !s.node.isReference &&
    match s.node.kind
    case NullKind => v == Null && s.kids == []
    case FalseKind => v == False && s.kids == []
    case TrueKind => v == True && s.kids == []
    case NumberKind => v == Number(s.node.valuedouble) && s.kids == []
    case StringKind => s.node.valuestring.Some? && v == String(s.node.valuestring.value) && s.kids == []
    case ArrayKind => v.Array? && RepresentItems(s.kids, v.items)
    case ObjectKind => v.Object? && RepresentMembers(s.kids, v.members)
  }

  ghost predicate RepresentItems(ks: seq<NodeShape>, vs: seq<Json>)
    requires Separate(ks) && Trees(ks)
    reads AllNodes(ks)
    decreases ks, 1
  {
    |ks| == |vs| && forall i :: 0 <= i < |ks| ==> Represents(ks[i], vs[i])
  }

  ghost predicate RepresentMembers(ks: seq<NodeShape>, ms: seq<Member>)
    requires Separate(ks) && Trees(ks)
    reads AllNodes(ks)
    decreases ks, 1
  {
    |ks| == |ms| && forall i :: 0 <= i < |ks| ==>
      ks[i].node.name == Some(ms[i].name) && Represents(ks[i], ms[i].value)
  }

  /** A well-linked tree that stands for `v`. */
  ghost predicate TreeOf(s: NodeShape, v: Json)
    reads s.node`child, s.node`isReference, s.node`kind, s.node`valuestring, s.node`valuedouble, s.nodes - {s.node}
  {
    Tree(s) && Represents(s, v)
  }

  lemma KidsOf(s: NodeShape, v: Json)
    requires TreeOf(s, v)
    ensures |KidValues(v)| == |s.kids|
    ensures forall j :: 0 <= j < |s.kids| ==> TreeOf(s.kids[j], KidValues(v)[j])
    ensures v.Object? ==> forall j :: 0 <= j < |s.kids| ==> s.kids[j].node.name == Some(v.members[j].name)
  {
    assert Siblings(s.kids);
    assert Trees(s.kids);
    if v.Array? {
      assert RepresentItems(s.kids, v.items);
    } else if v.Object? {
      assert RepresentMembers(s.kids, v.members);
    }
  }
}
