/**
 What a reader of the linked tree sees. Reading follows `child` and `next` and
 takes no notice of who owns a node: a reference item is entered like any
 other, so that a view may meet the nodes of another tree, and a node twice.
 */
module TreeView {
  import opened JsonValue
  import opened CJsonNode
  import opened Links
  import opened Shapes
  import opened NodeTree
  import opened ChildList

  /** A node, the views of its children, and the set of all nodes met below it. */
  datatype View = View(node: Node, kids: seq<View>, below: set<Node>)

  ghost function Roots(ks: seq<View>): (p: seq<Node>)
    ensures |p| == |ks| && forall i :: 0 <= i < |ks| ==> p[i] == ks[i].node
  {
    seq(|ks|, i requires 0 <= i < |ks| => ks[i].node)
  }

  ghost predicate Within(ks: seq<View>, below: set<Node>) {
    forall i :: 0 <= i < |ks| ==> ks[i].node in below && ks[i].below <= below
  }

  /** The view `w` meets the value `v`. */
  ghost predicate Reads(w: View, v: Json)
    reads w.node`child, w.node`kind, w.node`valuestring, w.node`valuedouble, w.below
    decreases w
  {
    && Within(w.kids, w.below) && Chain(w.node, Roots(w.kids))
    && match w.node.kind
       case NullKind => v == Null && w.kids == []
       case FalseKind => v == False && w.kids == []
       case TrueKind => v == True && w.kids == []
       case NumberKind => v == Number(w.node.valuedouble) && w.kids == []
       case StringKind => w.node.valuestring.Some? && v == String(w.node.valuestring.value) && w.kids == []
       case ArrayKind =>
         v.Array? && |w.kids| == |v.items| && forall i :: 0 <= i < |w.kids| ==> Reads(w.kids[i], v.items[i])
       case ObjectKind =>
         v.Object? && |w.kids| == |v.members| && forall i :: 0 <= i < |w.kids| ==>
           w.kids[i].node.name == Some(v.members[i].name) && Reads(w.kids[i], v.members[i].value)
  }

  /** What reading says about the children. */
  lemma KidsRead(w: View, v: Json)
    requires Reads(w, v)
    ensures |KidValues(v)| == |w.kids| && Within(w.kids, w.below) && Chain(w.node, Roots(w.kids))
    ensures forall j :: 0 <= j < |w.kids| ==> Reads(w.kids[j], KidValues(v)[j])
    ensures v.Object? ==> forall j :: 0 <= j < |w.kids| ==> w.kids[j].node.name == Some(v.members[j].name)
  {}

  /** Whatever view a node is seen in, it is read as one value. */
  lemma {:induction false} OneReading(w: View, v: Json, w': View, v': Json)
    requires Reads(w, v) && Reads(w', v') && w.node == w'.node
    ensures v == v'
    decreases w
  {
    KidsRead(w, v);
    KidsRead(w', v');
    ChainUnique(w.node, Roots(w.kids), Roots(w'.kids));
    forall j | 0 <= j < |w.kids| ensures w.kids[j].node == w'.kids[j].node && KidValues(v)[j] == KidValues(v')[j] {
      assert Roots(w.kids)[j] == Roots(w'.kids)[j];
      OneReading(w.kids[j], KidValues(v)[j], w'.kids[j], KidValues(v')[j]);
    }
    if v.Array? {
      assert v.items == v'.items;
    } else if v.Object? {
      forall j | 0 <= j < |v.members| ensures v.members[j] == v'.members[j] {
        assert KidValues(v)[j] == v.members[j].value && KidValues(v')[j] == v'.members[j].value;
      }
      assert v.members == v'.members;
    }
  }

  // Trees that own their nodes ---------------------------------------------------

  ghost function ViewOf(s: NodeShape): View
    decreases s, 1
  {
    View(s.node, ViewsOf(s.kids), s.nodes - {s.node})
  }

  ghost function ViewsOf(ks: seq<NodeShape>): (r: seq<View>)
    ensures |r| == |ks| && forall i :: 0 <= i < |ks| ==> r[i] == ViewOf(ks[i])
    decreases ks, 0
  {
    seq(|ks|, i requires 0 <= i < |ks| => ViewOf(ks[i]))
  }

  /** A tree that stands for a value is read as that value. */
  lemma {:induction false} TreeReads(s: NodeShape, v: Json)
    requires TreeOf(s, v)
    ensures Reads(ViewOf(s), v)
    decreases s
  {
    var w := ViewOf(s);
    KidsOf(s, v);
    OwnerOf(s);
    assert Roots(w.kids) == Tops(s.kids);
    forall i | 0 <= i < |s.kids| ensures Reads(w.kids[i], KidValues(v)[i]) {
      TreeReads(s.kids[i], KidValues(v)[i]);
    }
    assert s.node.kind == ArrayKind || s.node.kind == ObjectKind || s.kids == [];
  }
}
