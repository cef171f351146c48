/** Trees of nodes, given by which nodes they are made of. */
module Shapes {

  /** A node with the shapes of its children, in order, and the set of all nodes in it. */
  datatype Shape<N> = Shape(node: N, kids: seq<Shape<N>>, nodes: set<N>)

  ghost function AllNodes<N>(ks: seq<Shape<N>>): set<N> {
    set i, n | 0 <= i < |ks| && n in ks[i].nodes :: n
  }

  /** The top nodes of a list of trees. */
  ghost function Tops<N>(ks: seq<Shape<N>>): (p: seq<N>)
    ensures |p| == |ks| && forall i :: 0 <= i < |ks| ==> p[i] == ks[i].node
  {
    seq(|ks|, i requires 0 <= i < |ks| => ks[i].node)
  }

  ghost predicate Separate<N>(ks: seq<Shape<N>>) {
    && (forall i :: 0 <= i < |ks| ==> ks[i].node in ks[i].nodes)
    && (forall i, j :: 0 <= i < j < |ks| ==> ks[i].nodes !! ks[j].nodes)
  }

  lemma AllNodesAppend<N>(a: seq<Shape<N>>, b: seq<Shape<N>>)
    ensures AllNodes(a + b) == AllNodes(a) + AllNodes(b)
  {
    var ks := a + b;
    forall n | n in AllNodes(a) ensures n in AllNodes(ks) {
      var i :| 0 <= i < |a| && n in a[i].nodes;
      assert ks[i] == a[i];
    }
    forall n | n in AllNodes(b) ensures n in AllNodes(ks) {
      var i :| 0 <= i < |b| && n in b[i].nodes;
      assert ks[|a| + i] == b[i];
    }
  }

  lemma AllNodesOne<N>(s: Shape<N>)
    ensures AllNodes([s]) == s.nodes
  {
    assert [s][0] == s;
  }

  lemma AllNodesSplice<N>(a: seq<Shape<N>>, mid: seq<Shape<N>>, b: seq<Shape<N>>)
    ensures AllNodes(a + mid + b) == AllNodes(a) + AllNodes(mid) + AllNodes(b)
  {
    AllNodesAppend(a, mid);
    AllNodesAppend(a + mid, b);
  }

  lemma SeparateParts<N>(a: seq<Shape<N>>, mid: seq<Shape<N>>, b: seq<Shape<N>>)
    requires Separate(a + mid + b)
    ensures Separate(a) && Separate(mid) && Separate(b)
    ensures AllNodes(a) !! AllNodes(mid) && AllNodes(a) !! AllNodes(b) && AllNodes(mid) !! AllNodes(b)
  {
    SeparateHalves(a + mid, b);
    SeparateHalves(a, mid);
    AllNodesAppend(a, mid);
  }

  lemma SeparateHalves<N>(a: seq<Shape<N>>, b: seq<Shape<N>>)
    requires Separate(a + b)
    ensures Separate(a) && Separate(b) && AllNodes(a) !! AllNodes(b)
  {
    var ks := a + b;
    assert forall i :: 0 <= i < |a| ==> a[i] == ks[i];
    assert forall i :: 0 <= i < |b| ==> b[i] == ks[|a| + i];
    forall i | 0 <= i < |a| ensures a[i].nodes !! AllNodes(b) {
      forall j | 0 <= j < |b| ensures b[j].nodes !! a[i].nodes {
        assert b[j] == ks[|a| + j] && a[i] == ks[i];
      }
      DisjointFromAll(b, a[i].nodes);
    }
    DisjointFromAll(a, AllNodes(b));
  }

  lemma DisjointFromAll<N>(a: seq<Shape<N>>, x: set<N>)
    requires forall i :: 0 <= i < |a| ==> a[i].nodes !! x
    ensures AllNodes(a) !! x
  {}

  lemma SeparateSplice<N>(a: seq<Shape<N>>, mid: seq<Shape<N>>, b: seq<Shape<N>>)
    requires Separate(a) && Separate(mid) && Separate(b)
    requires AllNodes(a) !! AllNodes(mid) && AllNodes(a) !! AllNodes(b) && AllNodes(mid) !! AllNodes(b)
    ensures Separate(a + mid + b)
  {
    SeparateAppend(a, mid);
    AllNodesAppend(a, mid);
    SeparateAppend(a + mid, b);
  }

  lemma SeparateAppend<N>(a: seq<Shape<N>>, b: seq<Shape<N>>)
    requires Separate(a) && Separate(b) && AllNodes(a) !! AllNodes(b)
    ensures Separate(a + b)
  {
    var ks := a + b;
    forall i | 0 <= i < |ks| ensures ks[i] == if i < |a| then a[i] else b[i - |a|] {}
    forall i, j | 0 <= i < j < |ks| ensures ks[i].nodes !! ks[j].nodes {
      if i < |a| <= j {
        InAll(a, i);
        InAll(b, j - |a|);
        Apart(ks[i].nodes, AllNodes(a), ks[j].nodes, AllNodes(b));
      }
    }
  }

  lemma InAll<N>(ks: seq<Shape<N>>, i: nat)
    requires i < |ks|
    ensures ks[i].nodes <= AllNodes(ks)
  {}

  lemma Apart<N>(x: set<N>, a: set<N>, y: set<N>, b: set<N>)
    requires x <= a && y <= b && a !! b
    ensures x !! y
  {}

  /** The nodes of a list and those inside its trees never coincide. */
  lemma TopNodes<N>(ks: seq<Shape<N>>)
    requires Separate(ks)
    ensures forall i :: 0 <= i < |ks| ==> ks[i].node in AllNodes(ks) && ks[i].nodes <= AllNodes(ks)
    ensures forall i, j :: 0 <= i < |ks| && 0 <= j < |ks| && ks[i].node in ks[j].nodes ==> i == j
  {}

  lemma OneMoreKid<N>(ks: seq<Shape<N>>, i: nat)
    requires i < |ks|
    ensures AllNodes(ks[..i + 1]) == AllNodes(ks[..i]) + ks[i].nodes
    ensures Separate(ks) ==> AllNodes(ks[..i]) !! ks[i].nodes
  {
    assert ks[..i + 1] == ks[..i] + [ks[i]];
    AllNodesAppend(ks[..i], [ks[i]]);
    AllNodesOne(ks[i]);
    if Separate(ks) {
      forall j | 0 <= j < i ensures ks[..i][j].nodes !! ks[i].nodes {}
      DisjointFromAll(ks[..i], ks[i].nodes);
    }
  }
}
