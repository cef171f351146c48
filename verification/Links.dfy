/** Doubly linked chains of nodes, as far as their `next` and `prev` fields go. */
module Links {
  import opened CJsonNode
  import opened Sequences

  function NodeAt(p: seq<Node>, i: int): Node? {
    if 0 <= i < |p| then p[i] else null
  }

  ghost predicate Linked(p: seq<Node>)
    reads p`next, p`prev
  {
    && Distinct(p)
    && (forall i {:trigger p[i].next} :: 0 <= i < |p| ==> p[i].next == NodeAt(p, i + 1))
    && (forall i {:trigger p[i].prev} :: 0 <= i < |p| ==> p[i].prev == NodeAt(p, i - 1))
  }

  /** The chain read off its nodes after the node at `k` was bypassed. */
  lemma Bypassed(p: seq<Node>, k: nat)
    requires Distinct(p) && k < |p|
    requires forall j {:trigger p[j].next} :: 0 <= j < |p| && j != k ==>
      p[j].next == NodeAt(p, if j == k - 1 then k + 1 else j + 1)
    requires forall j {:trigger p[j].prev} :: 0 <= j < |p| && j != k ==>
      p[j].prev == NodeAt(p, if j == k + 1 then k - 1 else j - 1)
    ensures Linked(Without(p, k))
  {
    var q := Without(p, k);
    DistinctEdits(p, k, p[k]);
    hide Distinct;
    forall i | 0 <= i < |q| ensures q[i].next == NodeAt(q, i + 1) && q[i].prev == NodeAt(q, i - 1) {
      assert q[i] == p[if i < k then i else i + 1];
    }
  }

  /** And after `n` was put in front of it. */
  lemma PutIn(p: seq<Node>, k: nat, n: Node)
    requires Distinct(p) && k <= |p| && n !in p
    requires n.next == NodeAt(p, k) && n.prev == NodeAt(p, k - 1)
    requires forall j {:trigger p[j].next} :: 0 <= j < |p| ==> p[j].next == if j == k - 1 then n else NodeAt(p, j + 1)
    requires forall j {:trigger p[j].prev} :: 0 <= j < |p| ==> p[j].prev == if j == k then n else NodeAt(p, j - 1)
    ensures Linked(With(p, k, n))
  {
    var q := With(p, k, n);
    DistinctEdits(p, k, n);
    hide Distinct;
    forall i | 0 <= i < |q| ensures q[i].next == NodeAt(q, i + 1) && q[i].prev == NodeAt(q, i - 1) {
      if i != k { assert q[i] == p[if i < k then i else i - 1]; }
    }
  }

  /** And after `n` took the place of the node at `k`. */
  lemma Substituted(p: seq<Node>, k: nat, n: Node)
    requires Distinct(p) && k < |p| && n !in p
    requires n.next == NodeAt(p, k + 1) && n.prev == NodeAt(p, k - 1)
    requires forall j {:trigger p[j].next} :: 0 <= j < |p| && j != k ==>
      p[j].next == if j == k - 1 then n else NodeAt(p, j + 1)
    requires forall j {:trigger p[j].prev} :: 0 <= j < |p| && j != k ==>
      p[j].prev == if j == k + 1 then n else NodeAt(p, j - 1)
    ensures Linked(p[k := n])
  {
    var q := p[k := n];
    assert Distinct(q);
    hide Distinct;
    forall i | 0 <= i < |q| ensures q[i].next == NodeAt(q, i + 1) && q[i].prev == NodeAt(q, i - 1) {
      if i != k { assert q[i] == p[i]; }
    }
  }

  /** A walk from `owner.child` along `next` meets `p`. */
  ghost predicate Chain(owner: Node, p: seq<Node>)
    reads owner`child, p`next
  {
    && owner.child == NodeAt(p, 0)
    && (forall i {:trigger p[i].next} :: 0 <= i < |p| ==> p[i].next == NodeAt(p, i + 1))
  }

  /** Such a walk meets one list of nodes only. */
  lemma ChainUnique(owner: Node, p: seq<Node>, q: seq<Node>)
    requires Chain(owner, p) && Chain(owner, q)
    ensures p == q
  {
    var i := 0;
    while i < |p|
      invariant i <= |p| && i <= |q| && p[..i] == q[..i] && NodeAt(p, i) == NodeAt(q, i)
    {
      assert p[i].next == q[i].next;
      i := i + 1;
    }
    assert p[..|p|] == p && q[..|p|] == q;
  }

  /** A list under its owner. */
  ghost predicate Heads(owner: Node, p: seq<Node>)
    reads owner`child, p`next, p`prev
  {
    Linked(p) && owner !in p && owner.child == NodeAt(p, 0)
  }

  method Unlink(owner: Node, c: Node, ghost p: seq<Node>, ghost k: nat)
    requires Heads(owner, p) && k < |p| && p[k] == c
    modifies owner`child, p`next, p`prev
    ensures Heads(owner, Without(p, k)) && c.next == null && c.prev == null
  {
    if c.prev != null { c.prev.next := c.next; }
    if c.next != null { c.next.prev := c.prev; }
    if c == owner.child { owner.child := c.next; }
    c.prev, c.next := null, null;
    Bypassed(p, k);
  }

  method LinkBefore(owner: Node, newitem: Node, c: Node, ghost p: seq<Node>, ghost k: nat)
    requires Heads(owner, p) && k < |p| && p[k] == c && newitem !in p && newitem != owner
    modifies owner`child, p`next, p`prev, newitem`next, newitem`prev
    ensures Heads(owner, With(p, k, newitem))
  {
    newitem.next := c;
    newitem.prev := c.prev;
    c.prev := newitem;
    if c == owner.child { owner.child := newitem; } else { newitem.prev.next := newitem; }
    PutIn(p, k, newitem);
  }

  function LastOf(p: seq<Node>): set<Node> {
    if p == [] then {} else {p[|p| - 1]}
  }

  method LinkLast(owner: Node, item: Node, ghost p: seq<Node>)
    requires Heads(owner, p) && item !in p && item != owner && item.next == null && item.prev == null
    modifies owner`child, LastOf(p)`next, item`prev
    ensures Heads(owner, With(p, |p|, item))
  {
    var c := owner.child;
    if c == null {
      owner.child := item;
    } else {
      ghost var i := 0;
      while c.next != null
        invariant i < |p| && c == p[i]
        decreases |p| - i
      {
        c := c.next;
        i := i + 1;
      }
      SuffixObject(c, item);
    }
    PutIn(p, |p|, item);
  }

  /** `suffix_object` */
  method SuffixObject(prev: Node, item: Node)
    modifies prev`next, item`prev
    ensures prev.next == item && item.prev == prev
  {
    prev.next := item;
    item.prev := prev;
  }

  /** Behind the last node of a chain, or as the first of an empty one. */
  method LinkAfter(owner: Node, last: Node?, item: Node, ghost p: seq<Node>)
    requires Heads(owner, p) && last == NodeAt(p, |p| - 1)
    requires item !in p && item != owner && item.next == null && item.prev == null
    modifies owner`child, p`next, item`prev
    ensures Heads(owner, p + [item])
  {
    if last != null { SuffixObject(last, item); } else { owner.child := item; }
    PutIn(p, |p|, item);
    assert With(p, |p|, item) == p + [item];
  }

  method LinkInstead(owner: Node, newitem: Node, c: Node, ghost p: seq<Node>, ghost k: nat)
    requires Heads(owner, p) && k < |p| && p[k] == c && newitem !in p && newitem != owner
    modifies owner`child, p`next, p`prev, newitem`next, newitem`prev
    ensures Heads(owner, p[k := newitem]) && c.next == null && c.prev == null
  {
    newitem.next := c.next;
    newitem.prev := c.prev;
    if newitem.next != null { newitem.next.prev := newitem; }
    if c == owner.child { owner.child := newitem; } else { newitem.prev.next := newitem; }
    c.next, c.prev := null, null;
    Substituted(p, k, newitem);
  }
}
