/**
 The intrusive circular lists: a head and its entries linked in one ring. A
 ring is described by the sequence of its nodes, the head first.
 */
module ListHeads {
  import opened Sequences

  /** A poisoned link is null. */
  class ListHead {
    var next: ListHead?
    var prev: ListHead?

    constructor ()
      ensures next == null && prev == null
    {
      next, prev := null, null;
    }
  }

  function After(c: seq<ListHead>, i: nat): ListHead
    requires i < |c|
  {
    if i + 1 < |c| then c[i + 1] else c[0]
  }

  function Ahead(c: seq<ListHead>, i: nat): ListHead
    requires i < |c|
  {
    if i > 0 then c[i - 1] else c[|c| - 1]
  }

  /** One cycle through all of `c`, with `next` and `prev` inverse to each other. */
  ghost predicate Cycle(c: seq<ListHead>)
    reads c
  {
    && c != [] && Distinct(c)
    && (forall i {:trigger c[i].next} :: 0 <= i < |c| ==> c[i].next == After(c, i))
    && (forall i {:trigger c[i].prev} :: 0 <= i < |c| ==> c[i].prev == Ahead(c, i))
  }

  /** The list at `head` has the entries `es`, in order. */
  ghost predicate List(head: ListHead, es: seq<ListHead>)
    reads head, es
  {
    Cycle([head] + es)
  }

  ghost predicate Apart(a: seq<ListHead>, b: seq<ListHead>) {
    forall i, j :: 0 <= i < |a| && 0 <= j < |b| ==> a[i] != b[j]
  }

  lemma LinksAt(c: seq<ListHead>, i: nat)
    requires Cycle(c) && i < |c|
    ensures c[i].next == After(c, i) && c[i].prev == Ahead(c, i)
  {}

  lemma DistinctRing(head: ListHead, es: seq<ListHead>)
    requires Distinct([head] + es)
    ensures head !in es && forall i, j :: 0 <= i < j < |es| ==> es[i] != es[j]
  {
    var c := [head] + es;
    forall i | 0 <= i < |es| ensures es[i] != head && es[i] == c[i + 1] {
      assert c[0] == head && c[i + 1] == es[i];
    }
  }

  /** The links of the head and of one entry. */
  lemma LinksOf(head: ListHead, es: seq<ListHead>, k: nat)
    requires List(head, es) && k <= |es|
    ensures head.next == (if es == [] then head else es[0]) && head.prev == (if es == [] then head else es[|es| - 1])
    ensures head !in es && forall i, j :: 0 <= i < j < |es| ==> es[i] != es[j]
    ensures k < |es| ==>
      && es[k].next == (if k + 1 < |es| then es[k + 1] else head)
      && es[k].prev == (if k > 0 then es[k - 1] else head)
  {
    hide Cycle, Distinct;
    var c := [head] + es;
    LinksAt(c, 0);
    if k < |es| { LinksAt(c, k + 1); }
    AllLinks(c);
    DistinctRing(head, es);
  }

  /** `INIT_LIST_HEAD` */
  method InitListHead(list: ListHead)
    modifies list
    ensures List(list, [])
  {
    list.next := list;
    list.prev := list;
  }

  lemma AllLinks(c: seq<ListHead>)
    requires Cycle(c)
    ensures Distinct(c)
    ensures forall i {:trigger c[i].next} :: 0 <= i < |c| ==> c[i].next == After(c, i)
    ensures forall i {:trigger c[i].prev} :: 0 <= i < |c| ==> c[i].prev == Ahead(c, i)
  {}

  /** The ring with one entry more, read off its links. */
  lemma PutBetween(c: seq<ListHead>, k: nat, entry: ListHead)
    requires Distinct(c) && 1 <= k <= |c| && entry !in c
    requires entry.next == After(c, k - 1) && entry.prev == c[k - 1]
    requires c[k - 1].next == entry && After(c, k - 1).prev == entry
    requires forall i {:trigger c[i].next} :: 0 <= i < |c| && i != k - 1 ==> c[i].next == After(c, i)
    requires forall i {:trigger c[i].prev} :: 0 <= i < |c| && i != (if k < |c| then k else 0) ==>
      c[i].prev == Ahead(c, i)
    ensures Cycle(With(c, k, entry))
  {
    hide Distinct;
    var d := With(c, k, entry);
    DistinctEdits(c, k, entry);
    forall i | 0 <= i < |d| ensures d[i].next == After(d, i) && d[i].prev == Ahead(d, i) {
      if i != k { assert d[i] == c[if i < k then i else i - 1]; }
    }
  }

  /** `__list_add` */
  method AddBetween(entry: ListHead, prev: ListHead, next: ListHead, ghost c: seq<ListHead>, ghost k: nat)
    requires Cycle(c) && 1 <= k <= |c| && prev == c[k - 1] && next == After(c, k - 1) && entry !in c
    modifies c, entry
    ensures Cycle(With(c, k, entry))
  {
    hide Cycle, Ahead, With;
    AllLinks(c);
    next.prev := entry;
    entry.next := next;
    entry.prev := prev;
    prev.next := entry;
    PutBetween(c, k, entry);
  }

  /** The ring with one entry less, read off its links. */
  lemma Bypassed(c: seq<ListHead>, k: nat)
    requires Distinct(c) && 1 <= k < |c|
    requires c[k - 1].next == After(c, k) && After(c, k).prev == c[k - 1]
    requires forall i {:trigger c[i].next} :: 0 <= i < |c| && i != k - 1 && i != k ==> c[i].next == After(c, i)
    requires forall i {:trigger c[i].prev} :: 0 <= i < |c| && i != (if k + 1 < |c| then k + 1 else 0) && i != k ==>
      c[i].prev == Ahead(c, i)
    ensures Cycle(Without(c, k))
  {
    hide Distinct;
    var d := Without(c, k);
    DistinctEdits(c, k, c[k]);
    forall i | 0 <= i < |d| ensures d[i].next == After(d, i) && d[i].prev == Ahead(d, i) {
      assert d[i] == c[if i < k then i else i + 1];
    }
  }

  /** `__list_del` */
  method Unlink(prev: ListHead, next: ListHead, ghost c: seq<ListHead>, ghost k: nat)
    requires Cycle(c) && 1 <= k < |c| && prev == c[k - 1] && next == After(c, k)
    modifies prev`next, next`prev
    ensures Cycle(Without(c, k))
  {
    hide Cycle, Ahead, Without;
    AllLinks(c);
    next.prev := prev;
    prev.next := next;
    Bypassed(c, k);
  }

  /** `list_add` */
  method ListAdd(entry: ListHead, head: ListHead, ghost es: seq<ListHead>)
    requires List(head, es) && entry != head && entry !in es
    modifies head, es, entry
    ensures List(head, [entry] + es)
  {
    ghost var c := [head] + es;
    LinksOf(head, es, 0);
    AddBetween(entry, head, head.next, c, 1);
    assert With(c, 1, entry) == [head] + ([entry] + es);
  }

  /** `list_add_tail` */
  method ListAddTail(entry: ListHead, head: ListHead, ghost es: seq<ListHead>)
    requires List(head, es) && entry != head && entry !in es
    modifies head, es, entry
    ensures List(head, es + [entry])
  {
    ghost var c := [head] + es;
    LinksOf(head, es, 0);
    AddBetween(entry, head.prev, head, c, |c|);
    assert With(c, |c|, entry) == [head] + (es + [entry]);
  }

  /** `list_del` */
  method ListDel(entry: ListHead, ghost head: ListHead, ghost es: seq<ListHead>, ghost k: nat)
    requires List(head, es) && k < |es| && entry == es[k]
    modifies head, es
    ensures List(head, Without(es, k)) && entry.next == null && entry.prev == null
  {
    ghost var c := [head] + es;
    LinksOf(head, es, k);
    assert c[k + 1] == entry;
    Unlink(entry.prev, entry.next, c, k + 1);
    assert Without(c, k + 1) == [head] + Without(es, k);
    entry.next := null;
    entry.prev := null;
  }

  /** `list_del_init` */
  method ListDelInit(entry: ListHead, ghost head: ListHead, ghost es: seq<ListHead>, ghost k: nat)
    requires List(head, es) && k < |es| && entry == es[k]
    modifies head, es
    ensures List(head, Without(es, k)) && List(entry, [])
  {
    ghost var c := [head] + es;
    LinksOf(head, es, k);
    assert c[k + 1] == entry;
    Unlink(entry.prev, entry.next, c, k + 1);
    assert Without(c, k + 1) == [head] + Without(es, k);
    InitListHead(entry);
  }

  /** `list_replace`, of an entry or of the head of a ring. */
  method ListReplace(oldEntry: ListHead, entry: ListHead, ghost c: seq<ListHead>, ghost k: nat)
    requires Cycle(c) && k < |c| && oldEntry == c[k] && entry !in c
    modifies c, entry
    ensures Cycle(c[k := entry])
  {
    ghost var d := c[k := entry];
    entry.next := oldEntry.next;
    entry.next.prev := entry;
    entry.prev := oldEntry.prev;
    entry.prev.next := entry;
    forall i | 0 <= i < |d| ensures d[i].next == After(d, i) && d[i].prev == Ahead(d, i) {
      assert i != k ==> d[i] == c[i];
    }
  }

  /** `list_replace_init` */
  method ListReplaceInit(oldEntry: ListHead, entry: ListHead, ghost c: seq<ListHead>, ghost k: nat)
    requires Cycle(c) && k < |c| && oldEntry == c[k] && entry !in c
    modifies c, entry
    ensures Cycle(c[k := entry]) && List(oldEntry, [])
  {
    ListReplace(oldEntry, entry, c, k);
    assert oldEntry !in c[k := entry];
    InitListHead(oldEntry);
  }

  /** `list_move` inside one list. */
  method ListMove(entry: ListHead, head: ListHead, ghost es: seq<ListHead>, ghost k: nat)
    requires List(head, es) && k < |es| && entry == es[k]
    modifies head, es
    ensures List(head, [entry] + Without(es, k))
  {
    ghost var c := [head] + es;
    LinksOf(head, es, k);
    assert c[k + 1] == entry;
    Unlink(entry.prev, entry.next, c, k + 1);
    assert Without(c, k + 1) == [head] + Without(es, k);
    DistinctEdits(es, k, es[k]);
    ListAdd(entry, head, Without(es, k));
  }

  /** `list_move_tail` inside one list. */
  method ListMoveTail(entry: ListHead, head: ListHead, ghost es: seq<ListHead>, ghost k: nat)
    requires List(head, es) && k < |es| && entry == es[k]
    modifies head, es
    ensures List(head, Without(es, k) + [entry])
  {
    ghost var c := [head] + es;
    LinksOf(head, es, k);
    assert c[k + 1] == entry;
    Unlink(entry.prev, entry.next, c, k + 1);
    assert Without(c, k + 1) == [head] + Without(es, k);
    DistinctEdits(es, k, es[k]);
    ListAddTail(entry, head, Without(es, k));
  }

  lemma ListsApart(head: ListHead, es: seq<ListHead>, from: ListHead, fs: seq<ListHead>)
    requires Apart([head] + es, [from] + fs)
    ensures head != from && head !in fs && from !in es
    ensures forall n :: n in es ==> n !in fs
    ensures forall k :: 0 <= k < |fs| ==> fs[k] != head && fs[k] !in es
  {
    var a, b := [head] + es, [from] + fs;
    assert a[0] == head && b[0] == from;
    assert forall i :: 0 <= i < |es| ==> a[i + 1] == es[i];
    assert forall i :: 0 <= i < |fs| ==> b[i + 1] == fs[i];
  }

  /** What an insertion of `entry` into the list at `head` does not write to. */
  ghost predicate Untouched(head: ListHead, es: seq<ListHead>, entry: ListHead, from: ListHead, gs: seq<ListHead>) {
    && from != head && from != entry && (forall j :: 0 <= j < |es| ==> es[j] != from)
    && (forall i :: 0 <= i < |gs| ==> gs[i] != entry && gs[i] != head)
    && (forall i, j :: 0 <= i < |gs| && 0 <= j < |es| ==> gs[i] != es[j])
  }

  /** `__list_del` on an entry leaves every other ring as it is. */
  method Detach(entry: ListHead, ghost from: ListHead, ghost fs: seq<ListHead>, ghost k: nat,
                ghost head: ListHead, ghost es: seq<ListHead>)
    requires List(head, es) && List(from, fs) && Apart([head] + es, [from] + fs) && k < |fs| && entry == fs[k]
    modifies from, fs
    ensures List(head, es) && List(from, Without(fs, k)) && from != entry
    ensures Untouched(head, es, entry, from, Without(fs, k))
  {
    ghost var c := [from] + fs;
    LinksOf(from, fs, k);
    ListsApart(head, es, from, fs);
    assert c[k + 1] == entry;
    Unlink(entry.prev, entry.next, c, k + 1);
    assert Without(c, k + 1) == [from] + Without(fs, k);
    DistinctEdits(fs, k, fs[k]);
  }

  /** `list_move` from one list to another. */
  method ListMoveAcross(entry: ListHead, head: ListHead, ghost es: seq<ListHead>,
                        ghost from: ListHead, ghost fs: seq<ListHead>, ghost k: nat)
    requires List(head, es) && List(from, fs) && Apart([head] + es, [from] + fs) && k < |fs| && entry == fs[k]
    modifies head, es, from, fs
    ensures List(head, [entry] + es) && List(from, Without(fs, k))
  {
    hide List, Cycle;
    ListsApart(head, es, from, fs);
    Detach(entry, from, fs, k, head, es);
    ListAdd(entry, head, es);
  }

  /** `list_move_tail` from one list to another. */
  method ListMoveTailAcross(entry: ListHead, head: ListHead, ghost es: seq<ListHead>,
                            ghost from: ListHead, ghost fs: seq<ListHead>, ghost k: nat)
    requires List(head, es) && List(from, fs) && Apart([head] + es, [from] + fs) && k < |fs| && entry == fs[k]
    modifies head, es, from, fs
    ensures List(head, es + [entry]) && List(from, Without(fs, k))
  {
    hide List, Cycle;
    ListsApart(head, es, from, fs);
    Detach(entry, from, fs, k, head, es);
    ListAddTail(entry, head, es);
  }

  /** `list_empty` */
  method ListEmpty(head: ListHead, ghost es: seq<ListHead>) returns (empty: bool)
    requires List(head, es)
    ensures empty <==> es == []
  {
    empty := head.next == head;
    assert ([head] + es)[0].next == After([head] + es, 0);
    assert es != [] ==> ([head] + es)[1] == es[0];
  }

  /** `list_is_singular` */
  method ListIsSingular(head: ListHead, ghost es: seq<ListHead>) returns (singular: bool)
    requires List(head, es)
    ensures singular <==> |es| == 1
  {
    ghost var c := [head] + es;
    assert c[0].next == After(c, 0) && c[0].prev == Ahead(c, 0);
    var empty := ListEmpty(head, es);
    singular := !empty && head.next == head.prev;
  }

  /** `list_is_last` */
  method ListIsLast(list: ListHead, head: ListHead, ghost es: seq<ListHead>, ghost k: nat) returns (last: bool)
    requires List(head, es) && k < |es| && list == es[k]
    ensures last <==> k == |es| - 1
  {
    LinksOf(head, es, k);
    last := list.next == head;
  }

  /** `list_rotate_left` */
  method ListRotateLeft(head: ListHead, ghost es: seq<ListHead>)
    requires List(head, es)
    modifies head, es
    ensures List(head, if es == [] then [] else es[1..] + [es[0]])
  {
    var empty := ListEmpty(head, es);
    if !empty {
      ghost var c := [head] + es;
      assert c[0].next == After(c, 0);
      var first := head.next;
      ListMoveTail(first, head, es, 0);
      assert Without(es, 0) == es[1..];
    }
  }

  /** The two rings, read off the links after the cut. */
  lemma CutApart(list: ListHead, head: ListHead, es: seq<ListHead>, k: nat)
    requires k < |es| && Distinct([head] + es) && list != head && list !in es
    requires list.next == es[0] && list.prev == es[k] && es[k].next == list && es[0].prev == list
    requires head.next == (if k + 1 < |es| then es[k + 1] else head)
    requires head.prev == (if k + 1 < |es| then es[|es| - 1] else head)
    requires k + 1 < |es| ==> es[k + 1].prev == head
    requires forall i {:trigger es[i].next} :: 0 <= i < |es| && i != k ==>
      es[i].next == (if i + 1 < |es| then es[i + 1] else head)
    requires forall i {:trigger es[i].prev} :: 0 < i < |es| && i != k + 1 ==> es[i].prev == es[i - 1]
    ensures List(list, es[..k + 1]) && List(head, es[k + 1..])
  {
    var a, b := [list] + es[..k + 1], [head] + es[k + 1..];
    forall i, j | 0 <= i < j < |es| ensures es[i] != es[j] && es[i] != head && es[j] != head {
      assert ([head] + es)[i + 1] == es[i] && ([head] + es)[j + 1] == es[j] && ([head] + es)[0] == head;
    }
    assert es[0] == ([head] + es)[1];
    assert Distinct(a) && Distinct(b);
    forall i | 0 <= i < |a| ensures a[i].next == After(a, i) && a[i].prev == Ahead(a, i) {
      assert i > 0 ==> a[i] == es[i - 1];
    }
    forall i | 0 <= i < |b| ensures b[i].next == After(b, i) && b[i].prev == Ahead(b, i) {
      assert i > 0 ==> b[i] == es[i + k];
    }
  }

  /** `__list_cut_position` */
  method Cut(list: ListHead, head: ListHead, entry: ListHead, ghost es: seq<ListHead>, ghost k: nat)
    requires List(head, es) && k < |es| && entry == es[k] && list != head && list !in es
    modifies list, head, es
    ensures List(list, es[..k + 1]) && List(head, es[k + 1..])
  {
    hide List, Cycle;
    RingLinks(head, es);
    ghost var second := if k + 1 < |es| then es[k + 1] else head;
    assert entry.next == second && head.next == es[0] && es[0] != list;
    var newFirst := entry.next;
    list.next := head.next;
    list.next.prev := list;
    list.prev := entry;
    entry.next := list;
    head.next := newFirst;
    newFirst.prev := head;
    forall i | 0 <= i < |es| && i != k ensures es[i].next == if i + 1 < |es| then es[i + 1] else head {
      assert es[i] != entry && es[i] != head && es[i] != list;
      assert es[i].next == old(es[i].next);
    }
    forall i | 0 < i < |es| && i != k + 1 ensures es[i].prev == es[i - 1] {
      assert es[i] != es[0] && es[i] != second && es[i] != list;
      assert es[i].prev == old(es[i].prev);
    }
    CutApart(list, head, es, k);
  }

  /** All links of a list. */
  lemma RingLinks(head: ListHead, es: seq<ListHead>)
    requires List(head, es) && es != []
    ensures head.next == es[0] && head.prev == es[|es| - 1] && head !in es && Distinct([head] + es)
    ensures forall i, j :: 0 <= i < j < |es| ==> es[i] != es[j]
    ensures forall i {:trigger es[i].next} :: 0 <= i < |es| ==> es[i].next == if i + 1 < |es| then es[i + 1] else head
    ensures forall i {:trigger es[i].prev} :: 0 <= i < |es| ==> es[i].prev == if i > 0 then es[i - 1] else head
  {
    LinksOf(head, es, 0);
    forall i | 0 <= i < |es|
      ensures es[i].next == (if i + 1 < |es| then es[i + 1] else head)
      ensures es[i].prev == if i > 0 then es[i - 1] else head
    {
      LinksOf(head, es, i);
    }
  }

  /** `list_cut_position`; `k` is where the entry stands in the ring, the head being at zero. */
  method ListCutPosition(list: ListHead, head: ListHead, entry: ListHead, ghost es: seq<ListHead>, ghost k: nat)
    requires List(head, es) && k <= |es| && entry == ([head] + es)[k] && list != head && list !in es
    modifies list, head, es
    ensures List(head, es[k..])
    ensures if es == [] then list.next == old(list.next) && list.prev == old(list.prev) else List(list, es[..k])
  {
    assert [head] + es[0..] == [head] + es;
    var empty := ListEmpty(head, es);
    if empty { return; }
    var singular := ListIsSingular(head, es);
    LinksOf(head, es, 0);
    if singular && head.next != entry && head != entry { assert false; }
    if entry == head {
      InitListHead(list);
      assert k == 0;
    } else {
      Cut(list, head, entry, es, k - 1);
    }
  }

  /** The joined ring, read off the links after the splice. */
  lemma Joined(ls: seq<ListHead>, c: seq<ListHead>, k: nat)
    requires ls != [] && Distinct(ls) && Distinct(c) && Apart(ls, c) && 1 <= k <= |c|
    requires ls[0].prev == c[k - 1] && c[k - 1].next == ls[0]
    requires ls[|ls| - 1].next == After(c, k - 1) && After(c, k - 1).prev == ls[|ls| - 1]
    requires forall i {:trigger ls[i].next} :: 0 <= i < |ls| - 1 ==> ls[i].next == ls[i + 1]
    requires forall i {:trigger ls[i].prev} :: 0 < i < |ls| ==> ls[i].prev == ls[i - 1]
    requires forall i {:trigger c[i].next} :: 0 <= i < |c| && i != k - 1 ==> c[i].next == After(c, i)
    requires forall i {:trigger c[i].prev} :: 0 <= i < |c| && i != k % |c| ==> c[i].prev == Ahead(c, i)
    ensures Cycle(c[..k] + ls + c[k..])
  {
    var d := c[..k] + ls + c[k..];
    assert k == |c| ==> k % |c| == 0;
    forall i | 0 <= i < |d| ensures d[i].next == After(d, i) && d[i].prev == Ahead(d, i) {
      if k <= i < k + |ls| { assert d[i] == ls[i - k]; }
      else { assert d[i] == c[if i < k then i else i - |ls|]; }
    }
  }

  lemma EntriesApart(list: ListHead, ls: seq<ListHead>, c: seq<ListHead>)
    requires Apart([list] + ls, c)
    ensures Apart(ls, c)
  {
    assert forall i :: 0 <= i < |ls| ==> ls[i] == ([list] + ls)[i + 1];
  }

  /** `__list_splice` */
  method Splice(list: ListHead, prev: ListHead, next: ListHead, ghost ls: seq<ListHead>, ghost c: seq<ListHead>,
                ghost k: nat)
    requires List(list, ls) && ls != [] && Cycle(c) && Apart([list] + ls, c)
    requires 1 <= k <= |c| && prev == c[k - 1] && next == After(c, k - 1)
    modifies ls, c
    ensures Cycle(c[..k] + ls + c[k..])
  {
    hide List, Cycle, Ahead;
    AllLinks(c);
    RingLinks(list, ls);
    EntriesApart(list, ls, c);
    var first, last := list.next, list.prev;
    first.prev := prev;
    prev.next := first;
    last.next := next;
    next.prev := last;
    Joined(ls, c, k);
  }

  lemma SplicedIn(head: ListHead, es: seq<ListHead>, ls: seq<ListHead>)
    ensures var c := [head] + es;
            && c[..1] + ls + c[1..] == [head] + (ls + es)
            && c[..|c|] + ls + c[|c|..] == [head] + (es + ls)
  {}

  lemma Ends(head: ListHead, es: seq<ListHead>)
    requires List(head, es)
    ensures var c := [head] + es;
            head.next == After(c, 0) && head.prev == c[|c| - 1] && head == After(c, |c| - 1) && head == c[0]
  {
    LinksAt([head] + es, 0);
  }

  /** `list_splice` and, with `init`, `list_splice_init`: the entries go to the front. */
  method ListSplice(list: ListHead, head: ListHead, init: bool, ghost ls: seq<ListHead>, ghost es: seq<ListHead>)
    requires List(list, ls) && List(head, es) && Apart([list] + ls, [head] + es)
    modifies list, ls, head, es
    ensures List(head, ls + es) && (init ==> List(list, []))
  {
    hide Cycle, After, Apart;
    ghost var c := [head] + es;
    LinksOf(head, es, 0);
    LinksOf(list, ls, 0);
    ListsApart(list, ls, head, es);
    Ends(head, es);
    assert ls == [] ==> ls + es == es;
    var empty := ListEmpty(list, ls);
    if !empty {
      Splice(list, head, head.next, ls, c, 1);
      SplicedIn(head, es, ls);
      if init { InitSource(list, head, ls + es); }
    }
  }

  /** `list_splice_tail` and `list_splice_tail_init`: the entries go to the end. */
  method ListSpliceTail(list: ListHead, head: ListHead, init: bool, ghost ls: seq<ListHead>, ghost es: seq<ListHead>)
    requires List(list, ls) && List(head, es) && Apart([list] + ls, [head] + es)
    modifies list, ls, head, es
    ensures List(head, es + ls) && (init ==> List(list, []))
  {
    hide Cycle, After, Apart;
    ghost var c := [head] + es;
    LinksOf(head, es, 0);
    LinksOf(list, ls, 0);
    ListsApart(list, ls, head, es);
    Ends(head, es);
    assert ls == [] ==> es + ls == es;
    var empty := ListEmpty(list, ls);
    if !empty {
      Splice(list, head.prev, head, ls, c, |c|);
      SplicedIn(head, es, ls);
      if init { InitSource(list, head, es + ls); }
    }
  }

  /** `INIT_LIST_HEAD` on a head whose entries have left it. */
  method InitSource(list: ListHead, ghost head: ListHead, ghost es: seq<ListHead>)
    requires List(head, es) && list != head && list !in es
    modifies list
    ensures List(list, []) && List(head, es)
  {
    InitListHead(list);
  }

  /** A cut that is spliced back restores the list. */
  method CutAndRestore(list: ListHead, head: ListHead, entry: ListHead, ghost es: seq<ListHead>, ghost k: nat)
    requires List(head, es) && List(list, []) && k <= |es| && entry == ([head] + es)[k] && list != head && list !in es
    modifies list, head, es
    ensures List(head, es) && List(list, [])
  {
    ListCutPosition(list, head, entry, es, k);
    assert es[..k] + es[k..] == es;
    PartsApart(list, head, es, k);
    ListSplice(list, head, true, es[..k], es[k..]);
  }

  lemma PartsApart(list: ListHead, head: ListHead, es: seq<ListHead>, k: nat)
    requires k <= |es| && Distinct([head] + es) && list != head && list !in es
    ensures Apart([list] + es[..k], [head] + es[k..])
  {
    var c, a, b := [head] + es, [list] + es[..k], [head] + es[k..];
    forall i, j | 0 <= i < |a| && 0 <= j < |b| ensures a[i] != b[j] {
      assert b[j] == c[if j == 0 then 0 else k + j];
      if i > 0 { assert a[i] == c[i]; }
    }
  }
}
