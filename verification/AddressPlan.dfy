/**
 The enumeration of address and port blocks that feeds the link pool: one
 address after the other, and on each the port range cut into blocks.
 */
module AddressPlan {
  import opened DivMod

  const TWO_32: int := 0x1_0000_0000
  const TWO_24: int := 0x100_0000

  /** `MLCLParam`; addresses are 32-bit words in network order on a little-endian machine. */
  datatype Param = Param(startAddr: int, startPort: int, endPort: int, portMapCnt: int, ipCount: int, totalLink: int)

  predicate Valid(p: Param) {
    0 <= p.startAddr < TWO_32 && 0 <= p.startPort <= p.endPort < 0x1_0000 && p.portMapCnt > 0
  }

  datatype Link = Link(id: int, addr: int, port: int)

  /** How many blocks fit on one address. */
  function Blocks(p: Param): nat
    requires Valid(p)
  {
    (p.endPort - p.startPort) / p.portMapCnt
  }

  function AddressOf(p: Param, i: nat): int {
    (p.startAddr + i * TWO_24) % TWO_32
  }

  /** Link number `k` of the plan. */
  function LinkAt(p: Param, k: nat): Link
    requires Valid(p) && Blocks(p) > 0
  {
    Link(k, AddressOf(p, k / Blocks(p)), p.startPort + (k % Blocks(p)) * p.portMapCnt)
  }

  function Max(a: int, b: int): int { if a < b then b else a }

  function Min(a: int, b: int): int { if a < b then a else b }

  /** How many links a run makes that nobody stops. */
  function Planned(p: Param): nat
    requires Valid(p)
  {
    Min(Max(p.totalLink, 1), Max(p.ipCount, 0) * Blocks(p))
  }

  lemma LinkIs(p: Param, i: nat, q: nat, k: nat)
    requires Valid(p) && q < Blocks(p) && k == i * Blocks(p) + q
    ensures LinkAt(p, k) == Link(k, AddressOf(p, i), p.startPort + q * p.portMapCnt)
  {
    Remainder(i, q, Blocks(p));
  }

  lemma NextAddress(p: Param, i: nat)
    ensures (AddressOf(p, i) + TWO_24) % TWO_32 == AddressOf(p, i + 1)
  {}

  lemma EndOfBlocks(p: Param)
    requires Valid(p)
    ensures var n := p.endPort - p.startPort; n - n % p.portMapCnt == Blocks(p) * p.portMapCnt
  {}

  /** The links made so far are the beginning of the plan. */
  ghost predicate Good(p: Param, links: seq<Link>, exit: nat -> bool)
    requires Valid(p)
  {
    && (|links| > 0 ==> Blocks(p) > 0)
    && (forall k :: 0 <= k < |links| ==> !exit(k) && links[k] == LinkAt(p, k))
  }

  /** The run is over: the plan is complete, or the exit flag is up. */
  ghost predicate Finished(p: Param, links: seq<Link>, exit: nat -> bool)
    requires Valid(p)
  {
    Good(p, links, exit) && |links| <= Planned(p) && (|links| < Planned(p) ==> exit(|links|))
  }

  /** The run is at block `q` of address `i`. */
  ghost predicate Going(p: Param, links: seq<Link>, exit: nat -> bool, i: nat, q: nat)
    requires Valid(p)
  {
    && Good(p, links, exit) && (i < p.ipCount || q == 0) && i <= Max(p.ipCount, 0) && q <= Blocks(p)
    && |links| == i * Blocks(p) + q && |links| < Max(p.totalLink, 1)
  }

  lemma WithinPlan(p: Param, i: nat, q: nat)
    requires Valid(p) && i < p.ipCount && q < Blocks(p)
    ensures i * Blocks(p) + q < p.ipCount * Blocks(p)
  {
    assert (i + 1) * Blocks(p) == i * Blocks(p) + Blocks(p);
    Grows(i + 1, p.ipCount, Blocks(p));
  }

  lemma Grows(a: nat, b: nat, c: nat)
    requires a <= b
    ensures a * c <= b * c
  {}

  lemma LinkMade(p: Param, links: seq<Link>, exit: nat -> bool, i: nat, q: nat)
    requires Valid(p) && Going(p, links, exit, i, q) && q < Blocks(p) && !exit(|links|) && i < p.ipCount
    ensures var more := links + [Link(|links|, AddressOf(p, i), p.startPort + q * p.portMapCnt)];
            if |more| >= p.totalLink then Finished(p, more, exit) else Going(p, more, exit, i, q + 1)
  {
    hide LinkAt;
    LinkIs(p, i, q, |links|);
    WithinPlan(p, i, q);
  }

  lemma ExitSeen(p: Param, links: seq<Link>, exit: nat -> bool, i: nat, q: nat)
    requires Valid(p) && Going(p, links, exit, i, q) && q < Blocks(p) && exit(|links|) && i < p.ipCount
    ensures Finished(p, links, exit)
  {
    hide LinkAt;
    WithinPlan(p, i, q);
  }

  lemma RowDone(p: Param, links: seq<Link>, exit: nat -> bool, i: nat)
    requires Valid(p) && Going(p, links, exit, i, Blocks(p)) && i < p.ipCount
    ensures Going(p, links, exit, i + 1, 0)
  {
    hide LinkAt;
    assert (i + 1) * Blocks(p) == i * Blocks(p) + Blocks(p);
  }

  lemma PlanDone(p: Param, links: seq<Link>, exit: nat -> bool, i: nat)
    requires Valid(p) && Going(p, links, exit, i, 0) && i >= p.ipCount
    ensures Finished(p, links, exit)
  {
    hide LinkAt;
    assert i == Max(p.ipCount, 0);
  }

  lemma SameSide(q: nat, blocks: nat, offset: nat)
    requires q <= blocks && offset > 0
    ensures q * offset < blocks * offset <==> q < blocks
    ensures (q + 1) * offset == q * offset + offset
  {
    if q < blocks { Grows(q + 1, blocks, offset); }
  }

  lemma NothingMade(p: Param, exit: nat -> bool)
    requires Valid(p)
    ensures Going(p, [], exit, 0, 0) && AddressOf(p, 0) == p.startAddr
  {}

  lemma PlanKept(p: Param, links: seq<Link>, exit: nat -> bool)
    requires Valid(p) && Finished(p, links, exit)
    ensures |links| <= Planned(p) && (|links| < Planned(p) ==> exit(|links|))
    ensures |links| > 0 ==> Blocks(p) > 0
    ensures forall k :: 0 <= k < |links| ==> !exit(k) && links[k] == LinkAt(p, k)
  {}

  /**
   `ml_start_create_link_thread`. `exit(k)` is what the exit flag says when `k`
   links have been made.
   */
  method StartCreateLink(p: Param, exit: nat -> bool) returns (links: seq<Link>)
    requires Valid(p)
    ensures |links| <= Planned(p) && (|links| < Planned(p) ==> exit(|links|))
    ensures |links| > 0 ==> Blocks(p) > 0
    ensures forall k :: 0 <= k < |links| ==> !exit(k) && links[k] == LinkAt(p, k)
  {
    hide Good, Going, Finished, LinkAt, Blocks, Planned, AddressOf, Max;
    links := [];
    var ip, offset := p.startAddr, p.portMapCnt;
    var count := p.endPort - p.startPort;
    var endPort := (count - count % offset) + p.startPort;
    ghost var stopped, blocks := false, Blocks(p);
    EndOfBlocks(p);
    NothingMade(p, exit);
    count := 0;
    var i := 0;
    while i < p.ipCount
      invariant 0 <= i && count == |links| && (stopped ==> i >= p.ipCount && Finished(p, links, exit))
      invariant !stopped ==> Going(p, links, exit, i, 0) && ip == AddressOf(p, if i == 0 then 0 else i - 1)
      decreases p.ipCount - i
    {
      if i != 0 {
        NextAddress(p, i - 1);
        ip := (ip + TWO_24) % TWO_32;
      }
      var j := p.startPort;
      ghost var i0, q := i, 0;
      SameSide(0, blocks, offset);
      while j < endPort
        invariant 0 <= i && count == |links| && i0 < p.ipCount
        invariant stopped ==> i >= p.ipCount && j >= endPort && Finished(p, links, exit)
        invariant !stopped ==> i == i0 && q <= blocks && j == p.startPort + q * offset
        invariant !stopped ==> Going(p, links, exit, i, q) && ip == AddressOf(p, i)
        decreases !stopped, endPort - j
      {
        SameSide(q, blocks, offset);
        if exit(count) {
          ExitSeen(p, links, exit, i, q);
          i := p.ipCount;
          j := endPort;
          stopped := true;
          j := j + offset;
          continue;
        }
        LinkMade(p, links, exit, i, q);
        links := links + [Link(count, ip, j)];
        count := count + 1;
        if count >= p.totalLink {
          i := p.ipCount;
          stopped := true;
          break;
        }
        j := j + offset;
        q := q + 1;
      }
      if !stopped {
        SameSide(q, blocks, offset);
        RowDone(p, links, exit, i);
      }
      i := i + 1;
    }
    if !stopped { PlanDone(p, links, exit, i); }
    PlanKept(p, links, exit);
  }

  // Who shares what with whom ---------------------------------------------------------------

  /** Under 32-bit wrap-around of the top byte, addresses come round after 256 steps and not before. */
  lemma AddressesRound(p: Param, i: nat, j: nat)
    requires i <= j
    ensures AddressOf(p, i) == AddressOf(p, j) <==> (j - i) % 256 == 0
  {
    var x, d := p.startAddr + i * TWO_24, j - i;
    var a, b, q, r := x / TWO_32, x % TWO_32, d / 256, d % 256;
    var y := b + r * TWO_24;
    assert p.startAddr + j * TWO_24 == TWO_32 * (a + q) + y;
    if y < TWO_32 { Remainder(a + q, y, TWO_32); } else { Remainder(a + q + 1, y - TWO_32, TWO_32); }
  }

  /** The port range of a link lies in the range of the plan. */
  lemma PortsInRange(p: Param, k: nat)
    requires Valid(p) && Blocks(p) > 0
    ensures var l := LinkAt(p, k); p.startPort <= l.port && l.port + p.portMapCnt <= p.endPort
  {
    var q := k % Blocks(p);
    EndOfBlocks(p);
    SameSide(q, Blocks(p), p.portMapCnt);
    Grows(q + 1, Blocks(p), p.portMapCnt);
  }

  ghost predicate SharePort(p: Param, a: Link, b: Link) {
    a.port < b.port + p.portMapCnt && b.port < a.port + p.portMapCnt
  }

  /** Two links whose port ranges meet have the same block of ports. */
  lemma BlocksApart(p: Param, k: nat, m: nat)
    requires Valid(p) && Blocks(p) > 0
    ensures SharePort(p, LinkAt(p, k), LinkAt(p, m)) <==> k % Blocks(p) == m % Blocks(p)
    ensures k % Blocks(p) == m % Blocks(p) <==> LinkAt(p, k).port == LinkAt(p, m).port
  {
    var x, y := k % Blocks(p), m % Blocks(p);
    SameSide(x, x, p.portMapCnt);
    SameSide(y, y, p.portMapCnt);
    if x < y { Grows(x + 1, y, p.portMapCnt); }
    if y < x { Grows(y + 1, x, p.portMapCnt); }
  }

  /** No two of the first `n` links share a port of an address. */
  ghost predicate NoneShared(p: Param, n: nat)
    requires Valid(p) && Blocks(p) > 0
  {
    forall k, m {:trigger LinkAt(p, k), LinkAt(p, m)} :: 0 <= k < m < n ==>
      !(LinkAt(p, k).addr == LinkAt(p, m).addr && SharePort(p, LinkAt(p, k), LinkAt(p, m)))
  }

  lemma LinksApart(p: Param, k: nat, m: nat)
    requires Valid(p) && Blocks(p) > 0 && k < m < 256 * Blocks(p)
    ensures !(LinkAt(p, k).addr == LinkAt(p, m).addr && SharePort(p, LinkAt(p, k), LinkAt(p, m)))
  {
    hide AddressOf, SharePort, Blocks;
    var b := Blocks(p);
    BlocksApart(p, k, m);
    DividedBelow(k, m, b);
    var i, j := k / b, m / b;
    AddressesRound(p, i, j);
    SameNumber(k, m, b);
    assert LinkAt(p, k).addr == AddressOf(p, i) && LinkAt(p, m).addr == AddressOf(p, j);
    assert (j - i) % 256 == 0 ==> i == j;
  }

  lemma SameNumber(k: nat, m: nat, b: nat)
    requires b > 0
    ensures k / b == m / b && k % b == m % b ==> k == m
  {
    assert k == b * (k / b) + k % b && m == b * (m / b) + m % b;
  }

  lemma DividedBelow(k: nat, m: nat, b: nat)
    requires b > 0 && k <= m < 256 * b
    ensures k / b <= m / b < 256
  {
    var x, y := k / b, m / b;
    assert k == b * x + k % b && m == b * y + m % b;
    if x > y { Grows(y + 1, x, b); }
    if y >= 256 { Grows(256, y, b); }
  }

  /** All links of a run are at addresses and ports of their own, exactly when it takes at most 256 addresses. */
  lemma DistinctIffWithin256(p: Param, n: nat)
    requires Valid(p) && Blocks(p) > 0
    ensures NoneShared(p, n) <==> n <= 256 * Blocks(p)
  {
    var b := Blocks(p);
    if n <= 256 * b {
      forall k, m | 0 <= k < m < n
        ensures !(LinkAt(p, k).addr == LinkAt(p, m).addr && SharePort(p, LinkAt(p, k), LinkAt(p, m))) {
        LinksApart(p, k, m);
      }
    } else {
      var k, m := 0, 256 * b;
      Remainder(256, 0, b);
      Remainder(0, 0, b);
      BlocksApart(p, k, m);
      AddressesRound(p, 0, 256);
      assert LinkAt(p, k).addr == LinkAt(p, m).addr && SharePort(p, LinkAt(p, k), LinkAt(p, m));
    }
  }
}
