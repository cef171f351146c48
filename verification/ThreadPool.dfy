/**
 The two-stage worker pool: producers append to a group list, one master moves
 nodes to the lists of the members, and each member runs its own nodes. Every
 section under a mutex is one atomic step. A thread waits only on an empty
 list, and its wait ends by time-out, by the broadcast that follows an add, or
 for no reason, as POSIX allows.
 */
module ThreadPool {
  import opened DivMod

  /** Where a consumer thread stands between its atomic steps. */
  datatype Phase<+T> =
    | Ready               // about to look at its list
    | Waiting             // in the timed wait
    | Signalled           // a broadcast has ended the wait
    | Busy(node: T)       // has taken a node and not yet handed it on
    | Stopped             // has left its loop

  /** `MLThreadMember`, with the nodes it has executed so far and the wake-ups that found none. */
  datatype Member<+T> = Member(list: seq<T>, count: int, phase: Phase<T>, executed: seq<T>, idle: nat)

  /** `MLThreadGroup`, with the nodes that came in and the ones that were handed out. */
  datatype State<+T> = State(group: seq<T>, master: Phase<T>, cursor: nat, members: seq<Member<T>>,
                             added: seq<T>, dispatched: seq<T>)

  datatype Step<+T> =
    | Add(node: T)
    | MasterLook | MasterWake | MasterTimeout | Dispatch | MasterExit
    | MemberLook(j: nat) | MemberWake(j: nat) | MemberTimeout(j: nat) | Execute(j: nat) | MemberExit(j: nat)

  function Start<T>(n: nat): State<T> {
    State([], Ready, 0, seq(n, _ => Member([], 0, Ready, [], 0)), [], [])
  }

  function Signal<T>(p: Phase<T>): Phase<T> {
    if p.Waiting? then Signalled else p
  }

  /** The node a thread holds between taking it and handing it on. */
  function Held<T>(p: Phase<T>): seq<T> {
    if p.Busy? then [p.node] else []
  }

  /** The cursor after a node went to the member at `c`. */
  function NextCursor(c: nat, n: nat): nat {
    if n == 1 then 0 else if c + 1 == n then 1 else c + 1
  }

  /** One thread moves on. A step of a thread that is elsewhere changes nothing. */
  function Apply<T>(s: State<T>, step: Step<T>): State<T> {
    match step
    case Add(node) => s.(group := s.group + [node], master := Signal(s.master), added := s.added + [node])
    case MasterLook =>
      if !s.master.Ready? then s
      else if s.group == [] then s.(master := Waiting)
      else s.(group := s.group[1..], master := Busy(s.group[0]))
    case MasterWake =>
      if !s.master.Waiting? && !s.master.Signalled? then s
      else if s.group == [] then s.(master := Stopped)
      else s.(group := s.group[1..], master := Busy(s.group[0]))
    case MasterTimeout => if s.master.Waiting? || s.master.Signalled? then s.(master := Ready) else s
    case MasterExit => if s.master.Ready? then s.(master := Stopped) else s
    case Dispatch =>
      if s.master.Busy? && s.cursor < |s.members| then
        var node, c := s.master.node, s.cursor;
        s.(master := Ready, dispatched := s.dispatched + [node], cursor := NextCursor(c, |s.members|),
           members := s.members[c := Received(s.members[c], node)])
      else s
    case _ =>
      if step.j < |s.members| then s.(members := s.members[step.j := MemberStep(s.members[step.j], step)]) else s
  }

  /** `ml_add_thread_member_node` */
  function Received<T>(m: Member<T>, node: T): Member<T> {
    m.(list := m.list + [node], count := m.count + 1, phase := Signal(m.phase))
  }

  function Taken<T>(m: Member<T>): Member<T>
    requires m.list != []
  {
    m.(list := m.list[1..], count := m.count - 1, phase := Busy(m.list[0]))
  }

  function MemberStep<T>(m: Member<T>, step: Step<T>): Member<T> {
    match step
    case MemberLook(_) =>
      if !m.phase.Ready? then m else if m.list == [] then m.(phase := Waiting) else Taken(m)
    case MemberWake(_) =>
      if !m.phase.Waiting? && !m.phase.Signalled? then m
      else if m.list == [] then m.(phase := Ready, count := m.count - 1, idle := m.idle + 1)
      else Taken(m)
    case MemberTimeout(_) => if m.phase.Waiting? || m.phase.Signalled? then m.(phase := Ready) else m
    case Execute(_) => if m.phase.Busy? then m.(phase := Ready, executed := m.executed + [m.phase.node]) else m
    case MemberExit(_) => if m.phase.Ready? then m.(phase := Stopped) else m
    case _ => m
  }

  function Run<T>(s: State<T>, steps: seq<Step<T>>): State<T>
    decreases |steps|
  {
    if steps == [] then s else Apply(Run(s, steps[..|steps| - 1]), steps[|steps| - 1])
  }

  // Where the nodes go -----------------------------------------------------------------

  /** The member that gets the `k`-th node: the first one once, then the others in turn. */
  function Dest(k: nat, n: nat): nat
    requires n >= 1
  {
    if n == 1 || k == 0 then 0 else 1 + (k - 1) % (n - 1)
  }

  lemma NextDest(k: nat, n: nat)
    requires n >= 1
    ensures Dest(k, n) < n && NextCursor(Dest(k, n), n) == Dest(k + 1, n)
  {
    if n >= 2 {
      if k == 0 {
        Remainder(0, 0, n - 1);
      } else {
        NextModulo(k - 1, n - 1);
      }
    }
  }

  /** The nodes of `s`, counted by arrival, that go to member `j`. */
  function Share<T>(s: seq<T>, j: nat, n: nat): seq<T>
    requires n >= 1
    decreases |s|
  {
    if s == [] then []
    else
      var k := |s| - 1;
      Share(s[..k], j, n) + (if Dest(k, n) == j then [s[k]] else [])
  }

  lemma ShareMore<T>(s: seq<T>, x: T, j: nat, n: nat)
    requires n >= 1
    ensures Share(s + [x], j, n) == Share(s, j, n) + (if Dest(|s|, n) == j then [x] else [])
  {
    assert (s + [x])[..|s|] == s;
  }

  // What every run keeps ----------------------------------------------------------------

  ghost predicate MemberOk<T>(m: Member<T>, share: seq<T>) {
    && share == m.executed + Held(m.phase) + m.list
    && m.count == |m.list| - m.idle
    && (m.phase.Waiting? ==> m.list == [])
    && (m.phase.Signalled? ==> m.list != [])
  }

  ghost predicate GroupOk<T>(s: State<T>) {
    && s.members != []
    && s.added == s.dispatched + Held(s.master) + s.group
    && s.cursor == Dest(|s.dispatched|, |s.members|)
    && (s.master.Waiting? ==> s.group == [])
    && (s.master.Signalled? ==> s.group != [])
  }

  ghost predicate Inv<T>(s: State<T>) {
    GroupOk(s) && forall j :: 0 <= j < |s.members| ==> MemberOk(s.members[j], Share(s.dispatched, j, |s.members|))
  }

  lemma MemberStepKeeps<T>(m: Member<T>, step: Step<T>, share: seq<T>)
    requires MemberOk(m, share)
    ensures MemberOk(MemberStep(m, step), share)
  {
    if m.list != [] { assert m.list == [m.list[0]] + m.list[1..]; }
  }

  lemma ReceivedKeeps<T>(m: Member<T>, node: T, share: seq<T>)
    requires MemberOk(m, share)
    ensures MemberOk(Received(m, node), share + [node])
  {}

  lemma StepKeepsGroup<T>(s: State<T>, step: Step<T>)
    requires GroupOk(s)
    ensures GroupOk(Apply(s, step)) && |Apply(s, step).members| == |s.members|
  {
    hide NextCursor, MemberStep, Received, Dest;
    match step
    case Add(node) =>
      assert s.dispatched + Held(s.master) + s.group + [node] == s.dispatched + Held(s.master) + (s.group + [node]);
    case MasterLook => if s.group != [] { GroupTaken(s); }
    case MasterWake => if s.group != [] { GroupTaken(s); }
    case Dispatch => if s.master.Busy? { NextDest(|s.dispatched|, |s.members|); }
    case _ =>
  }

  lemma GroupTaken<T>(s: State<T>)
    requires s.group != []
    ensures s.dispatched + Held(Busy(s.group[0])) + s.group[1..] == s.dispatched + [] + s.group
  {
    assert s.group == [s.group[0]] + s.group[1..];
  }

  lemma InCursor<T>(s: State<T>)
    requires GroupOk(s)
    ensures s.members != [] && s.cursor == Dest(|s.dispatched|, |s.members|)
  {}

  lemma StepKeepsInv<T>(s: State<T>, step: Step<T>)
    requires Inv(s)
    ensures Inv(Apply(s, step)) && |Apply(s, step).members| == |s.members|
  {
    hide Share, NextCursor, MemberOk, MemberStep, Received, GroupOk;
    var n := |s.members|;
    var s' := Apply(s, step);
    StepKeepsGroup(s, step);
    InCursor(s);
    if step.Dispatch? && s.master.Busy? {
      forall j | 0 <= j < n ensures MemberOk(s'.members[j], Share(s'.dispatched, j, n)) {
        ShareMore(s.dispatched, s.master.node, j, n);
        if j == s.cursor {
          ReceivedKeeps(s.members[j], s.master.node, Share(s.dispatched, j, n));
        } else {
          assert Share(s.dispatched, j, n) + [] == Share(s.dispatched, j, n);
        }
      }
    } else {
      forall j | 0 <= j < n ensures MemberOk(s'.members[j], Share(s'.dispatched, j, n)) {
        if s'.members[j] != s.members[j] { MemberStepKeeps(s.members[j], step, Share(s.dispatched, j, n)); }
      }
    }
  }

  lemma {:induction false} RunKeepsInv<T>(n: nat, steps: seq<Step<T>>)
    requires n >= 1
    ensures Inv(Run(Start(n), steps)) && |Run(Start<T>(n), steps).members| == n
    decreases |steps|
  {
    if steps != [] {
      RunKeepsInv(n, steps[..|steps| - 1]);
      StepKeepsInv(Run(Start(n), steps[..|steps| - 1]), steps[|steps| - 1]);
    }
  }

  // Order --------------------------------------------------------------------------------

  lemma {:induction false} SharePrefix<T>(a: seq<T>, b: seq<T>, j: nat, n: nat)
    requires n >= 1
    ensures Share(a, j, n) <= Share(a + b, j, n)
    decreases |b|
  {
    if b == [] {
      assert a + b == a;
    } else {
      var k := |b| - 1;
      SharePrefix(a, b[..k], j, n);
      assert a + b == (a + b[..k]) + [b[k]];
      ShareMore(a + b[..k], b[k], j, n);
    }
  }

  lemma ExecutedInOrder<T>(s: State<T>, j: nat)
    requires Inv(s) && j < |s.members|
    ensures s.members[j].executed <= Share(s.added, j, |s.members|)
  {
    hide Share;
    var more, m := Held(s.master) + s.group, s.members[j];
    assert s.added == s.dispatched + more;
    SharePrefix(s.dispatched, more, j, |s.members|);
    assert MemberOk(m, Share(s.dispatched, j, |s.members|));
    assert m.executed <= m.executed + Held(m.phase) + m.list;
  }

  /** Each member runs its own nodes in the order of their arrival. */
  lemma RunsInArrivalOrder<T>(n: nat, steps: seq<Step<T>>, j: nat)
    requires j < n
    ensures var s := Run(Start(n), steps);
            j < |s.members| && s.members[j].executed <= Share(s.added, j, n)
  {
    hide Run, Inv, Share;
    RunKeepsInv(n, steps);
    ExecutedInOrder(Run(Start(n), steps), j);
  }

  /** How many of the first `k` nodes go to member `j`. */
  function CountOf(k: nat, j: nat, n: nat): nat
    requires 1 <= j < n
  {
    if k <= j then 0 else 1 + (k - 1 - j) / (n - 1)
  }

  /** The number of arrival of the `i`-th node of member `j`. */
  function ArrivalOf(i: nat, j: nat, n: nat): int {
    j + (n - 1) * i
  }

  lemma CountStep(k: nat, j: nat, n: nat)
    requires 1 <= j < n
    ensures CountOf(k + 1, j, n) == CountOf(k, j, n) + (if Dest(k, n) == j then 1 else 0)
    ensures Dest(k, n) == j ==> k == ArrivalOf(CountOf(k, j, n), j, n)
  {
    var m := n - 1;
    if k < j {
      if k > 0 { Remainder(0, k - 1, m); }
    } else {
      var q, r := (k - j) / m, (k - j) % m;
      assert k - j == m * q + r;
      Turns(k, j, m, q, r);
      if r > 0 { Remainder(q, r - 1, m); }
      else if k > j { Stretch(m, q - 1); Remainder(q - 1, m - 1, m); }
    }
  }

  lemma Turns(k: nat, j: nat, m: nat, q: nat, r: nat)
    requires 1 <= j <= k && j - 1 < m && r < m && k - j == m * q + r
    ensures (k - 1) % m == j - 1 <==> r == 0
  {
    var x := (k - 1) / m;
    if (k - 1) % m == j - 1 {
      assert k - j == m * x;
      Remainder(x, 0, m);
      Remainder(q, r, m);
    }
    if r == 0 { Remainder(q, j - 1, m); }
  }

  /** The nodes of a member by their number of arrival: number `j` and every `n - 1`-th from there. */
  lemma {:induction false} ShareIndex<T>(s: seq<T>, j: nat, n: nat)
    requires 1 <= j < n
    ensures |Share(s, j, n)| == CountOf(|s|, j, n)
    ensures forall i :: 0 <= i < |Share(s, j, n)| ==>
              0 <= ArrivalOf(i, j, n) < |s| && Share(s, j, n)[i] == s[ArrivalOf(i, j, n)]
    decreases |s|
  {
    hide CountOf, ArrivalOf, Dest;
    if s == [] {
      assert CountOf(0, j, n) == 0 by { CountNone(j, n); }
    } else {
      ShareIndex(s[..|s| - 1], j, n);
      CountStep(|s| - 1, j, n);
    }
  }

  lemma CountNone(j: nat, n: nat)
    requires 1 <= j < n
    ensures CountOf(0, j, n) == 0
  {}

  lemma {:induction false} FirstShare<T>(s: seq<T>, n: nat)
    requires n >= 2
    ensures Share(s, 0, n) == if s == [] then [] else s[..1]
    decreases |s|
  {
    if |s| > 0 {
      FirstShare(s[..|s| - 1], n);
      if |s| > 1 { assert s[..|s| - 1][..1] == s[..1]; }
    }
  }

  /** Of several members the first one runs at most one node, ever. */
  lemma FirstMemberStarves<T>(n: nat, steps: seq<Step<T>>)
    requires n >= 2
    ensures var s := Run(Start(n), steps);
            |s.members| == n && s.members[0].executed <= (if s.added == [] then [] else s.added[..1])
  {
    RunKeepsInv(n, steps);
    RunsInArrivalOrder(n, steps, 0);
    FirstShare(Run(Start(n), steps).added, n);
  }

  lemma {:induction false} WholeShare<T>(s: seq<T>)
    ensures Share(s, 0, 1) == s
    decreases |s|
  {
    if s != [] { WholeShare(s[..|s| - 1]); }
  }

  /** A pool of one member runs the nodes in the order they came in. */
  lemma OneMemberIsFifo<T>(steps: seq<Step<T>>)
    ensures var s := Run(Start(1), steps);
            |s.members| == 1 &&
            s.added == s.members[0].executed + Held(s.members[0].phase) + s.members[0].list + Held(s.master) + s.group
  {
    RunKeepsInv(1, steps);
    WholeShare(Run(Start(1), steps).dispatched);
  }

  // Conservation ---------------------------------------------------------------------------

  /** All nodes a member has, has in hand or has executed. */
  ghost function OfMember<T>(m: Member<T>): multiset<T> {
    multiset(m.executed) + multiset(Held(m.phase)) + multiset(m.list)
  }

  ghost function OfMembers<T>(ms: seq<Member<T>>): multiset<T> {
    if ms == [] then multiset{} else OfMembers(ms[..|ms| - 1]) + OfMember(ms[|ms| - 1])
  }

  ghost function Everywhere<T>(s: State<T>): multiset<T> {
    multiset(s.group) + multiset(Held(s.master)) + OfMembers(s.members)
  }

  ghost function Shares<T>(s: seq<T>, k: nat, n: nat): multiset<T>
    requires n >= 1
  {
    if k == 0 then multiset{} else Shares(s, k - 1, n) + multiset(Share(s, k - 1, n))
  }

  lemma SharesUnfold<T>(s: seq<T>, k: nat, n: nat)
    requires n >= 1
    ensures Shares(s, k, n) == if k == 0 then multiset{} else Shares(s, k - 1, n) + multiset(Share(s, k - 1, n))
  {
    hide Share;
  }

  lemma OneMoreCounted<T>(a: seq<T>, x: T, more: bool)
    ensures multiset(a + if more then [x] else []) == multiset(a) + if more then multiset{x} else multiset{}
  {
    assert a + [] == a;
  }

  lemma Together<T>(a: multiset<T>, b: multiset<T>, a': multiset<T>, b': multiset<T>, x: multiset<T>,
                    inA: bool, inB: bool)
    requires !(inA && inB)
    requires a' == a + (if inA then x else multiset{}) && b' == b + (if inB then x else multiset{})
    ensures a' + b' == (a + b) + if inA || inB then x else multiset{}
  {}

  lemma {:induction false} SharesMore<T>(s: seq<T>, x: T, k: nat, n: nat)
    requires n >= 1
    ensures Shares(s + [x], k, n) == Shares(s, k, n) + (if Dest(|s|, n) < k then multiset{x} else multiset{})
  {
    hide Share, Dest, Shares;
    var d, j := Dest(|s|, n), k - 1;
    SharesUnfold(s, k, n);
    SharesUnfold(s + [x], k, n);
    if k > 0 {
      SharesMore(s, x, j, n);
      ShareMore(s, x, j, n);
      OneMoreCounted(Share(s, j, n), x, d == j);
      Together(Shares(s, j, n), multiset(Share(s, j, n)), Shares(s + [x], j, n), multiset(Share(s + [x], j, n)),
               multiset{x}, d < j, d == j);
    }
  }

  lemma {:induction false} SharesAreAll<T>(s: seq<T>, n: nat)
    requires n >= 1
    ensures Shares(s, n, n) == multiset(s)
    decreases |s|
  {
    if s == [] {
      NoShares<T>(n, n);
    } else {
      var k := |s| - 1;
      SharesAreAll(s[..k], n);
      assert s == s[..k] + [s[k]];
      SharesMore(s[..k], s[k], n, n);
      NextDest(k, n);
    }
  }

  lemma {:induction false} NoShares<T>(k: nat, n: nat)
    requires n >= 1
    ensures Shares<T>([], k, n) == multiset{}
  {
    if k > 0 { NoShares<T>(k - 1, n); }
  }

  lemma MemberHasShare<T>(m: Member<T>, share: seq<T>)
    requires MemberOk(m, share)
    ensures OfMember(m) == multiset(share)
  {}

  lemma {:induction false} MembersHaveShares<T>(s: State<T>, k: nat)
    requires Inv(s) && k <= |s.members|
    ensures OfMembers(s.members[..k]) == Shares(s.dispatched, k, |s.members|)
  {
    hide Share, MemberOk, OfMember;
    if k > 0 {
      MembersHaveShares(s, k - 1);
      assert s.members[..k][..k - 1] == s.members[..k - 1];
      MemberHasShare(s.members[k - 1], Share(s.dispatched, k - 1, |s.members|));
    }
  }

  /** Every node that was added is in one place or was executed, as often as it was added. */
  lemma NothingLostNothingTwice<T>(n: nat, steps: seq<Step<T>>)
    requires n >= 1
    ensures var s := Run(Start(n), steps); Everywhere(s) == multiset(s.added)
  {
    hide Run, Share, Shares, OfMembers, MemberOk;
    RunKeepsInv(n, steps);
    var s := Run(Start(n), steps);
    MembersHaveShares(s, n);
    assert s.members[..n] == s.members;
    SharesAreAll(s.dispatched, n);
  }

  // Who stops ------------------------------------------------------------------------------

  lemma {:induction false} RunOn<T>(s: State<T>, a: seq<Step<T>>, b: seq<Step<T>>)
    ensures Run(s, a + b) == Run(Run(s, a), b)
    decreases |b|
  {
    hide Apply;
    if b == [] {
      assert a + b == a;
    } else {
      var k := |b| - 1;
      assert (a + b)[..|a + b| - 1] == a + b[..k];
      RunOn(s, a, b[..k]);
    }
  }

  /**
   Step `k` of the run is the exit of a master that is about to look, or wakes
   it up beside an empty list, which the master takes for an error.
   */
  ghost predicate MasterExitsAt<T>(s: State<T>, steps: seq<Step<T>>, k: nat)
    requires k < |steps|
  {
    var s' := Run(s, steps[..k]);
    (steps[k].MasterExit? && s'.master.Ready?) || (steps[k].MasterWake? && s'.master.Waiting?)
  }

  ghost predicate MemberExitsAt<T>(s: State<T>, steps: seq<Step<T>>, j: nat, k: nat)
    requires k < |steps|
  {
    var s' := Run(s, steps[..k]);
    steps[k] == MemberExit(j) && j < |s'.members| && s'.members[j].phase.Ready?
  }

  lemma MasterStoppedStep<T>(s: State<T>, step: Step<T>)
    requires GroupOk(s)
    ensures Apply(s, step).master.Stopped? <==>
            s.master.Stopped? || (step.MasterExit? && s.master.Ready?) || (step.MasterWake? && s.master.Waiting?)
  {}

  lemma MemberStoppedStep<T>(s: State<T>, step: Step<T>, j: nat)
    requires j < |s.members|
    ensures |Apply(s, step).members| == |s.members|
    ensures Apply(s, step).members[j].phase.Stopped? <==>
            s.members[j].phase.Stopped? || (step == MemberExit(j) && s.members[j].phase.Ready?)
  {}

  /** Over every run the master has stopped if and only if it took its exit, or woke up for no reason. */
  lemma {:induction false} MasterStopsIff<T>(n: nat, steps: seq<Step<T>>)
    requires n >= 1
    ensures Run(Start<T>(n), steps).master.Stopped? <==>
            exists k :: 0 <= k < |steps| && MasterExitsAt(Start(n), steps, k)
    decreases |steps|
  {
    hide Apply;
    if steps != [] {
      var l, s := |steps| - 1, Start<T>(n);
      var before := steps[..l];
      MasterStopsIff(n, before);
      RunKeepsInv(n, before);
      MasterStoppedStep(Run(s, before), steps[l]);
      forall k | 0 <= k < l ensures MasterExitsAt(s, steps, k) <==> MasterExitsAt(s, before, k) {
        assert steps[..k] == before[..k];
      }
      var m := Run(s, before).master;
      assert MasterExitsAt(s, steps, l) <==>
        (steps[l].MasterExit? && m.Ready?) || (steps[l].MasterWake? && m.Waiting?);
    }
  }

  lemma {:induction false} MemberStopsIff<T>(n: nat, steps: seq<Step<T>>, j: nat)
    requires j < n
    ensures |Run(Start<T>(n), steps).members| == n
    ensures Run(Start<T>(n), steps).members[j].phase.Stopped? <==>
            exists k :: 0 <= k < |steps| && MemberExitsAt(Start(n), steps, j, k)
    decreases |steps|
  {
    hide Apply;
    if steps != [] {
      var l, s := |steps| - 1, Start<T>(n);
      var before := steps[..l];
      MemberStopsIff(n, before, j);
      MemberStoppedStep(Run(s, before), steps[l], j);
      forall k | 0 <= k < l ensures MemberExitsAt(s, steps, j, k) <==> MemberExitsAt(s, before, j, k) {
        assert steps[..k] == before[..k];
      }
      assert MemberExitsAt(s, steps, j, l) <==> steps[l] == MemberExit(j) && Run(s, before).members[j].phase.Ready?;
    }
  }

  /** Nothing is handed out any more, whatever the other threads do. */
  lemma {:induction false} StoppedForGood<T>(s: State<T>, steps: seq<Step<T>>)
    requires s.master.Stopped?
    ensures Run(s, steps).master.Stopped? && Run(s, steps).dispatched == s.dispatched
    decreases |steps|
  {
    if steps != [] { StoppedForGood(s, steps[..|steps| - 1]); }
  }

  /** One wake-up without a reason, and no node that is added later is ever run. */
  lemma SpuriousWakeEndsPool<T>(n: nat, steps: seq<Step<T>>, more: seq<Step<T>>)
    requires n >= 1 && Run(Start<T>(n), steps).master.Waiting?
    ensures var s := Run(Start(n), steps + ([MasterWake] + more));
            s.master.Stopped? && s.dispatched == Run(Start(n), steps).dispatched
  {
    hide Apply;
    var s := Run(Start(n), steps);
    RunKeepsInv(n, steps);
    RunOn(Start(n), steps, [MasterWake] + more);
    RunOn(s, [MasterWake], more);
    OneStep(s, MasterWake);
    MasterStoppedStep(s, MasterWake);
    WakeHandsOutNothing(s);
    StoppedForGood(Apply(s, MasterWake), more);
  }

  lemma WakeHandsOutNothing<T>(s: State<T>)
    ensures Apply(s, MasterWake).dispatched == s.dispatched
  {}

  lemma OneStep<T>(s: State<T>, step: Step<T>)
    ensures Run(s, [step]) == Apply(s, step)
  {
    hide Apply;
    assert [step][..0] == [];
  }

  // Who goes on ----------------------------------------------------------------------------

  /** A step of a thread that goes on, where every wait ends by time-out, or none does. */
  predicate GoesOn<T>(step: Step<T>, timeouts: bool) {
    match step
    case Add(_) => false
    case MasterExit => false
    case MemberExit(_) => false
    case MasterWake => !timeouts
    case MemberWake(_) => !timeouts
    case MasterTimeout => timeouts
    case MemberTimeout(_) => timeouts
    case _ => true
  }

  predicate AllGoOn<T>(steps: seq<Step<T>>, timeouts: bool) {
    forall i :: 0 <= i < |steps| ==> GoesOn(steps[i], timeouts)
  }

  lemma FirstStep<T>(s: State<T>, step: Step<T>, more: seq<Step<T>>, timeouts: bool)
    requires GoesOn(step, timeouts) && AllGoOn(more, timeouts)
    ensures Run(s, [step] + more) == Run(Apply(s, step), more) && AllGoOn([step] + more, timeouts)
  {
    hide Apply;
    RunOn(s, [step], more);
    assert [step][..0] == [];
  }

  /** What a consumer has still to do: no more than three steps for each node that waits. */
  function Effort<T>(list: seq<T>, p: Phase<T>): nat {
    3 * |list| + (if p.Busy? || p.Signalled? then 2 else if p.Ready? then 1 else 0)
  }

  ghost predicate SameMembers<T>(ms: seq<Member<T>>, ms': seq<Member<T>>) {
    |ms| == |ms'| && forall j :: 0 <= j < |ms| ==>
      ms'[j].executed == ms[j].executed && (ms'[j].phase.Stopped? <==> ms[j].phase.Stopped?)
  }

  /**
   A master that has not stopped hands out all that waits in the group list,
   in order, whether it is woken each time or each time runs into the time-out.
   */
  lemma {:induction false} MasterHandsOut<T>(s: State<T>, timeouts: bool) returns (steps: seq<Step<T>>)
    requires Inv(s) && !s.master.Stopped?
    ensures AllGoOn(steps, timeouts) && |steps| <= Effort(s.group, s.master)
    ensures var s' := Run(s, steps);
            && Inv(s') && !s'.master.Stopped? && s'.added == s.added && SameMembers(s.members, s'.members)
            && s'.dispatched == s.dispatched + Held(s.master) + s.group && s'.group == [] && !s'.master.Busy?
    decreases Effort(s.group, s.master)
  {
    hide Inv, Share, MemberOk, Run, NextCursor;
    MasterMayMove(s);
    if s.group == [] && !s.master.Busy? {
      steps := [];
      NoSteps(s);
      assert s.dispatched + [] + [] == s.dispatched;
    } else {
      var step := if s.master.Busy? then Dispatch else if s.master.Ready? then MasterLook
                  else if timeouts then MasterTimeout else MasterWake;
      StepKeepsInv(s, step);
      MasterMoves(s, step);
      var more := MasterHandsOut(Apply(s, step), timeouts);
      FirstStep(s, step, more, timeouts);
      steps := [step] + more;
    }
  }

  lemma NoSteps<T>(s: State<T>)
    ensures Run(s, []) == s
  {}

  lemma MasterMayMove<T>(s: State<T>)
    requires Inv(s)
    ensures s.cursor < |s.members| && (s.master.Waiting? ==> s.group == []) && (s.master.Signalled? ==> s.group != [])
  {
    NextDest(|s.dispatched|, |s.members|);
  }

  lemma MasterMoves<T>(s: State<T>, step: Step<T>)
    requires s.cursor < |s.members| && (s.group != [] || s.master.Busy?)
    requires match step
             case Dispatch => s.master.Busy?
             case MasterLook => s.master.Ready?
             case MasterWake => s.master.Signalled?
             case MasterTimeout => s.master.Signalled?
             case _ => false
    ensures var s' := Apply(s, step);
            && Effort(s'.group, s'.master) < Effort(s.group, s.master) && !s'.master.Stopped?
            && s'.dispatched + Held(s'.master) + s'.group == s.dispatched + Held(s.master) + s.group
            && s'.added == s.added && SameMembers(s.members, s'.members)
  {
    if s.group != [] { assert s.group == [s.group[0]] + s.group[1..]; }
  }

  /** And so does a member with its own list. */
  lemma {:induction false} MemberRunsAll<T>(s: State<T>, j: nat, timeouts: bool) returns (steps: seq<Step<T>>)
    requires Inv(s) && j < |s.members| && !s.members[j].phase.Stopped?
    ensures AllGoOn(steps, timeouts) && |steps| <= Effort(s.members[j].list, s.members[j].phase)
    ensures var s', m := Run(s, steps), s.members[j];
            && Inv(s') && |s'.members| == |s.members| && s' == s.(members := s.members[j := s'.members[j]])
            && s'.members[j].executed == m.executed + Held(m.phase) + m.list
            && s'.members[j].list == [] && !s'.members[j].phase.Busy? && !s'.members[j].phase.Stopped?
    decreases Effort(s.members[j].list, s.members[j].phase)
  {
    hide Inv, Share, MemberOk, Run, NextCursor;
    var m := s.members[j];
    MemberMayMove(s, j);
    if m.list == [] && !m.phase.Busy? {
      steps := [];
      NoSteps(s);
      assert m.executed + [] + [] == m.executed;
      assert s.members[j := m] == s.members;
    } else {
      var step := if m.phase.Busy? then Execute(j) else if m.phase.Ready? then MemberLook(j)
                  else if timeouts then MemberTimeout(j) else MemberWake(j);
      StepKeepsInv(s, step);
      MemberMoves(m, step);
      var t := Apply(s, step);
      var more := MemberRunsAll(t, j, timeouts);
      FirstStep(s, step, more, timeouts);
      steps := [step] + more;
    }
  }

  lemma MemberMayMove<T>(s: State<T>, j: nat)
    requires Inv(s) && j < |s.members|
    ensures var m := s.members[j]; (m.phase.Waiting? ==> m.list == []) && (m.phase.Signalled? ==> m.list != [])
  {
    assert MemberOk(s.members[j], Share(s.dispatched, j, |s.members|));
  }

  lemma MemberMoves<T>(m: Member<T>, step: Step<T>)
    requires m.list != [] || m.phase.Busy?
    requires match step
             case Execute(_) => m.phase.Busy?
             case MemberLook(_) => m.phase.Ready?
             case MemberWake(_) => m.phase.Signalled?
             case MemberTimeout(_) => m.phase.Signalled?
             case _ => false
    ensures var m' := MemberStep(m, step);
            && Effort(m'.list, m'.phase) < Effort(m.list, m.phase) && !m'.phase.Stopped?
            && m'.executed + Held(m'.phase) + m'.list == m.executed + Held(m.phase) + m.list
  {
    if m.list != [] { assert m.list == [m.list[0]] + m.list[1..]; }
  }

  ghost predicate Drained<T>(m: Member<T>) {
    m.list == [] && !m.phase.Busy?
  }

  /** The first `k` members, one after the other. */
  lemma {:induction false} MembersRunAll<T>(s: State<T>, k: nat, timeouts: bool) returns (steps: seq<Step<T>>)
    requires Inv(s) && k <= |s.members| && forall j :: 0 <= j < |s.members| ==> !s.members[j].phase.Stopped?
    ensures AllGoOn(steps, timeouts)
    ensures var s' := Run(s, steps);
            && Inv(s') && |s'.members| == |s.members| && s' == s.(members := s'.members)
            && (forall j :: 0 <= j < k ==> Drained(s'.members[j]))
            && (forall j :: 0 <= j < |s.members| ==> !s'.members[j].phase.Stopped?)
  {
    hide Inv, Run;
    if k == 0 {
      steps := [];
      NoSteps(s);
    } else {
      var first := MembersRunAll(s, k - 1, timeouts);
      var s' := Run(s, first);
      var more := MemberRunsAll(s', k - 1, timeouts);
      RunOn(s, first, more);
      steps := first + more;
    }
  }

  /**
   As long as no thread has stopped, every run can go on so that each node that
   was added has been executed by the member it goes to, without a further add
   and without an exit.
   */
  lemma EveryNodeIsRun<T>(n: nat, steps: seq<Step<T>>, timeouts: bool) returns (more: seq<Step<T>>)
    requires n >= 1 && !Run(Start<T>(n), steps).master.Stopped?
    requires forall j :: 0 <= j < |Run(Start<T>(n), steps).members| ==>
               !Run(Start<T>(n), steps).members[j].phase.Stopped?
    ensures AllGoOn(more, timeouts)
    ensures var s := Run(Start(n), steps + more);
            && s.added == Run(Start(n), steps).added && s.dispatched == s.added && |s.members| == n
            && forall j :: 0 <= j < n ==> s.members[j].executed == Share(s.added, j, n)
  {
    hide Run, Inv, Share;
    RunKeepsInv(n, steps);
    var s := Run(Start(n), steps);
    var a := MasterHandsOut(s, timeouts);
    var t := Run(s, a);
    var b := MembersRunAll(t, n, timeouts);
    more := a + b;
    RunOn(s, a, b);
    RunOn(Start(n), steps, more);
    AllIsRun(Run(t, b), n);
  }

  lemma AllIsRun<T>(s: State<T>, n: nat)
    requires Inv(s) && |s.members| == n && s.group == [] && !s.master.Busy?
    requires forall j :: 0 <= j < n ==> Drained(s.members[j])
    ensures s.dispatched == s.added && forall j :: 0 <= j < n ==> s.members[j].executed == Share(s.added, j, n)
  {
    hide Share;
    assert s.dispatched + [] + [] == s.dispatched;
    forall j | 0 <= j < n ensures s.members[j].executed == Share(s.added, j, n) {
      assert MemberOk(s.members[j], Share(s.dispatched, j, n)) && Drained(s.members[j]);
    }
  }

  /** An exit flag is always seen in the end: at the latest when the lists are empty and a wait runs out. */
  lemma MasterCanStop<T>(s: State<T>) returns (steps: seq<Step<T>>)
    requires Inv(s) && !s.master.Stopped?
    ensures AllGoOn(steps, true)
    ensures var s' := Run(s, steps + [MasterExit]);
            s'.master.Stopped? && s'.group == [] && s'.dispatched == s.dispatched + Held(s.master) + s.group
  {
    hide Inv, Run, Share;
    var a := MasterHandsOut(s, true);
    steps := a + [MasterTimeout];
    RunOn(s, a, [MasterTimeout]);
    RunOn(s, steps, [MasterExit]);
    OneStep(Run(s, a), MasterTimeout);
    OneStep(Run(s, steps), MasterExit);
  }

  lemma MemberCanStop<T>(s: State<T>, j: nat) returns (steps: seq<Step<T>>)
    requires Inv(s) && j < |s.members| && !s.members[j].phase.Stopped?
    ensures AllGoOn(steps, true)
    ensures var s', m := Run(s, steps + [MemberExit(j)]), s.members[j];
            && |s'.members| == |s.members| && s'.members[j].phase.Stopped?
            && s'.members[j].list == [] && s'.members[j].executed == m.executed + Held(m.phase) + m.list
  {
    hide Inv, Run, Share;
    var a := MemberRunsAll(s, j, true);
    steps := a + [MemberTimeout(j)];
    RunOn(s, a, [MemberTimeout(j)]);
    RunOn(s, steps, [MemberExit(j)]);
    OneStep(Run(s, a), MemberTimeout(j));
    OneStep(Run(s, steps), MemberExit(j));
  }
}
