/**
 Runs of the timer table: a tick that no other thread disturbs, and three runs
 that go wrong.
 */
module TimerRuns {
  import opened TimerTable

  // A tick nobody disturbs -----------------------------------------------------------------------

  /** The scan without anybody else. */
  function ScanRest(t: Table): Table
    decreases if t.phase.Scanning? then |t.slots| - t.phase.i else 0
  {
    if GoesOn(t) then ScanRest(ScanSlot(t)) else t
  }

  function Tick(t: Table): Table {
    Apply(ScanRest(Apply(Apply(t, Count), Begin)), End)
  }

  /** Such a scan, stopping after `n` live slots, comes to slot `i`. */
  predicate Reached(slots: seq<Slot>, n: int, i: nat)
    requires i < |slots|
  {
    Live(slots[i]) && LiveUpTo(slots, i) < n
  }

  function Scanned(slots: seq<Slot>, n: int): seq<Slot> {
    seq(|slots|, i requires 0 <= i < |slots| => if Reached(slots, n, i) then Advanced(slots[i]) else slots[i])
  }

  /** The slots among the first `i` that it puts into the queue. */
  function Fired(slots: seq<Slot>, n: int, i: nat): seq<nat>
    requires i <= |slots|
  {
    if i == 0 then []
    else Fired(slots, n, i - 1) + (if Reached(slots, n, i - 1) && Due(slots[i - 1]) then [i - 1] else [])
  }

  function ScannedAll(slots: seq<Slot>): seq<Slot> {
    seq(|slots|, i requires 0 <= i < |slots| => if Live(slots[i]) then Advanced(slots[i]) else slots[i])
  }

  function FiredAll(slots: seq<Slot>, i: nat): seq<nat>
    requires i <= |slots|
  {
    if i == 0 then [] else FiredAll(slots, i - 1) + (if Live(slots[i - 1]) && Due(slots[i - 1]) then [i - 1] else [])
  }

  /** Behind the early exit no slot is reached. */
  lemma {:induction false} NothingBehind(slots: seq<Slot>, n: int, i: nat)
    requires i <= |slots| && (i == |slots| || n <= LiveUpTo(slots, i))
    ensures Fired(slots, n, |slots|) == Fired(slots, n, i)
    ensures forall j :: i <= j < |slots| ==> !Reached(slots, n, j)
    decreases |slots| - i
  {
    if i < |slots| {
      LiveMonotone(slots, i, i + 1);
      NothingBehind(slots, n, i + 1);
    }
  }

  /** Half of an undisturbed scan, from `slots` and an empty queue. */
  predicate Halfway(t: Table, slots: seq<Slot>, n: int, q: seq<nat>, h: seq<nat>) {
    && t.phase.Scanning? && t.phase.iCurCnt == n && t.phase.i <= |slots| == |t.slots|
    && |t.phase.met| == LiveUpTo(slots, t.phase.i)
    && (forall j :: 0 <= j < t.phase.i ==> t.slots[j] == Scanned(slots, n)[j])
    && (forall j :: t.phase.i <= j < |slots| ==> t.slots[j] == slots[j])
    && t.queue == q + Fired(slots, n, t.phase.i) && t.history == h + Fired(slots, n, t.phase.i)
  }

  lemma OneMoreScanned(t: Table, slots: seq<Slot>, n: int, q: seq<nat>, h: seq<nat>)
    requires Halfway(t, slots, n, q, h) && GoesOn(t)
    ensures Halfway(ScanSlot(t), slots, n, q, h)
  {
    var i := t.phase.i;
    assert LiveUpTo(slots, i + 1) == LiveUpTo(slots, i) + if Live(slots[i]) then 1 else 0;
    assert Fired(slots, n, i + 1) == Fired(slots, n, i) + (if Reached(slots, n, i) && Due(slots[i]) then [i] else []);
  }

  lemma {:induction false} RestIsScanned(t: Table, slots: seq<Slot>, n: int, q: seq<nat>, h: seq<nat>)
    requires Halfway(t, slots, n, q, h)
    ensures var u := ScanRest(t);
            && u.slots == Scanned(slots, n) && u.phase.Scanning? && !GoesOn(u)
            && u.queue == q + Fired(slots, n, |slots|) && u.history == h + Fired(slots, n, |slots|)
            && u == t.(slots := u.slots, queue := u.queue, history := u.history, phase := u.phase)
    decreases |t.slots| - t.phase.i
  {
    hide Fired, LiveUpTo;
    if GoesOn(t) {
      OneMoreScanned(t, slots, n, q, h);
      RestIsScanned(ScanSlot(t), slots, n, q, h);
    } else {
      NothingBehind(slots, n, t.phase.i);
      assert t.slots == Scanned(slots, n);
    }
  }

  lemma TickIsScan(t: Table)
    requires t.phase.Sleeping?
    ensures var fired := Fired(t.slots, t.iTimerCnt, |t.slots|);
            Tick(t) == t.(slots := Scanned(t.slots, t.iTimerCnt), iTimerTick := t.iTimerTick + 1,
                          queue := t.queue + fired, history := t.history + fired)
  {
    var b := Apply(Apply(t, Count), Begin);
    assert t.queue + [] == t.queue && t.history + [] == t.history;
    RestIsScanned(b, t.slots, t.iTimerCnt, t.queue, t.history);
  }

  lemma {:induction false} FiredAre(slots: seq<Slot>, n: int, i: nat)
    requires i <= |slots|
    ensures forall k :: k in Fired(slots, n, i) <==> 0 <= k < i && Reached(slots, n, k) && Due(slots[k])
  {
    if i > 0 { FiredAre(slots, n, i - 1); }
  }

  lemma {:induction false} FiredAllAre(slots: seq<Slot>, i: nat)
    requires i <= |slots|
    ensures forall k :: k in FiredAll(slots, i) <==> 0 <= k < i && Live(slots[k]) && Due(slots[k])
  {
    if i > 0 { FiredAllAre(slots, i - 1); }
  }

  lemma {:induction false} FiredIsAll(slots: seq<Slot>, n: int, i: nat)
    requires i <= |slots| && (LiveCount(slots) <= n || LiveCount(slots) == 0)
    ensures Fired(slots, n, i) == FiredAll(slots, i)
  {
    if i > 0 {
      FiredIsAll(slots, n, i - 1);
      LiveMonotone(slots, i - 1, |slots|);
    }
  }

  /** A slot beyond the last one reached. */
  lemma {:induction false} SomeMissed(slots: seq<Slot>, n: int, m: nat) returns (i: nat)
    requires m <= |slots| && n < LiveUpTo(slots, m) && LiveUpTo(slots, m) > 0
    ensures i < m && Live(slots[i]) && !Reached(slots, n, i)
  {
    if Live(slots[m - 1]) && n <= LiveUpTo(slots, m - 1) {
      i := m - 1;
    } else {
      i := SomeMissed(slots, n, m - 1);
    }
  }

  /**
   A tick nobody disturbs advances and queues what a full scan does, exactly
   when the counter is not below the number of live slots or there are none.
   */
  lemma EarlyExitIsFullScan(t: Table)
    requires t.phase.Sleeping?
    ensures Tick(t).slots == ScannedAll(t.slots) && Tick(t).queue == t.queue + FiredAll(t.slots, |t.slots|)
            <==> LiveCount(t.slots) <= t.iTimerCnt || LiveCount(t.slots) == 0
  {
    TickIsScan(t);
    var slots, n := t.slots, t.iTimerCnt;
    SameQueue(t.queue, Fired(slots, n, |slots|), FiredAll(slots, |slots|));
    if LiveCount(slots) <= n || LiveCount(slots) == 0 {
      FiredIsAll(slots, n, |slots|);
      forall i | 0 <= i < |slots| ensures Reached(slots, n, i) == Live(slots[i]) {
        LiveMonotone(slots, i, |slots|);
      }
    } else {
      var i := SomeMissed(slots, n, |slots|);
      FiredAre(slots, n, |slots|);
      FiredAllAre(slots, |slots|);
      assert Scanned(slots, n)[i] == slots[i] && ScannedAll(slots)[i] == Advanced(slots[i]);
      if Due(slots[i]) {
        assert i in FiredAll(slots, |slots|) && i !in Fired(slots, n, |slots|);
      } else {
        assert Advanced(slots[i]) != slots[i];
      }
    }
  }

  lemma SameQueue(q: seq<nat>, a: seq<nat>, b: seq<nat>)
    ensures q + a == q + b <==> a == b
  {
    if q + a == q + b { assert a == (q + a)[|q|..] == (q + b)[|q|..] == b; }
  }

  // Three runs that go wrong -----------------------------------------------------------------------

  /** Adding, deleting and completing a timer, each in both its sections. */
  function Adding(id: nat, m: int, constant: bool): seq<Step> { [AddSlot(id, m, constant), AddCount] }

  function Deleting(id: int): seq<Step> { [DeleteSlot(id), DeleteCount] }

  const HANDLING: seq<Step> := [Handle(0), DeleteCount]

  function Constant(m: int): Slot { Slot(0, m, true, Ready) }

  lemma AddedTo(t: Table, id: nat, m: int, constant: bool)
    requires t.adding == 0 && id < |t.slots|
    ensures Run(t, Adding(id, m, constant)) ==
      t.(slots := t.slots[id := Slot(0, m, constant, Ready)], iTimerCnt := t.iTimerCnt + 1)
  {
    hide Run;
    RunTwo(t, AddSlot(id, m, constant), AddCount);
    var u := Apply(t, AddSlot(id, m, constant));
    assert u == t.(slots := t.slots[id := Slot(0, m, constant, Ready)], adding := 1);
  }

  lemma DeletedFrom(t: Table, id: nat)
    requires t.removing == 0 && id < |t.slots|
    ensures Run(t, Deleting(id)) == t.(slots := t.slots[id := Freed(t.slots[id])], iTimerCnt := t.iTimerCnt - 1)
  {
    hide Run;
    RunTwo(t, DeleteSlot(id), DeleteCount);
    var u := Apply(t, DeleteSlot(id));
    assert u == t.(slots := t.slots[id := Freed(t.slots[id])], removing := 1);
    assert Apply(u, DeleteCount) == u.(removing := 0, iTimerCnt := u.iTimerCnt - 1);
  }

  lemma Handled(t: Table, s: Slot, rest: seq<nat>)
    requires t.removing == 0 && t.slots == [s] && t.queue == [0] + rest && !s.constant
    ensures Run(t, HANDLING) == t.(queue := rest, slots := [Freed(s)], iTimerCnt := t.iTimerCnt - 1)
  {
    hide Run;
    RunTwo(t, Handle(0), DeleteCount);
  }

  lemma Begun(t: Table)
    requires t.phase.Sleeping?
    ensures Run(t, [Count, Begin]) == t.(iTimerTick := t.iTimerTick + 1, phase := Scanning(0, [], t.iTimerCnt))
  {
    hide Run;
    RunTwo(t, Count, Begin);
  }

  /**
   A timer added below another one while the scan that should reach both is
   under way: the other one is due, is not advanced and is not queued.
   */
  lemma MissedByAdd(start: Table, before: seq<Step>, during: seq<Step>, t: Table, u: Table)
    requires start == Start(2) && before == Adding(0, 5, true) + Adding(1, 1, true) + Deleting(0)
    requires during == [Count, Begin] + Adding(0, 5, true) + [Scan, End]
    requires t == Run(start, before) && u == Run(t, during)
    ensures |t.slots| == 2 && t.phase.Sleeping? && Exact(t) && Live(t.slots[1]) && Due(t.slots[1])
    ensures |u.slots| == 2 && u.phase.Sleeping? && Exact(u) && u.iTimerTick == t.iTimerTick + 1
    ensures u.slots[1] == t.slots[1] && u.history == t.history
  {
    hide Run, Exact, Advanced, Freed, Apply;
    OneOfTwoIsLeft(t);
    ScanMeetsTheOther(t, u);
  }

  lemma OneOfTwoIsLeft(t: Table)
    requires t == Run(Start(2), Adding(0, 5, true) + Adding(1, 1, true) + Deleting(0))
    ensures t == Table([Freed(Constant(5)), Constant(1)], 1, 0, Sleeping, 0, 0, [], []) && Exact(t)
  {
    hide Run, Apply, Adding, Deleting;
    var t0, five, one := Start(2), Constant(5), Constant(1);
    var t1 := Table([five, FREE], 1, 0, Sleeping, 0, 0, [], []);
    var t2 := t1.(slots := [five, one], iTimerCnt := 2);
    RunJoin(t0, Adding(0, 5, true), Adding(1, 1, true));
    RunJoin(t0, Adding(0, 5, true) + Adding(1, 1, true), Deleting(0));
    AddedTo(t0, 0, 5, true);
    assert t0.slots[0 := five] == t1.slots;
    AddedTo(t1, 1, 1, true);
    assert t1.slots[1 := one] == t2.slots;
    DeletedFrom(t2, 0);
    assert t2.slots[0 := Freed(five)] == [Freed(five), one];
    LiveOfTwo(Freed(five), one);
  }

  lemma ScanMeetsTheOther(t: Table, u: Table)
    requires t == Table([Freed(Constant(5)), Constant(1)], 1, 0, Sleeping, 0, 0, [], [])
    requires u == Run(t, [Count, Begin] + Adding(0, 5, true) + [Scan, End])
    ensures u == Table([Advanced(Constant(5)), Constant(1)], 2, 1, Sleeping, 0, 0, [], []) && Exact(u)
  {
    hide Run, Apply, Adding;
    var five, one := Constant(5), Constant(1);
    var b := t.(iTimerTick := 1, phase := Scanning(0, [], 1));
    var c := b.(slots := [five, one], iTimerCnt := 2);
    Begun(t);
    RunJoin(t, [Count, Begin], Adding(0, 5, true));
    AddedTo(b, 0, 5, true);
    assert b.slots[0 := five] == c.slots;
    RunJoin(t, [Count, Begin] + Adding(0, 5, true), [Scan, End]);
    RunTwo(c, Scan, End);
    ScanOfFirst(c, five, one);
    LiveOfTwo(Advanced(five), one);
  }

  /** The scan has met as many slots as it had counted, and ends. */
  lemma ScanOfFirst(c: Table, five: Slot, one: Slot)
    requires five == Constant(5) && c.slots == [five, one] && c.phase == Scanning(0, [], 1)
    ensures Apply(Apply(c, Scan), End) == c.(slots := [Advanced(five), one], phase := Sleeping)
  {
    assert c.queue + [] == c.queue && c.history + [] == c.history;
  }

  lemma LiveOfTwo(a: Slot, b: Slot)
    ensures LiveCount([a, b]) == (if Live(a) then 1 else 0) + (if Live(b) then 1 else 0)
  {
    assert LiveUpTo([a, b], 1) == if Live(a) then 1 else 0;
  }

  /**
   Two adds that find the same slot free before either writes to it: one timer
   is lost, and the counter is too high.
   */
  lemma BothFoundIt(a: Slot, b: Slot, t: Table)
    requires a == Constant(5) && b == Constant(1)
    requires t == Run(Start(1), [AddSlot(0, 5, true), AddSlot(0, 1, true)] + [AddCount, AddCount])
    ensures t.slots == [b] && t.iTimerCnt == 2 && LiveCount(t.slots) == 1 && !Exact(t)
  {
    hide Run;
    var t0, t2 := Start(1), Table([b], 0, 0, Sleeping, 2, 0, [], []);
    RunJoin(t0, [AddSlot(0, 5, true), AddSlot(0, 1, true)], [AddCount, AddCount]);
    RunTwo(t0, AddSlot(0, 5, true), AddSlot(0, 1, true));
    assert t0.slots[0 := a][0 := b] == [b];
    RunTwo(t2, AddCount, AddCount);
    assert LiveUpTo([b], 0) == 0;
  }

  /**
   A one-shot timer that falls due twice before it is handled is taken down
   twice; from then on the scan stops one timer too early.
   */
  lemma HandledTwice(start: Table, once: seq<Step>, handling: seq<Step>, again: seq<Step>, t: Table, u: Table)
    requires start == Start(1) && once == Adding(0, 1, false) && handling == HANDLING && again == Adding(0, 1, true)
    requires t == Run(Run(Tick(Tick(Run(start, once))), handling), handling)
    requires u == Tick(Run(t, again))
    ensures LiveCount(t.slots) == 0 && t.iTimerCnt == -1
    ensures |u.slots| == 1 && Live(u.slots[0]) && Due(u.slots[0]) && u.iTimerCnt == 0 && u.history == t.history
  {
    hide Run, Tick, Freed;
    TakenDownTwice(start, once, handling, t);
    TickAfterwards(t, again, u);
    FreedTwice(Slot(0, 1, false, Ready));
    assert LiveUpTo(t.slots, 0) == 0;
  }

  lemma TakenDownTwice(start: Table, once: seq<Step>, handling: seq<Step>, t: Table)
    requires start == Start(1) && once == Adding(0, 1, false) && handling == HANDLING
    requires t == Run(Run(Tick(Tick(Run(start, once))), handling), handling)
    ensures t == Table([Freed(Slot(0, 1, false, Ready))], -1, 2, Sleeping, 0, 0, [], [0, 0])
  {
    hide Run, Tick, Apply, Adding, Freed;
    var s := Slot(0, 1, false, Ready);
    var t1 := Table([s], 1, 0, Sleeping, 0, 0, [], []);
    AddedTo(start, 0, 1, false);
    assert start.slots[0 := s] == [s];
    TickOfOne(t1, s);
    var t2 := t1.(iTimerTick := 1, queue := [0], history := [0]);
    assert Tick(t1) == t2;
    TickOfOne(t2, s);
    var t3 := t1.(iTimerTick := 2, queue := [0, 0], history := [0, 0]);
    assert Tick(t2) == t3;
    Handled(t3, s, [0]);
    FreedTwice(s);
    Handled(t3.(queue := [0], slots := [Freed(s)], iTimerCnt := 0), Freed(s), []);
  }

  lemma FreedTwice(s: Slot)
    ensures Freed(Freed(s)) == Freed(s) && Freed(s).constant == s.constant && !Live(Freed(s))
  {}

  lemma TickAfterwards(t: Table, again: seq<Step>, u: Table)
    requires t == Table([Freed(Slot(0, 1, false, Ready))], -1, 2, Sleeping, 0, 0, [], [0, 0])
    requires again == Adding(0, 1, true) && u == Tick(Run(t, again))
    ensures u == t.(slots := [Constant(1)], iTimerCnt := 0, iTimerTick := 3)
  {
    hide Run, Tick, Apply, Adding, Freed;
    AddedTo(t, 0, 1, true);
    assert t.slots[0 := Constant(1)] == [Constant(1)];
    TickOfOne(t.(slots := [Constant(1)], iTimerCnt := 0), Constant(1));
  }

  lemma TickOfOne(t: Table, s: Slot)
    requires t.phase.Sleeping? && t.slots == [s]
    ensures var reached := Live(s) && 0 < t.iTimerCnt;
            var fired: seq<nat> := if reached && Due(s) then [0] else [];
            Tick(t) == t.(slots := [if reached then Advanced(s) else s], iTimerTick := t.iTimerTick + 1,
                          queue := t.queue + fired, history := t.history + fired)
  {
    TickIsScan(t);
    var n := t.iTimerCnt;
    assert LiveUpTo([s], 0) == 0;
    assert Fired([s], n, 1) == Fired([s], n, 0) + (if Reached([s], n, 0) && Due(s) then [0] else []);
  }
}
