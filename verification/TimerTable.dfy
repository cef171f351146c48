/**
 The timer table: a fixed array of slots, a counting thread that scans it once
 per tick and stops when it has met as many running timers as the counter said
 there were, and a queue of the slots whose period is over.

 Each section under a mutex is one step, so that other threads may add, delete
 and complete timers between any two steps of a scan. An add looks for a free
 slot without a lock, so the slot it writes is only one that was free before;
 as a step, it may write any slot.
 */
module TimerTable {
  import opened DivMod
  import opened Sequences

  datatype Status = Idle | Ready

  /** `MLTimerHead`; `iMSecond` is -1 in a free slot. */
  datatype Slot = Slot(iTick: int, iMSecond: int, constant: bool, status: Status)

  const FREE: Slot := Slot(0, -1, false, Idle)

  /**
   Where the counting thread stands: asleep; behind `ml_increase_count`; or in
   the loop of `ml_check_timer` at slot `i`, having met the live slots `met`
   (`iCnt` is their number), with the counter it read at the start.
   */
  datatype Phase = Sleeping | Ticked | Scanning(i: nat, met: seq<nat>, iCurCnt: int)

  /**
   `MLTimer`, with the number of adds and of deletes that are between their
   two sections, the queue of the thread pool and everything ever queued.
   */
  datatype Table = Table(slots: seq<Slot>, iTimerCnt: int, iTimerTick: nat, phase: Phase,
                         adding: int, removing: int, queue: seq<nat>, history: seq<nat>)

  predicate Live(s: Slot) {
    s.status != Idle
  }

  predicate Due(s: Slot) {
    s.iTick + 1 == s.iMSecond
  }

  function Advanced(s: Slot): Slot {
    s.(iTick := if Due(s) then 0 else s.iTick + 1)
  }

  function Freed(s: Slot): Slot {
    s.(status := Idle, iMSecond := -1)
  }

  // Steps ----------------------------------------------------------------------------------

  datatype Step =
    | Count                                        // ml_increase_count
    | Begin                                        // ml_check_timer reads the counter
    | Scan                                         // ml_check_timer handles one slot
    | End                                          // ml_check_timer leaves its loop
    | AddSlot(id: nat, iMSecond: int, constant: bool)  // ml_add_timer writes the slot it found
    | AddCount                                     // and counts it
    | DeleteSlot(slot: int)                        // ml_del_timer frees a slot
    | Handle(at: nat)                              // ml_handle_timer ends, freeing the slot of a one-shot timer
    | DeleteCount                                  // ml_decrease_count

  /** The loop condition of the scan. */
  predicate GoesOn(t: Table) {
    t.phase.Scanning? && t.phase.i < |t.slots| && |t.phase.met| < t.phase.iCurCnt
  }

  /** There is a timer at that place of the queue. Its handlers are several and end in any order. */
  predicate IsQueued(t: Table, at: nat) {
    at < |t.queue| && t.queue[at] < |t.slots|
  }

  /** One thread moves on. A step of a thread that is elsewhere changes nothing. */
  function Apply(t: Table, step: Step): Table {
    match step
    case Count => if t.phase.Sleeping? then t.(phase := Ticked, iTimerTick := t.iTimerTick + 1) else t
    case Begin => if t.phase.Ticked? then t.(phase := Scanning(0, [], t.iTimerCnt)) else t
    case Scan => if GoesOn(t) then ScanSlot(t) else t
    case End => if t.phase.Scanning? && !GoesOn(t) then t.(phase := Sleeping) else t
    case AddSlot(id, m, constant) =>
      if id < |t.slots| then t.(slots := t.slots[id := Slot(0, m, constant, Ready)], adding := t.adding + 1) else t
    case AddCount => t.(adding := t.adding - 1, iTimerCnt := t.iTimerCnt + 1)
    case DeleteSlot(id) =>
      if 0 <= id < |t.slots| then t.(slots := t.slots[id := Freed(t.slots[id])], removing := t.removing + 1) else t
    case Handle(at) =>
      if !IsQueued(t, at) then t
      else
        var i, rest := t.queue[at], Without(t.queue, at);
        if t.slots[i].constant then t.(queue := rest)
        else t.(queue := rest, slots := t.slots[i := Freed(t.slots[i])], removing := t.removing + 1)
    case DeleteCount => t.(removing := t.removing - 1, iTimerCnt := t.iTimerCnt - 1)
  }

  /** One round of the scan. */
  function ScanSlot(t: Table): Table
    requires GoesOn(t)
  {
    var i, s := t.phase.i, t.slots[t.phase.i];
    if !Live(s) then t.(phase := t.phase.(i := i + 1))
    else
      var fired := if Due(s) then [i] else [];
      t.(slots := t.slots[i := Advanced(s)], phase := t.phase.(i := i + 1, met := t.phase.met + [i]),
         queue := t.queue + fired, history := t.history + fired)
  }

  function Run(t: Table, steps: seq<Step>): Table
    decreases |steps|
  {
    if steps == [] then t else Apply(Run(t, steps[..|steps| - 1]), steps[|steps| - 1])
  }

  lemma {:induction false} RunCons(t: Table, step: Step, steps: seq<Step>)
    ensures Run(t, [step] + steps) == Run(Apply(t, step), steps)
    decreases |steps|
  {
    var all := [step] + steps;
    if steps == [] {
      assert all[..0] == [];
    } else {
      assert all[..|all| - 1] == [step] + steps[..|steps| - 1];
      RunCons(t, step, steps[..|steps| - 1]);
    }
  }

  lemma {:induction false} RunJoin(t: Table, a: seq<Step>, b: seq<Step>)
    ensures Run(t, a + b) == Run(Run(t, a), b)
    decreases |b|
  {
    if b == [] {
      assert a + b == a;
    } else {
      assert (a + b)[..|a + b| - 1] == a + b[..|b| - 1];
      RunJoin(t, a, b[..|b| - 1]);
    }
  }

  lemma RunTwo(t: Table, a: Step, b: Step)
    ensures Run(t, [a, b]) == Apply(Apply(t, a), b)
  {
    assert [a, b] == [a] + [b] && [b] == [b] + [];
    RunCons(t, a, [b]);
    RunCons(Apply(t, a), b, []);
  }

  function Start(n: nat): Table {
    Table(seq(n, _ => FREE), 0, 0, Sleeping, 0, 0, [], [])
  }

  // The counter --------------------------------------------------------------------------------

  /** How many of the first `i` slots are live. */
  function LiveUpTo(slots: seq<Slot>, i: nat): nat
    requires i <= |slots|
  {
    if i == 0 then 0 else LiveUpTo(slots, i - 1) + (if Live(slots[i - 1]) then 1 else 0)
  }

  function LiveCount(slots: seq<Slot>): nat {
    LiveUpTo(slots, |slots|)
  }

  /** The counter is the number of live slots, but for adds and deletes that are not finished. */
  predicate Exact(t: Table) {
    t.iTimerCnt == LiveCount(t.slots) - t.adding + t.removing
  }

  lemma {:induction false} LiveMonotone(slots: seq<Slot>, i: nat, j: nat)
    requires i <= j <= |slots|
    ensures LiveUpTo(slots, i) <= LiveUpTo(slots, j)
    ensures i < j && Live(slots[i]) ==> LiveUpTo(slots, i) < LiveUpTo(slots, j)
  {
    if i < j { LiveMonotone(slots, i, j - 1); }
  }

  lemma {:induction false} LiveAfterUpdate(slots: seq<Slot>, k: nat, s: Slot, i: nat)
    requires k < |slots| && i <= |slots|
    ensures LiveUpTo(slots[k := s], i) ==
      LiveUpTo(slots, i) + (if k < i then (if Live(s) then 1 else 0) - (if Live(slots[k]) then 1 else 0) else 0)
  {
    if i > 0 { LiveAfterUpdate(slots, k, s, i - 1); }
  }

  predicate SlotOk(s: Slot) {
    if Live(s) then 0 <= s.iTick < s.iMSecond else s.iMSecond == -1
  }

  predicate Shaped(t: Table) {
    && (forall i :: 0 <= i < |t.slots| ==> SlotOk(t.slots[i]))
    && (forall i :: 0 <= i < |t.queue| ==> t.queue[i] < |t.slots|)
  }

  /** Periods are at least one. */
  predicate Sensible(step: Step) {
    step.AddSlot? ==> step.iMSecond >= 1
  }

  /** Live slots stay between zero and their period, whatever happens. */
  lemma StepKeepsShape(t: Table, step: Step)
    requires Shaped(t) && Sensible(step)
    ensures Shaped(Apply(t, step)) && |Apply(t, step).slots| == |t.slots|
  {}

  /** The step finds the slot it takes down alive, and the slot it sets up not. */
  predicate Fits(t: Table, step: Step) {
    match step
    case AddSlot(id, m, constant) => id < |t.slots| ==> !Live(t.slots[id])
    case DeleteSlot(id) => 0 <= id < |t.slots| ==> Live(t.slots[id])
    case Handle(at) => IsQueued(t, at) && !t.slots[t.queue[at]].constant ==> Live(t.slots[t.queue[at]])
    case _ => true
  }

  /** The counter stays exact in a step, if and only if the step fits the slot it is for. */
  lemma CountKeptIff(t: Table, step: Step)
    requires Shaped(t) && Exact(t)
    ensures Exact(Apply(t, step)) <==> Fits(t, step)
  {
    match step
    case Scan =>
      if GoesOn(t) { LiveAfterUpdate(t.slots, t.phase.i, Advanced(t.slots[t.phase.i]), |t.slots|); }
    case AddSlot(id, m, constant) =>
      if id < |t.slots| { LiveAfterUpdate(t.slots, id, Slot(0, m, constant, Ready), |t.slots|); }
    case DeleteSlot(id) =>
      if 0 <= id < |t.slots| { LiveAfterUpdate(t.slots, id, Freed(t.slots[id]), |t.slots|); }
    case Handle(at) =>
      if IsQueued(t, at) { LiveAfterUpdate(t.slots, t.queue[at], Freed(t.slots[t.queue[at]]), |t.slots|); }
    case Count =>
    case Begin =>
    case End =>
    case AddCount =>
    case DeleteCount =>
  }

  // Which slots a scan passes over -----------------------------------------------------------------

  /** How many of the slots met lie before slot `j`. */
  function MetBelow(met: seq<nat>, j: nat): nat {
    if met == [] then 0 else MetBelow(met[..|met| - 1], j) + (if met[|met| - 1] < j then 1 else 0)
  }

  lemma MetOneMore(met: seq<nat>, i: nat, j: nat)
    ensures MetBelow(met + [i], j) == MetBelow(met, j) + (if i < j then 1 else 0)
  {
    assert (met + [i])[..|met|] == met;
  }

  lemma {:induction false} AllMetBelow(met: seq<nat>, j: nat)
    requires forall k :: 0 <= k < |met| ==> met[k] < j
    ensures MetBelow(met, j) == |met|
  {
    if met != [] { AllMetBelow(met[..|met| - 1], j); }
  }

  /** Every slot behind the scan was met, or passed, before the live slots met reached the counter. */
  ghost predicate ScanOk(t: Table) {
    t.phase.Scanning? ==>
      && t.phase.i <= |t.slots|
      && (forall k :: 0 <= k < |t.phase.met| ==> t.phase.met[k] < t.phase.i)
      && (forall j :: 0 <= j < t.phase.i ==> MetBelow(t.phase.met, j) < t.phase.iCurCnt)
      && (t.phase.met == [] || |t.phase.met| <= t.phase.iCurCnt)
  }

  lemma StepKeepsScanOk(t: Table, step: Step)
    requires ScanOk(t)
    ensures ScanOk(Apply(t, step)) && |Apply(t, step).slots| == |t.slots|
  {
    hide MetBelow;
    if step.Scan? && GoesOn(t) { ScanKeepsScanOk(t); }
    if step.Begin? { assert forall j: nat :: j < 0 ==> MetBelow([], j) < t.iTimerCnt; }
  }

  lemma ScanKeepsScanOk(t: Table)
    requires ScanOk(t) && GoesOn(t)
    ensures ScanOk(ScanSlot(t))
  {
    hide MetBelow;
    var i, met := t.phase.i, t.phase.met;
    AllMetBelow(met, i);
    forall j | 0 <= j <= i ensures MetBelow(met + [i], j) == MetBelow(met, j) { MetOneMore(met, i, j); }
  }

  lemma {:induction false} RunKeepsScanOk(n: nat, steps: seq<Step>)
    ensures ScanOk(Run(Start(n), steps)) && |Run(Start(n), steps).slots| == n
    decreases |steps|
  {
    if steps != [] {
      RunKeepsScanOk(n, steps[..|steps| - 1]);
      StepKeepsScanOk(Run(Start(n), steps[..|steps| - 1]), steps[|steps| - 1]);
    }
  }

  /**
   In every run, at the end of a scan: a slot was visited exactly if the live
   slots the scan met before it were fewer than the counter it had read.
   */
  lemma PassedOverIff(n: nat, steps: seq<Step>, j: nat)
    requires j < n
    ensures var t := Run(Start(n), steps);
            t.phase.Scanning? && !GoesOn(t) ==>
              (j < t.phase.i <==> MetBelow(t.phase.met, j) < t.phase.iCurCnt)
  {
    RunKeepsScanOk(n, steps);
    var t := Run(Start(n), steps);
    if t.phase.Scanning? && j >= t.phase.i { AllMetBelow(t.phase.met, j); }
  }

  /** The live slots the scan has still to come to fit into what is left of the counter. */
  predicate Room(t: Table) {
    t.phase.Scanning? && t.phase.i <= |t.slots| ==>
      var left := LiveCount(t.slots) - LiveUpTo(t.slots, t.phase.i);
      left == 0 || |t.phase.met| + left <= t.phase.iCurCnt
  }

  /** A scan with room for all passes over no live slot. */
  lemma NoneMissedIffRoom(t: Table)
    requires ScanOk(t) && t.phase.Scanning? && !GoesOn(t)
    ensures (forall j :: t.phase.i <= j < |t.slots| ==> !Live(t.slots[j])) <==> Room(t)
  {
    var i := t.phase.i;
    if exists j :: i <= j < |t.slots| && Live(t.slots[j]) {
      var j :| i <= j < |t.slots| && Live(t.slots[j]);
      LiveMonotone(t.slots, i, j);
      LiveMonotone(t.slots, j, |t.slots|);
    } else {
      NoneLiveBehind(t.slots, i, |t.slots|);
    }
  }

  lemma {:induction false} NoneLiveBehind(slots: seq<Slot>, i: nat, k: nat)
    requires i <= k <= |slots| && forall j :: i <= j < k ==> !Live(slots[j])
    ensures LiveUpTo(slots, k) == LiveUpTo(slots, i)
  {
    if i < k { NoneLiveBehind(slots, i, k - 1); }
  }

  /**
   The step leaves room: the counter a scan begins with is not below the number
   of live slots, and a timer added during a scan goes where the scan has been
   already, or there is room for one more.
   */
  predicate LeavesRoom(t: Table, step: Step) {
    match step
    case Begin => t.phase.Ticked? ==> LiveCount(t.slots) == 0 || LiveCount(t.slots) <= t.iTimerCnt
    case AddSlot(id, m, constant) =>
      t.phase.Scanning? && t.phase.i <= id < |t.slots| && !Live(t.slots[id]) ==>
        |t.phase.met| + (LiveCount(t.slots) - LiveUpTo(t.slots, t.phase.i)) < t.phase.iCurCnt
    case _ => true
  }

  /** Those are the only steps that take it away, and they do whenever the condition fails. */
  lemma RoomKeptIff(t: Table, step: Step)
    requires Shaped(t) && ScanOk(t) && Room(t)
    ensures Room(Apply(t, step)) <==> LeavesRoom(t, step)
  {
    if t.phase.Scanning? {
      LiveMonotone(t.slots, t.phase.i, |t.slots|);
      match step
      case Scan => if GoesOn(t) { ScanKeepsRoom(t); }
      case AddSlot(id, m, constant) =>
        if id < |t.slots| { RoomAfterUpdate(t, id, Slot(0, m, constant, Ready)); }
      case DeleteSlot(id) => if 0 <= id < |t.slots| { RoomAfterUpdate(t, id, Freed(t.slots[id])); }
      case Handle(at) =>
        if IsQueued(t, at) { RoomAfterUpdate(t, t.queue[at], Freed(t.slots[t.queue[at]])); }
      case Count =>
      case Begin =>
      case End =>
      case AddCount =>
      case DeleteCount =>
    }
  }

  lemma RoomAfterUpdate(t: Table, k: nat, s: Slot)
    requires t.phase.Scanning? && t.phase.i <= |t.slots| && k < |t.slots|
    ensures var slots := t.slots[k := s];
            LiveCount(slots) - LiveUpTo(slots, t.phase.i) == LiveCount(t.slots) - LiveUpTo(t.slots, t.phase.i) +
              (if k < t.phase.i then 0 else (if Live(s) then 1 else 0) - (if Live(t.slots[k]) then 1 else 0))
    ensures LiveUpTo(t.slots[k := s], t.phase.i) <= LiveCount(t.slots[k := s])
  {
    LiveAfterUpdate(t.slots, k, s, t.phase.i);
    LiveAfterUpdate(t.slots, k, s, |t.slots|);
    LiveMonotone(t.slots[k := s], t.phase.i, |t.slots|);
  }

  lemma ScanKeepsRoom(t: Table)
    requires GoesOn(t) && Room(t)
    ensures Room(ScanSlot(t))
  {
    var i, s := t.phase.i, t.slots[t.phase.i];
    LiveAfterUpdate(t.slots, i, Advanced(s), i + 1);
    LiveAfterUpdate(t.slots, i, Advanced(s), |t.slots|);
    LiveMonotone(ScanSlot(t).slots, i + 1, |t.slots|);
  }

  // Runs in which no timer is missed or taken down twice -----------------------------------------

  /**
   No timer is set up in a slot in use or deleted while it is queued, no
   one-shot timer falls due again before it was handled, and scans have room
   for all live slots.
   */
  predicate Calm(t: Table, step: Step) {
    && Sensible(step) && LeavesRoom(t, step)
    && (step.AddSlot? && step.id < |t.slots| ==> !Live(t.slots[step.id]))
    && (step.DeleteSlot? && 0 <= step.slot < |t.slots| ==> Live(t.slots[step.slot]) && step.slot !in t.queue)
    && (step.Scan? && GoesOn(t) ==>
          var s := t.slots[t.phase.i];
          Live(s) && Due(s) && t.phase.i in t.queue ==> s.constant)
  }

  predicate QueueOk(t: Table)
    requires Shaped(t)
  {
    && (forall a :: 0 <= a < |t.queue| ==> Live(t.slots[t.queue[a]]))
    && (forall a, b :: 0 <= a < b < |t.queue| && t.queue[a] == t.queue[b] ==> t.slots[t.queue[a]].constant)
  }

  ghost predicate Inv(t: Table) {
    Shaped(t) && Exact(t) && QueueOk(t) && ScanOk(t) && Room(t)
  }

  lemma ScanKeepsQueue(t: Table)
    requires Shaped(t) && QueueOk(t) && GoesOn(t) && Calm(t, Scan) && Shaped(ScanSlot(t))
    ensures QueueOk(ScanSlot(t))
  {
    var t', i := ScanSlot(t), t.phase.i;
    forall a, b | 0 <= a < b < |t'.queue| && t'.queue[a] == t'.queue[b] ensures t'.slots[t'.queue[a]].constant {
      if a < |t.queue| <= b { assert t'.queue[a] in t.queue; }
    }
  }

  lemma OthersKeepQueue(t: Table, step: Step)
    requires Shaped(t) && QueueOk(t) && Calm(t, step) && !step.Scan? && Shaped(Apply(t, step))
    ensures QueueOk(Apply(t, step))
  {
    hide LeavesRoom, GoesOn, Exact;
    if step.Handle? && IsQueued(t, step.at) {
      var t' := Apply(t, step);
      forall a | 0 <= a < |t'.queue| ensures Live(t'.slots[t'.queue[a]]) {
        assert t'.queue[a] == t.queue[if a < step.at then a else a + 1];
      }
    }
  }

  lemma CalmStepKeepsInv(t: Table, step: Step)
    requires Inv(t) && Calm(t, step)
    ensures Inv(Apply(t, step)) && |Apply(t, step).slots| == |t.slots|
  {
    hide Exact, Room, LeavesRoom, ScanOk, ScanSlot;
    StepKeepsShape(t, step);
    StepKeepsScanOk(t, step);
    CountKeptIff(t, step);
    RoomKeptIff(t, step);
    if step.Scan? {
      if GoesOn(t) { ScanKeepsQueue(t); }
    } else {
      OthersKeepQueue(t, step);
    }
  }

  predicate CalmRun(t: Table, steps: seq<Step>)
    decreases |steps|
  {
    steps == [] ||
    (CalmRun(t, steps[..|steps| - 1]) && Calm(Run(t, steps[..|steps| - 1]), steps[|steps| - 1]))
  }

  /** At every point of a calm run the counter is exact, and a scan that ends has passed over no live slot. */
  lemma {:induction false} CalmRunKeepsInv(t: Table, steps: seq<Step>)
    requires Inv(t) && CalmRun(t, steps)
    ensures var u := Run(t, steps);
            && Inv(u) && |u.slots| == |t.slots|
            && (u.phase.Scanning? && !GoesOn(u) ==> forall j :: u.phase.i <= j < |u.slots| ==> !Live(u.slots[j]))
    decreases |steps|
  {
    hide Calm, Apply, GoesOn;
    if steps != [] {
      var before := steps[..|steps| - 1];
      CalmRunKeepsInv(t, before);
      CalmStepKeepsInv(Run(t, before), steps[|steps| - 1]);
    }
    var u := Run(t, steps);
    if u.phase.Scanning? && !GoesOn(u) { NoneMissedIffRoom(u); }
  }

  lemma {:induction false} NoneLive(n: nat, i: nat)
    requires i <= n
    ensures LiveUpTo(Start(n).slots, i) == 0
  {
    if i > 0 { NoneLive(n, i - 1); }
  }

  lemma StartIsOk(n: nat)
    ensures Inv(Start(n))
  {
    NoneLive(n, n);
  }

  // A constant timer ---------------------------------------------------------------------------

  /** The ticks whose scan has been at slot `i` by now. */
  function TurnsOf(t: Table, i: nat): int {
    t.iTimerTick - (if t.phase.Ticked? || (t.phase.Scanning? && t.phase.i <= i) then 1 else 0)
  }

  /** The slot of a constant timer of period `m` that has had `k` turns. */
  predicate HasHad(t: Table, i: nat, m: nat, k: int)
    requires m >= 1
  {
    i < |t.slots| && k >= 0 && t.slots[i] == Slot(k % m, m, true, Ready)
  }

  /** The number of times slot `i` was put into the queue. */
  function TimesQueued(t: Table, i: nat): nat {
    multiset(t.history)[i]
  }

  lemma ConstantScan(t: Table, i: nat, m: nat, k: int)
    requires GoesOn(t) && m >= 1 && HasHad(t, i, m, k)
    ensures var t', k' := ScanSlot(t), if t.phase.i == i then k + 1 else k;
            HasHad(t', i, m, k') && TimesQueued(t', i) + k / m == TimesQueued(t, i) + k' / m
  {
    if t.phase.i == i { NextModulo(k, m); }
  }

  lemma ConstantOtherwise(t: Table, step: Step, i: nat, m: nat, k: int)
    requires Calm(t, step) && step != DeleteSlot(i) && !step.Scan? && m >= 1 && HasHad(t, i, m, k)
    ensures HasHad(Apply(t, step), i, m, k) && Apply(t, step).history == t.history
  {
    hide LeavesRoom, GoesOn;
  }

  lemma TurnsMove(t: Table, step: Step, i: nat)
    requires step.End? && t.phase.Scanning? && !GoesOn(t) ==> i < t.phase.i
    ensures TurnsOf(Apply(t, step), i) - TurnsOf(t, i) ==
              if step.Scan? && GoesOn(t) && t.phase.i == i then 1 else 0
  {}

  /** One step of the run as that slot sees it. */
  lemma ConstantStep(t: Table, step: Step, i: nat, m: nat, k: int)
    requires Inv(t) && Calm(t, step) && step != DeleteSlot(i) && m >= 1 && HasHad(t, i, m, k)
    ensures var t' := Apply(t, step);
            var k' := k + TurnsOf(t', i) - TurnsOf(t, i);
            HasHad(t', i, m, k') && TimesQueued(t', i) + k / m == TimesQueued(t, i) + k' / m
  {
    hide TurnsOf, Calm, ScanSlot, TimesQueued, Room, Exact, Shaped;
    if step.End? && t.phase.Scanning? && !GoesOn(t) { NoneMissedIffRoom(t); }
    TurnsMove(t, step, i);
    if step.Scan? {
      if GoesOn(t) { ConstantScan(t, i, m, k); }
    } else {
      ConstantOtherwise(t, step, i, m, k);
      SameTimes(t, Apply(t, step), i);
    }
  }

  lemma SameTimes(t: Table, u: Table, i: nat)
    requires u.history == t.history
    ensures TimesQueued(u, i) == TimesQueued(t, i)
  {}

  /**
   A constant timer of period `m` is queued at every `m`-th turn: after `k`
   turns it has been queued `k / m` times. Between scans its turns are the ticks.
   */
  lemma {:induction false} ConstantTimerPeriod(t: Table, steps: seq<Step>, i: nat, m: nat, k: nat)
    requires Inv(t) && CalmRun(t, steps) && DeleteSlot(i) !in steps && m >= 1 && HasHad(t, i, m, k)
    ensures var u := Run(t, steps);
            var k' := k + TurnsOf(u, i) - TurnsOf(t, i);
            HasHad(u, i, m, k') && TimesQueued(u, i) == TimesQueued(t, i) + k' / m - k / m
    ensures t.phase.Sleeping? && Run(t, steps).phase.Sleeping? ==>
              TurnsOf(Run(t, steps), i) - TurnsOf(t, i) == Run(t, steps).iTimerTick - t.iTimerTick
    decreases |steps|
  {
    hide Inv, Calm, Apply;
    if steps != [] {
      var before := steps[..|steps| - 1];
      ConstantTimerPeriod(t, before, i, m, k);
      CalmRunKeepsInv(t, before);
      var u := Run(t, before);
      ConstantStep(u, steps[|steps| - 1], i, m, k + TurnsOf(u, i) - TurnsOf(t, i));
    }
  }

  /** A new timer has had no turns. */
  lemma NewTimer(t: Table, i: nat, m: nat)
    requires m >= 1 && i < |t.slots| && t.slots[i] == Slot(0, m, true, Ready)
    ensures HasHad(t, i, m, 0) && 0 / m == 0
  {
    Remainder(0, 0, m);
  }

  // Any timer up to its first queueing -----------------------------------------------------------

  /** A timer of period `m`, one-shot or constant, that has had `k` turns and was not queued yet. */
  predicate Pending(t: Table, i: nat, m: nat, k: int) {
    && i < |t.slots| && i !in t.queue && 0 <= k < m
    && t.slots[i].status == Ready && t.slots[i].iTick == k && t.slots[i].iMSecond == m
  }

  lemma PendingScan(t: Table, i: nat, m: nat, k: int)
    requires GoesOn(t) && Pending(t, i, m, k)
    ensures var t', k' := ScanSlot(t), if t.phase.i == i then k + 1 else k;
            if k' < m then Pending(t', i, m, k') && TimesQueued(t', i) == TimesQueued(t, i)
            else k' == m && t'.queue == t.queue + [i] && TimesQueued(t', i) == TimesQueued(t, i) + 1
  {}

  lemma PendingOtherwise(t: Table, step: Step, i: nat, m: nat, k: int)
    requires Calm(t, step) && step != DeleteSlot(i) && !step.Scan? && Pending(t, i, m, k)
    ensures Pending(Apply(t, step), i, m, k) && Apply(t, step).history == t.history
  {
    hide LeavesRoom, GoesOn;
  }

  lemma PendingStep(t: Table, step: Step, i: nat, m: nat, k: int)
    requires Inv(t) && Calm(t, step) && step != DeleteSlot(i) && Pending(t, i, m, k)
    ensures var t' := Apply(t, step);
            var k' := k + TurnsOf(t', i) - TurnsOf(t, i);
            if k' < m then Pending(t', i, m, k') && TimesQueued(t', i) == TimesQueued(t, i)
            else k' == m && t'.queue == t.queue + [i] && TimesQueued(t', i) == TimesQueued(t, i) + 1
  {
    hide TurnsOf, Calm, ScanSlot, TimesQueued, Room, Exact, Shaped;
    if step.End? && t.phase.Scanning? && !GoesOn(t) { NoneMissedIffRoom(t); }
    TurnsMove(t, step, i);
    if step.Scan? {
      if GoesOn(t) { PendingScan(t, i, m, k); }
    } else {
      PendingOtherwise(t, step, i, m, k);
      SameTimes(t, Apply(t, step), i);
    }
  }

  lemma NeverFewer(t: Table, step: Step, i: nat)
    ensures TimesQueued(Apply(t, step), i) >= TimesQueued(t, i) && TurnsOf(Apply(t, step), i) >= TurnsOf(t, i)
  {}

  /**
   A timer of period `m` is queued for the first time at its `m`-th turn: not
   before, and by then for sure. A one-shot timer runs to its handling that way.
   */
  lemma {:induction false} FirstQueuedAtPeriod(t: Table, steps: seq<Step>, i: nat, m: nat, k: int)
    requires Inv(t) && CalmRun(t, steps) && DeleteSlot(i) !in steps && Pending(t, i, m, k)
    ensures var u := Run(t, steps);
            var k' := k + TurnsOf(u, i) - TurnsOf(t, i);
            if k' < m then Pending(u, i, m, k') && TimesQueued(u, i) == TimesQueued(t, i)
            else TimesQueued(u, i) > TimesQueued(t, i)
    decreases |steps|
  {
    hide Inv, Calm, Apply, TurnsOf, TimesQueued;
    if steps != [] {
      var before, step := steps[..|steps| - 1], steps[|steps| - 1];
      FirstQueuedAtPeriod(t, before, i, m, k);
      CalmRunKeepsInv(t, before);
      var u := Run(t, before);
      var k' := k + TurnsOf(u, i) - TurnsOf(t, i);
      if k' < m { PendingStep(u, step, i, m, k'); } else { NeverFewer(u, step, i); }
    }
  }

  // What was queued is handled once ---------------------------------------------------------------

  /** The slots whose handling a run completes, as often as it does. */
  ghost function HandledIn(t: Table, steps: seq<Step>): multiset<nat>
    decreases |steps|
  {
    if steps == [] then multiset{}
    else
      var u, step := Run(t, steps[..|steps| - 1]), steps[|steps| - 1];
      HandledIn(t, steps[..|steps| - 1])
      + (if step.Handle? && IsQueued(u, step.at) then multiset{u.queue[step.at]} else multiset{})
  }

  lemma TakenOut(q: seq<nat>, k: nat)
    requires k < |q|
    ensures multiset(q) == multiset(Without(q, k)) + multiset{q[k]}
  {
    assert q == q[..k] + ([q[k]] + q[k + 1..]);
  }

  /** What a step puts into the queue. */
  ghost function FiredBy(t: Table, step: Step): seq<nat> {
    if step.Scan? && GoesOn(t) && Live(t.slots[t.phase.i]) && Due(t.slots[t.phase.i]) then [t.phase.i] else []
  }

  lemma QueueIs(t: Table, step: Step)
    ensures var u := Apply(t, step);
            if step.Handle? && IsQueued(t, step.at) then
              u.history == t.history && u.queue == Without(t.queue, step.at)
            else
              u.history == t.history + FiredBy(t, step) && u.queue == t.queue + FiredBy(t, step)
  {}

  lemma BothGrow(h: seq<nat>, q: seq<nat>, f: seq<nat>)
    ensures multiset(h + f) + multiset(q) == multiset(h) + multiset(q + f) + multiset{}
  {}

  lemma QueueStep(t: Table, step: Step)
    ensures var u := Apply(t, step);
            multiset(u.history) + multiset(t.queue) ==
            multiset(t.history) + multiset(u.queue)
            + (if step.Handle? && IsQueued(t, step.at) then multiset{t.queue[step.at]} else multiset{})
  {
    hide Apply, FiredBy, Without;
    QueueIs(t, step);
    if step.Handle? && IsQueued(t, step.at) {
      TakenOut(t.queue, step.at);
    } else {
      BothGrow(t.history, t.queue, FiredBy(t, step));
    }
  }

  lemma Balance(h: multiset<nat>, q: multiset<nat>, d: multiset<nat>, h': multiset<nat>, q': multiset<nat>,
                x: multiset<nat>)
    requires h == q + d && h' + q == h + q' + x
    ensures h' == q' + (d + x)
  {
    forall i: nat | i in h' + q + d + q' + x ensures h'[i] == (q' + (d + x))[i] {
      assert (h' + q)[i] == (h + q' + x)[i];
    }
  }

  /** Over every run, what was ever queued is in the queue or was handled, as often as it was queued. */
  lemma {:induction false} QueueConserved(n: nat, steps: seq<Step>)
    ensures var u := Run(Start(n), steps); multiset(u.history) == multiset(u.queue) + HandledIn(Start(n), steps)
    decreases |steps|
  {
    hide Apply;
    if steps != [] {
      var before, step := steps[..|steps| - 1], steps[|steps| - 1];
      var t := Run(Start(n), before);
      var u := Apply(t, step);
      QueueConserved(n, before);
      QueueStep(t, step);
      Balance(multiset(t.history), multiset(t.queue), HandledIn(Start(n), before), multiset(u.history),
              multiset(u.queue),
              if step.Handle? && IsQueued(t, step.at) then multiset{t.queue[step.at]} else multiset{});
    }
  }
}
