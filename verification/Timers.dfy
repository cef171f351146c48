/**
 The timer as its threads run it: the slots in an array, changed in place, one
 method for each section under a mutex, and the functions made of them, during
 which other threads take their steps.
 */
module Timers {
  import opened DivMod
  import opened TimerRuns
  import opened TimerTable

  /** A step of a thread that adds, deletes or completes timers. */
  predicate ByOthers(step: Step) {
    !step.Count? && !step.Begin? && !step.Scan? && !step.End?
  }

  // The steps of a function, with those of the other threads before each of its own ----------------------

  ghost function Lead(others: nat -> seq<Step>): seq<Step> {
    others(0) + [Count] + others(1) + [Begin]
  }

  ghost function Rounds(others: nat -> seq<Step>, n: nat): seq<Step> {
    if n == 0 then [] else Rounds(others, n - 1) + others(n + 1) + [Scan]
  }

  /** One tick: count, read the counter, `n` slots, and asleep again. */
  ghost function TickSteps(others: nat -> seq<Step>, n: nat): seq<Step> {
    Lead(others) + Rounds(others, n) + [End]
  }

  /** The loop of the scan goes on at each of the first `n` slots. */
  ghost predicate GoesRounds(t: Table, others: nat -> seq<Step>, n: nat) {
    forall k: nat :: k < n ==> GoesOn(Run(t, Lead(others) + Rounds(others, k) + others(k + 2)))
  }

  /** The looks of an add at the first `n` slots. */
  ghost function Looks(others: nat -> seq<Step>, n: nat): seq<Step> {
    if n == 0 then [] else Looks(others, n - 1) + others(2 * (n - 1))
  }

  ghost function Taking(id: nat, iMSecond: int, constant: bool, before: seq<Step>, between: seq<Step>): seq<Step> {
    before + [AddSlot(id, iMSecond, constant)] + between + [AddCount]
  }

  /** An add that takes slot `id` of `n`. */
  ghost function AddSteps(others: nat -> seq<Step>, id: nat, iMSecond: int, constant: bool, n: nat): seq<Step> {
    Looks(others, id + 1) + Taking(id, iMSecond, constant, others(2 * id + 1), others(2 * n))
  }

  /** Slot `k` was free when the add looked at it. */
  ghost predicate FreeWhenSeen(t: Table, others: nat -> seq<Step>, k: nat) {
    var u := Run(t, Looks(others, k + 1));
    k < |u.slots| && u.slots[k].iMSecond == -1
  }

  lemma NoRounds(others: nat -> seq<Step>)
    ensures Lead(others) == Lead(others) + Rounds(others, 0) && forall t :: GoesRounds(t, others, 0)
  {}

  lemma TickIs(others: nat -> seq<Step>, n: nat)
    ensures TickSteps(others, n) == Lead(others) + Rounds(others, n) + [End]
  {}

  lemma InTheLoop(t: Table, i: nat)
    requires t.phase.Scanning? && t.phase.i == i < |t.slots| && |t.phase.met| < t.phase.iCurCnt
    ensures GoesOn(t)
  {}

  lemma LoopLeft(t: Table)
    requires t.phase.Scanning? && !(t.phase.i < |t.slots| && |t.phase.met| < t.phase.iCurCnt)
    ensures !GoesOn(t)
  {}

  lemma RoundSeen(t: Table, others: nat -> seq<Step>, k: nat, steps: seq<Step>)
    requires steps == Lead(others) + Rounds(others, k) + others(k + 2)
    requires GoesRounds(t, others, k) && GoesOn(Run(t, steps))
    ensures GoesRounds(t, others, k + 1)
  {
    hide Run, GoesOn;
  }

  lemma OneMoreRound(others: nat -> seq<Step>, n: nat)
    ensures Lead(others) + Rounds(others, n) + others(n + 2) + [Scan] == Lead(others) + Rounds(others, n + 1)
  {
    hide Lead;
  }

  lemma NoLooks(t: Table, others: nat -> seq<Step>)
    ensures Looks(others, 0) == [] && Run(t, Looks(others, 0)) == t
  {}

  lemma OneMoreLook(others: nat -> seq<Step>, n: nat)
    ensures Looks(others, n + 1) == Looks(others, n) + others(2 * n)
  {}

  /** The first free slot from `i` on. */
  function FirstFree(slots: seq<Slot>, i: nat): (k: nat)
    requires i <= |slots|
    ensures i <= k <= |slots| && (k < |slots| ==> slots[k].iMSecond == -1)
    ensures forall j :: i <= j < k ==> slots[j].iMSecond != -1
    decreases |slots| - i
  {
    if i == |slots| || slots[i].iMSecond == -1 then i else FirstFree(slots, i + 1)
  }

  class Timer {
    const slots: array<Slot>
    var iTimerCnt: int
    var iTimerTick: nat
    var queue: seq<nat>
    ghost var adding: int
    ghost var removing: int
    ghost var phase: Phase
    ghost var history: seq<nat>

    /** `ml_create_timer`, as far as the table goes. */
    constructor (iTimerNum: nat)
      ensures Abstract() == Start(iTimerNum) && fresh(slots)
    {
      slots := new Slot[iTimerNum](_ => FREE);
      iTimerCnt, iTimerTick, queue, adding, removing, phase, history := 0, 0, [], 0, 0, Sleeping, [];
      new;
      assert slots[..] == Start(iTimerNum).slots;
    }

    ghost function Abstract(): Table
      reads this, slots
    {
      Table(slots[..], iTimerCnt, iTimerTick, phase, adding, removing, queue, history)
    }

    /** `ml_increase_count` */
    method IncreaseCount()
      requires phase.Sleeping?
      modifies `iTimerTick, `phase
      ensures Abstract() == Apply(old(Abstract()), Count) && phase == Ticked && iTimerTick == old(iTimerTick) + 1
    {
      iTimerTick := iTimerTick + 1;
      phase := Ticked;
    }

    /** The first section of `ml_check_timer`. */
    method BeginScan() returns (iCurCnt: int, iNum: nat)
      requires phase.Ticked?
      modifies `phase
      ensures Abstract() == Apply(old(Abstract()), Begin)
      ensures iCurCnt == iTimerCnt && iNum == slots.Length && phase == Scanning(0, [], iCurCnt)
    {
      iCurCnt, iNum := iTimerCnt, slots.Length;
      phase := Scanning(0, [], iCurCnt);
    }

    /** The section `ml_check_timer` enters for slot `i`; `live` says whether it counts. */
    method CheckSlot(i: nat) returns (live: bool)
      requires GoesOn(Abstract()) && phase.i == i
      modifies `queue, `history, `phase, slots
      ensures Abstract() == Apply(old(Abstract()), Scan) && live == Live(old(slots[i]))
      ensures phase == Scanning(i + 1, old(phase.met) + if live then [i] else [], old(phase.iCurCnt))
    {
      var s := slots[i];
      live := s.status != Idle;
      if live {
        s := s.(iTick := s.iTick + 1);
        if s.iTick == s.iMSecond {
          s := s.(iTick := 0);
          queue := queue + [i];
          history := history + [i];
        }
        slots[i] := s;
      }
      assert phase.met + [] == phase.met;
      phase := phase.(i := i + 1, met := if live then phase.met + [i] else phase.met);
    }

    /** The section of `ml_add_timer` that writes the slot it found. */
    method SetUpSlot(id: nat, iMSecond: int, constant: bool)
      requires id < slots.Length
      modifies `adding, slots
      ensures Abstract() == Apply(old(Abstract()), AddSlot(id, iMSecond, constant))
    {
      slots[id] := Slot(0, iMSecond, constant, Ready);
      adding := adding + 1;
    }

    /** The section of `ml_add_timer` that counts it. */
    method CountAdded()
      modifies `adding, `iTimerCnt
      ensures Abstract() == Apply(old(Abstract()), AddCount)
    {
      iTimerCnt := iTimerCnt + 1;
      adding := adding - 1;
    }

    /** `__ml_del_timer` */
    method FreeSlot(i: nat)
      requires i < slots.Length
      modifies `removing, slots
      ensures Abstract() == Apply(old(Abstract()), DeleteSlot(i))
    {
      slots[i] := slots[i].(status := Idle, iMSecond := -1);
      removing := removing + 1;
    }

    /** `ml_decrease_count` */
    method DecreaseCount()
      modifies `removing, `iTimerCnt
      ensures Abstract() == Apply(old(Abstract()), DeleteCount)
    {
      iTimerCnt := iTimerCnt - 1;
      removing := removing - 1;
    }

    /** `ml_handle_timer` on a slot in the queue, behind `func` and up to `ml_decrease_count`. */
    method HandleTimer(at: nat)
      requires at < |queue| && queue[at] < slots.Length
      modifies `queue, `removing, slots
      ensures Abstract() == Apply(old(Abstract()), Handle(at))
    {
      var i := queue[at];
      queue := queue[..at] + queue[at + 1..];
      if !slots[i].constant { FreeSlot(i); }
    }

    /** One step of another thread. */
    method Perform(step: Step)
      requires ByOthers(step)
      modifies this, slots
      ensures Abstract() == Apply(old(Abstract()), step) && phase == old(phase)
    {
      match step
      case AddSlot(id, m, constant) => if id < slots.Length { SetUpSlot(id, m, constant); }
      case AddCount => CountAdded();
      case DeleteSlot(id) => if 0 <= id < slots.Length { FreeSlot(id); }
      case Handle(at) => if at < |queue| && queue[at] < slots.Length { HandleTimer(at); }
      case DeleteCount => DecreaseCount();
    }

    /** What the other threads do until this one has its next mutex. */
    method Wait(steps: seq<Step>)
      requires forall k :: 0 <= k < |steps| ==> ByOthers(steps[k])
      modifies this, slots
      ensures Abstract() == Run(old(Abstract()), steps) && phase == old(phase) && iTimerTick == old(iTimerTick)
    {
      for j := 0 to |steps|
        invariant Abstract() == Run(old(Abstract()), steps[..j]) && phase == old(phase)
        invariant iTimerTick == old(iTimerTick)
      {
        Perform(steps[j]);
        assert steps[..j + 1][..j] == steps[..j];
      }
      assert steps[..|steps|] == steps;
    }

    /** `ml_increase_count` and the head of `ml_check_timer`. */
    method StartTick(others: nat -> seq<Step>) returns (iCurCnt: int, iNum: nat)
      requires phase.Sleeping?
      requires forall k: nat, j :: 0 <= j < |others(k)| ==> ByOthers(others(k)[j])
      modifies this, slots
      ensures Abstract() == Run(old(Abstract()), Lead(others))
      ensures phase == Scanning(0, [], iCurCnt) && iNum == slots.Length && iTimerTick == old(iTimerTick) + 1
      ensures others(0) == others(1) == [] ==> Abstract() == Apply(Apply(old(Abstract()), Count), Begin)
    {
      hide Run, Apply;
      ghost var was := Abstract();
      RunNothing(was);
      Wait(others(0));
      ghost var steps := After(was, others(0), [Count]);
      IncreaseCount();
      RunNothing(Abstract());
      steps := After(was, steps, others(1));
      Wait(others(1));
      steps := After(was, steps, [Begin]);
      iCurCnt, iNum := BeginScan();
    }

    /**
     `ml_increase_count` and `ml_check_timer`, with its early exit. Before its
     k-th section the other threads take the steps `others(k)`; `rounds` is how
     often it goes round its loop.
     */
    method CheckTimer(others: nat -> seq<Step>) returns (ghost rounds: nat)
      requires phase.Sleeping?
      requires forall k: nat, j :: 0 <= j < |others(k)| ==> ByOthers(others(k)[j])
      modifies this, slots
      ensures Abstract() == Run(old(Abstract()), TickSteps(others, rounds))
      ensures GoesRounds(old(Abstract()), others, rounds)
      ensures phase.Sleeping? && iTimerTick == old(iTimerTick) + 1
      ensures (forall k: nat :: others(k) == []) ==> Abstract() == Tick(old(Abstract()))
    {
      hide Run, Apply, Tick, ScanRest, ScanSlot, Rounds, GoesRounds, Lead, TickSteps, GoesOn;
      ghost var was, quiet := Abstract(), forall k: nat :: others(k) == [];
      var iCurCnt, iNum := StartTick(others);
      ghost var steps, begun := Lead(others), Abstract();
      NoRounds(others);
      var i, iCnt := 0, 0;
      while i < iNum && iCnt < iCurCnt
        invariant i <= iNum == slots.Length && iTimerTick == old(iTimerTick) + 1
        invariant phase.Scanning? && phase.i == i && |phase.met| == iCnt && phase.iCurCnt == iCurCnt
        invariant Abstract() == Run(was, steps) && steps == Lead(others) + Rounds(others, i)
        invariant GoesRounds(was, others, i)
        invariant quiet ==> ScanRest(Abstract()) == ScanRest(begun)
      {
        RunNothing(Abstract());
        Wait(others(i + 2));
        steps := After(was, steps, others(i + 2));
        InTheLoop(Abstract(), i);
        RoundSeen(was, others, i, steps);
        OneRound(Abstract());
        var live := CheckSlot(i);
        steps := After(was, steps, [Scan]);
        OneMoreRound(others, i);
        if live { iCnt := iCnt + 1; }
        i := i + 1;
      }
      LoopLeft(Abstract());
      RoundsEnd(Abstract());
      phase := Sleeping;
      steps := After(was, steps, [End]);
      rounds := i;
      TickIs(others, rounds);
      if quiet { TickInSteps(was, begun); }
    }

    /** The two sections of `ml_add_timer` for the slot it has found. */
    method TakeSlot(id: nat, iMSecond: int, constant: bool, before: seq<Step>, between: seq<Step>)
      requires id < slots.Length
      requires forall k :: 0 <= k < |before| ==> ByOthers(before[k])
      requires forall k :: 0 <= k < |between| ==> ByOthers(between[k])
      modifies this, slots
      ensures Abstract() == Run(old(Abstract()), Taking(id, iMSecond, constant, before, between))
    {
      hide Run, Apply;
      ghost var was := Abstract();
      Wait(before);
      ghost var steps := After(was, before, [AddSlot(id, iMSecond, constant)]);
      SetUpSlot(id, iMSecond, constant);
      steps := After(was, steps, between);
      Wait(between);
      steps := After(was, steps, [AddCount]);
      CountAdded();
    }

    /**
     `ml_add_timer`, which fails when it finds no slot free. Before it looks at
     slot k the other threads take the steps `others(2 * k)`, and before it
     enters that slot `others(2 * k + 1)`; the last ones come before it counts.
     */
    method AddTimer(iMSecond: int, constant: bool, others: nat -> seq<Step>) returns (ok: bool, id: nat)
      requires forall k: nat, j :: 0 <= j < |others(k)| ==> ByOthers(others(k)[j])
      modifies this, slots
      ensures if ok then id < slots.Length else id == slots.Length
      ensures forall k: nat :: k < id ==> !FreeWhenSeen(old(Abstract()), others, k)
      ensures ok ==> FreeWhenSeen(old(Abstract()), others, id)
      ensures Abstract() == Run(old(Abstract()),
        if ok then AddSteps(others, id, iMSecond, constant, slots.Length) else Looks(others, id))
      ensures (forall k: nat :: others(k) == []) ==> id == FirstFree(old(slots[..]), 0)
    {
      hide Run, Apply, Looks, Taking;
      ghost var was, quiet, steps := Abstract(), forall k: nat :: others(k) == [], Looks(others, 0);
      NoLooks(was, others);
      id := 0;
      while id < slots.Length
        invariant id <= slots.Length && steps == Looks(others, id) && Abstract() == Run(was, steps)
        invariant forall k: nat :: k < id ==> !FreeWhenSeen(was, others, k)
        invariant quiet ==> slots[..] == old(slots[..])
        invariant quiet ==> FirstFree(old(slots[..]), id) == FirstFree(old(slots[..]), 0)
      {
        OneMoreLook(others, id);
        RunNothing(Abstract());
        Wait(others(2 * id));
        steps := After(was, steps, others(2 * id));
        if slots[id].iMSecond == -1 {
          TakeSlot(id, iMSecond, constant, others(2 * id + 1), others(2 * slots.Length));
          steps := After(was, steps, Taking(id, iMSecond, constant, others(2 * id + 1), others(2 * slots.Length)));
          return true, id;
        }
        id := id + 1;
      }
      ok := false;
    }

    /** `ml_del_timer`; the other threads' steps come before and between its two sections. */
    method DelTimer(iTimerID: int, before: seq<Step>, between: seq<Step>)
      requires forall k :: 0 <= k < |before| ==> ByOthers(before[k])
      requires forall k :: 0 <= k < |between| ==> ByOthers(between[k])
      modifies this, slots
      ensures Abstract() == Run(old(Abstract()),
        if 0 <= iTimerID < slots.Length then before + [DeleteSlot(iTimerID)] + between + [DeleteCount] else before)
    {
      hide Run, Apply;
      ghost var was := Abstract();
      Wait(before);
      if iTimerID >= slots.Length || iTimerID < 0 { return; }
      FreeSlot(iTimerID);
      ghost var steps := After(was, before, [DeleteSlot(iTimerID)]);
      Wait(between);
      steps := After(was, steps, between);
      DecreaseCount();
      steps := After(was, steps, [DeleteCount]);
    }
  }

  lemma RunNothing(t: Table)
    ensures Run(t, []) == t
  {}

  lemma OneRound(t: Table)
    requires GoesOn(t)
    ensures ScanRest(t) == ScanRest(Apply(t, Scan))
  {}

  lemma RoundsEnd(t: Table)
    requires t.phase.Scanning? && !GoesOn(t)
    ensures ScanRest(t) == t && Apply(t, End) == t.(phase := Sleeping)
  {}

  lemma TickInSteps(t: Table, begun: Table)
    requires begun == Apply(Apply(t, Count), Begin)
    ensures Tick(t) == Apply(ScanRest(begun), End)
  {}

  /** The steps so far and then some more. */
  function After(t: Table, steps: seq<Step>, more: seq<Step>): (all: seq<Step>)
    ensures Run(t, all) == Run(Run(t, steps), more)
    ensures |more| == 1 ==> Run(t, all) == Apply(Run(t, steps), more[0])
  {
    RunJoin(t, steps, more);
    assert |more| == 1 ==> more[..0] == [];
    steps + more
  }

  /**
   A tick of a constant timer of period `m`, whatever else calmly goes on in it,
   is one turn, and puts the timer into the queue every `m`-th time.
   */
  lemma CalmTick(t: Table, others: nat -> seq<Step>, rounds: nat, i: nat, m: nat, k: nat)
    requires Inv(t) && t.phase.Sleeping? && m >= 1 && HasHad(t, i, m, k)
    requires CalmRun(t, TickSteps(others, rounds)) && DeleteSlot(i) !in TickSteps(others, rounds)
    requires var u := Run(t, TickSteps(others, rounds)); u.phase.Sleeping? && u.iTimerTick == t.iTimerTick + 1
    ensures var u := Run(t, TickSteps(others, rounds));
            && Inv(u) && HasHad(u, i, m, k + 1)
            && TimesQueued(u, i) == TimesQueued(t, i) + if (k + 1) % m == 0 then 1 else 0
  {
    hide Inv, CalmRun, TickSteps, Run, HasHad, TurnsOf, TimesQueued;
    CalmRunKeepsInv(t, TickSteps(others, rounds));
    ConstantTimerPeriod(t, TickSteps(others, rounds), i, m, k);
    NextModulo(k, m);
  }
}
