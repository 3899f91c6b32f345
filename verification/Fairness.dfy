// The shares of processor time that the stride cooldowns of
// src/scheduling/scheduler.c give: the visits of the selection loop to the head
// of the ready queue turn a wheel, over any number of ticks, as long as the
// runnable threads stay the same.
module Fairness {
  import opened Lists
  import opened Threads
  import opened Scheduler
  import Wheels

  // A point of a run: between ticks, or between two turns inside a tick.
  datatype Moment = Moment(s: State, inTick: bool)

  // The runnable threads in the order in which they will be looked at.
  function Ring(m: Moment): seq<nat> {
    if m.inTick || m.s.current == 0 then m.s.queue else m.s.queue + [m.s.current]
  }

  ghost predicate Runnable(s: State, t: nat) {
    t in s.threads && !s.threads[t].zombie && s.threads[t].cooldown < Stride(s.threads[t].priority)
  }

  ghost predicate AllRunnable(s: State, q: seq<nat>) {
    q != [] && forall t :: t in q ==> Runnable(s, t)
  }

  ghost predicate NoneTermed(s: State) {
    forall t :: t in s.threads ==> !s.threads[t].state.Termed?
  }

  // Some threads are runnable, and all of them stay so.
  ghost predicate Fair(m: Moment) {
    && (if m.inTick then Choosing(m.s) else Good(m.s))
    && AllRunnable(m.s, Ring(m)) && NoneTermed(m.s)
  }

  ghost function WheelOf(s: State, q: seq<nat>): Wheels.Wheel
    requires AllRunnable(s, q)
  {
    Wheels.Wheel(q, map t | t in q :: s.threads[t].cooldown, map t | t in q :: Stride(s.threads[t].priority))
  }

  ghost function Start(m: Moment): State {
    if m.inTick then m.s else Enter(m.s)
  }

  // Starting a tick makes the ring the queue.
  lemma StartFacts(m: Moment)
    requires Fair(m)
    ensures Fair(Moment(Start(m), true)) && Closed(Start(m)) && Start(m).queue == Ring(m)
    ensures WheelOf(Start(m), Ring(m)) == WheelOf(m.s, Ring(m))
  {
    if !m.inTick {
      EnterFacts(m.s);
      EnterQueue(m.s);
    }
  }

  // Only cooldowns, priorities and zombie marks matter for the wheel.
  ghost predicate Alike(a: State, b: State) {
    a.threads.Keys == b.threads.Keys &&
    forall t :: t in a.threads ==> a.threads[t].(state := b.threads[t].state) == b.threads[t]
  }

  lemma AlikeWheel(a: State, b: State, q: seq<nat>)
    requires AllRunnable(a, q) && Alike(a, b)
    ensures AllRunnable(b, q) && WheelOf(a, q) == WheelOf(b, q)
  {
    forall t | t in q
      ensures Runnable(b, t) && a.threads[t].cooldown == b.threads[t].cooldown &&
        a.threads[t].priority == b.threads[t].priority
    {
      assert Runnable(a, t);
    }
  }

  lemma EnterQueue(s: State)
    requires Good(s) && AllRunnable(s, Ring(Moment(s, false))) && NoneTermed(s)
    ensures var q := Ring(Moment(s, false));
      Enter(s).queue == q && AllRunnable(Enter(s), q) && NoneTermed(Enter(s)) && WheelOf(Enter(s), q) == WheelOf(s, q)
  {
    EnterAlike(s);
    AlikeWheel(s, Enter(s), Ring(Moment(s, false)));
  }

  lemma EnterAlike(s: State)
    requires Good(s) && NoneTermed(s)
    ensures Alike(s, Enter(s)) && Enter(s).queue == Ring(Moment(s, false)) && NoneTermed(Enter(s))
  {
    hide ThreadsOk, NoDup;
  }

  // One look at the head of the queue, with the clean_up that follows a dispatch.
  ghost function Visit(m: Moment): Moment
    requires Closed(Start(m))
  {
    var (s1, v) := Turn(Start(m));
    if v.Again? then Moment(s1, true) else AfterClean(s1)
  }

  function AfterClean(s: State): Moment {
    Moment(CleanUp(s, |s.table|), false)
  }

  // The thread that this visit dispatches, 0 if it does not.
  ghost function Chosen(m: Moment): nat
    requires Closed(Start(m))
  {
    var v := Turn(Start(m)).1;
    if v.Dispatched? then v.thread else 0
  }

  lemma {:induction false} NothingToClean(s: State, n: nat)
    requires n <= |s.table| && NoneTermed(s)
    ensures CleanUp(s, n) == s
  {
    if n > 0 {
      NothingToClean(s, n - 1);
    }
  }

  // The cooldown of the thread at the head after a look at it.
  function Cooled(th: Thread): nat {
    if th.cooldown > 0 then th.cooldown - 1 else Stride(th.priority) - 1
  }

  // A turn inside a fair stretch, spelled out.
  ghost function Turned(s: State): Moment
    requires s.queue != [] && s.queue[0] in s.threads
  {
    var t, q := s.queue[0], s.queue[1..];
    var th := s.threads[t];
    var th1 := th.(cooldown := Cooled(th));
    if th.cooldown > 0 then Moment(s.(threads := s.threads[t := th1], queue := q + [t]), true)
    else Moment(s.(threads := s.threads[t := th1.(state := Running)], queue := q, current := t), false)
  }

  lemma HeadTurn(s: State, t: nat)
    requires Closed(s) && s.queue != [] && s.queue[0] == t && t != 0 && t in s.threads
    requires !s.threads[t].zombie && s.threads[t].state.Ready? && (s.threads[t].ring3 ==> s.threads[t].kernelStack)
    ensures Turn(s) == (Turned(s).s, if s.threads[t].cooldown > 0 then Again else Dispatched(t))
  {
    assert DropZombies(s.threads, s.queue) == s.queue;
  }

  // A turn of the selection loop is a turn of the wheel.
  lemma TurnedWheel(s: State, t: nat)
    requires AllRunnable(s, s.queue) && NoDup(s.queue) && t == s.queue[0] != 0
    ensures t in s.threads && Wheels.Round(WheelOf(s, s.queue))
    ensures var m := Turned(s);
      && Ring(m) == s.queue[1..] + [t] && AllRunnable(m.s, Ring(m))
      && WheelOf(m.s, Ring(m)) == Wheels.Spin(WheelOf(s, s.queue))
  {
    hide NoDup;
    assert Runnable(s, t);
    TurnedRunnable(s, t);
    var m := Turned(s);
    RingMembers(s.queue, Ring(m));
    hide Turned;
    assert forall x :: x in s.queue ==> Runnable(s, x);
    TurnedStates(s, t);
    CooledWheel(s, s.queue, m.s, Ring(m), t);
  }

  lemma TurnedStates(s: State, t: nat)
    requires s.queue != [] && t == s.queue[0] && t in s.threads
    ensures Turned(s).s.threads.Keys == s.threads.Keys
    ensures forall x :: x in s.threads ==> var th := Turned(s).s.threads[x];
      th.priority == s.threads[x].priority &&
      th.cooldown == if x == t then Cooled(s.threads[x]) else s.threads[x].cooldown
  {
  }

  lemma CooledWheel(s: State, q: seq<nat>, s1: State, r: seq<nat>, t: nat)
    requires AllRunnable(s, q) && AllRunnable(s1, r) && t == q[0] && t in s.threads
    requires r == q[1..] + [t] && (forall x :: x in q <==> x in r)
    requires s1.threads.Keys == s.threads.Keys
    requires forall x :: x in s.threads ==> var th := s1.threads[x];
      th.priority == s.threads[x].priority &&
      th.cooldown == if x == t then Cooled(s.threads[x]) else s.threads[x].cooldown
    requires Wheels.Round(WheelOf(s, q))
    ensures WheelOf(s1, r) == Wheels.Spin(WheelOf(s, q))
  {
    var w := WheelOf(s, q);
    hide Wheels.Round, WheelOf, AllRunnable, Cooled;
    CooledMap(s, q, s1, r, t);
    assert Wheels.Spin(w) == w.(ring := r, cool := w.cool[t := Cooled(s.threads[t])]);
  }

  lemma CooledMap(s: State, q: seq<nat>, s1: State, r: seq<nat>, t: nat)
    requires AllRunnable(s, q) && AllRunnable(s1, r) && t in q && (forall x :: x in q <==> x in r)
    requires t in s.threads && s1.threads.Keys == s.threads.Keys
    requires forall x :: x in s.threads ==> var th := s1.threads[x];
      th.priority == s.threads[x].priority &&
      th.cooldown == if x == t then Cooled(s.threads[x]) else s.threads[x].cooldown
    ensures WheelOf(s1, r) == WheelOf(s, q).(ring := r, cool := WheelOf(s, q).cool[t := Cooled(s.threads[t])])
    ensures WheelOf(s, q).ring == q && t in WheelOf(s, q).cool && t in WheelOf(s, q).stride
    ensures Cooled(s.threads[t]) == var w := WheelOf(s, q); if w.cool[t] > 0 then w.cool[t] - 1 else w.stride[t] - 1
  {
    var w, w1 := WheelOf(s, q), WheelOf(s1, r);
    assert Runnable(s, t);
    forall x | x in q
      ensures x in s.threads && Stride(s1.threads[x].priority) == Stride(s.threads[x].priority)
    {
      assert Runnable(s, x);
    }
    assert w1.stride == w.stride;
    assert w1.cool == w.cool[t := Cooled(s.threads[t])];
  }

  lemma RingMembers(q: seq<nat>, r: seq<nat>)
    requires q != [] && r == q[1..] + [q[0]]
    ensures forall t :: t in q <==> t in r
  {
    assert q == [q[0]] + q[1..];
  }

  lemma TurnedRunnable(s: State, t: nat)
    requires AllRunnable(s, s.queue) && NoDup(s.queue) && t == s.queue[0] != 0
    ensures t in s.threads
    ensures var m := Turned(s); Ring(m) == s.queue[1..] + [t] && AllRunnable(m.s, Ring(m))
  {
    assert Runnable(s, t);
    var m := Turned(s);
    RingMembers(s.queue, Ring(m));
    forall x | x in Ring(m)
      ensures Runnable(m.s, x)
    {
      assert Runnable(s, x);
    }
  }

  lemma TurnFair(s: State)
    requires Fair(Moment(s, true))
    ensures Closed(s) && Turn(s).0 == Turned(s).s && Fair(Turned(s))
    ensures Turn(s).1 == if Turned(s).inTick then Again else Dispatched(s.queue[0])
  {
    var t := s.queue[0];
    assert Runnable(s, t);
    HeadTurn(s, t);
    TurnFacts(s);
    TurnedWheel(s, t);
  }

  lemma FairFacts(s: State)
    requires Fair(Moment(s, true))
    ensures AllRunnable(s, s.queue) && NoDup(s.queue) && s.queue[0] != 0 && s.queue[0] in s.threads
    ensures NoneTermed(Turned(s).s) && Wheels.Round(WheelOf(s, s.queue))
    ensures forall t :: Wheels.Fires(WheelOf(s, s.queue), t) <==> t == s.queue[0] && !Turned(s).inTick
  {
    assert Runnable(s, s.queue[0]);
  }

  lemma VisitIsTurned(m: Moment)
    requires Fair(m)
    ensures Closed(Start(m)) && Start(m).queue == Ring(m) != []
    ensures Ring(m)[0] in Start(m).threads && Visit(m) == Turned(Start(m))
    ensures Chosen(m) == if Turned(Start(m)).inTick then 0 else Ring(m)[0]
  {
    hide Fair, Turn, Turned, CleanUp, Enter;
    StartFacts(m);
    var s := Start(m);
    TurnFair(s);
    FairFacts(s);
    NothingToClean(Turned(s).s, |Turned(s).s.table|);
  }

  // Each visit turns the wheel by one and dispatches the thread in front exactly
  // when it has no cooldown left.
  lemma VisitSpins(m: Moment)
    requires Fair(m)
    ensures Closed(Start(m)) && Fair(Visit(m)) && Wheels.Round(WheelOf(m.s, Ring(m)))
    ensures WheelOf(Visit(m).s, Ring(Visit(m))) == Wheels.Spin(WheelOf(m.s, Ring(m)))
    ensures forall t :: t != 0 ==> (Chosen(m) == t <==> Wheels.Fires(WheelOf(m.s, Ring(m)), t))
  {
    VisitIsTurned(m);
    StartFacts(m);
    var s := Start(m);
    TurnFair(s);
    FairFacts(s);
    hide Turn, Turned, Wheels.Round, NoDup, Wheels.Spin, Wheels.Fires;
    hide CleanUp, Enter, Visit, Chosen, Choosing, Good, WheelOf;
    TurnedWheel(s, s.queue[0]);
  }

  // ----- any number of visits

  ghost function Visits(m: Moment, k: nat): (r: Moment)
    requires Fair(m)
    ensures Fair(r)
    decreases k
  {
    if k == 0 then m else VisitSpins(m); Visits(Visit(m), k - 1)
  }

  // How often t is dispatched during the next k visits.
  ghost function Dispatches(m: Moment, k: nat, t: nat): nat
    requires Fair(m)
    decreases k
  {
    if k == 0 then 0
    else VisitSpins(m); (if Chosen(m) == t then 1 else 0) + Dispatches(Visit(m), k - 1, t)
  }

  lemma Unroll(m: Moment, k: nat, t: nat)
    requires Fair(m) && k > 0
    ensures Closed(Start(m)) && Fair(Visit(m)) && Visits(m, k) == Visits(Visit(m), k - 1)
    ensures Dispatches(m, k, t) == (if Chosen(m) == t then 1 else 0) + Dispatches(Visit(m), k - 1, t)
  {
    VisitSpins(m);
    hide Fair, Visit, Chosen, WheelOf, Start, Closed, Ring, Wheels.Spin, Wheels.Round, Wheels.Fires;
  }

  lemma {:induction false} DispatchesCount(m: Moment, k: nat, t: nat)
    requires Fair(m) && t != 0
    ensures Wheels.Round(WheelOf(m.s, Ring(m)))
    ensures Dispatches(m, k, t) == Wheels.Count(WheelOf(m.s, Ring(m)), k, t)
    decreases k
  {
    hide Fair, Visit, Chosen, WheelOf, Wheels.Spin, Wheels.Fires, Wheels.Round;
    VisitSpins(m);
    if k > 0 {
      DispatchesCount(Visit(m), k - 1, t);
    }
  }

  // Exact proportional share: over any 32 n consecutive visits, of however many
  // ticks, a thread of stride s is dispatched 32 / s times.
  lemma ExactShare(m: Moment, t: nat)
    requires Fair(m) && t in Ring(m)
    ensures t in m.s.threads
    ensures Dispatches(m, |Ring(m)| * 32, t) == 32 / Stride(m.s.threads[t].priority)
  {
    hide Fair, Ring, WheelOf, Wheels.Round, Wheels.Count, Dispatches, AllRunnable, Stride;
    RingThread(m, t);
    WheelFacts(m, t);
    var stride := Stride(m.s.threads[t].priority);
    StrideShare(stride);
    DispatchesCount(m, |Ring(m)| * 32, t);
    Wheels.Share(WheelOf(m.s, Ring(m)), t, stride, 32 / stride);
  }

  // One step of priority doubles the share.
  lemma ShareDoubles(m: Moment, t: nat, u: nat)
    requires Fair(m) && t in Ring(m) && u in Ring(m) && t in m.s.threads && u in m.s.threads
    requires 0 <= m.s.threads[t].priority < 5 && m.s.threads[u].priority == m.s.threads[t].priority + 1
    ensures Dispatches(m, |Ring(m)| * 32, u) == 2 * Dispatches(m, |Ring(m)| * 32, t)
  {
    hide Fair, Ring, Dispatches;
    ExactShare(m, t);
    ExactShare(m, u);
  }

  lemma StrideShare(stride: nat)
    requires stride in {1, 2, 4, 8, 16, 32}
    ensures stride * (32 / stride) == 32
  {
  }

  lemma WheelFacts(m: Moment, t: nat)
    requires Fair(m) && t in Ring(m)
    ensures AllRunnable(m.s, Ring(m)) && t in m.s.threads
    ensures var w := WheelOf(m.s, Ring(m));
      && Wheels.Round(w) && |w.ring| == |Ring(m)| && t in w.ring
      && t in w.stride && w.stride[t] == Stride(m.s.threads[t].priority)
  {
    VisitSpins(m);
    assert Runnable(m.s, t);
  }

  lemma RingThread(m: Moment, t: nat)
    requires Fair(m) && t in Ring(m)
    ensures t in m.s.threads && t != 0
  {
    assert Runnable(m.s, t);
    StartFacts(m);
  }

  // ----- ticks

  lemma {:induction false} DispatchesAdd(m: Moment, j: nat, k: nat, t: nat)
    requires Fair(m)
    ensures Visits(m, j + k) == Visits(Visits(m, j), k)
    ensures Dispatches(m, j + k, t) == Dispatches(m, j, t) + Dispatches(Visits(m, j), k, t)
    decreases j
  {
    hide Fair, Visit, Chosen, WheelOf, Wheels.Spin, Wheels.Fires, Wheels.Round;
    if j > 0 {
      VisitSpins(m);
      DispatchesAdd(Visit(m), j - 1, k, t);
      assert j + k - 1 == j - 1 + k;
    } else {
      assert 0 + k == k;
    }
  }

  lemma VisitInTick(s: State)
    requires Fair(Moment(s, true))
    ensures Closed(s) && KernelAwake(s)
    ensures var m := Moment(s, true);
      && Visit(m) == (if Turn(s).1.Again? then Moment(Turn(s).0, true) else AfterClean(Turn(s).0))
      && Chosen(m) == (if Turn(s).1.Again? then 0 else Turn(s).0.current)
      && (Turn(s).1.Again? ==> Fair(Moment(Turn(s).0, true)))
  {
    TurnFacts(s);
    TurnFair(s);
  }

  lemma FirstVisit(m: Moment, w: nat, t: nat)
    requires Fair(m)
    ensures Closed(Start(m)) && Fair(Visit(m))
    ensures t != Chosen(m) ==> Dispatches(m, w + 1, t) == Dispatches(Visit(m), w, t)
    ensures Visits(m, w + 1) == Visits(Visit(m), w)
    ensures Visits(m, 1) == Visit(m) && Dispatches(m, 1, t) == if Chosen(m) == t then 1 else 0
  {
    Unroll(m, w + 1, t);
    Unroll(m, 1, t);
    hide Fair, Visit, Chosen, Start, Closed;
    NoVisits(Visit(m), t);
  }

  lemma NoVisits(m: Moment, t: nat)
    requires Fair(m)
    ensures Visits(m, 0) == m && Dispatches(m, 0, t) == 0
  {
  }

  // The selection loop is a number of visits of which the last one dispatches.
  lemma {:induction false} SelectIsVisits(s: State, t: nat) returns (v: nat)
    requires Fair(Moment(s, true)) && Closed(s) && KernelAwake(s) && t != 0
    ensures v >= 1
    ensures Visits(Moment(s, true), v) == AfterClean(Select(s).0)
    ensures Dispatches(Moment(s, true), v, t) == if Select(s).0.current == t then 1 else 0
    decreases |NotTermed(s.threads)|, Total(Cooldowns(s.threads)), |s.queue|
  {
    hide Fair, Visit, Turn, Start, Closed, KernelAwake, Select, Visits, Dispatches, Chosen, AfterClean;
    hide Total, Cooldowns, NotTermed, AllRunnable, NoneTermed, Choosing, Ring;
    VisitInTick(s);
    AgainDecreases(s);
    if Turn(s).1.Again? {
      var w := SelectIsVisits(Turn(s).0, t);
      v := w + 1;
      FirstVisit(Moment(s, true), w, t);
    } else {
      v := 1;
      FirstVisit(Moment(s, true), 0, t);
    }
  }

  // A whole tick, likewise.
  lemma TickIsVisits(s: State, t: nat) returns (v: nat)
    requires Fair(Moment(s, false)) && t != 0
    ensures v >= 1 && Closed(Enter(s)) && KernelAwake(Enter(s))
    ensures Visits(Moment(s, false), v) == Moment(Tick(s), false)
    ensures Dispatches(Moment(s, false), v, t) == if Tick(s).current == t then 1 else 0
  {
    var m := Moment(s, false);
    StartFacts(m);
    VisitSpins(m);
    TickFacts(s);
    SelectFacts(Enter(s));
    CleanUpAll(Select(Enter(s)).0);
    hide Fair, Select, Enter, CleanUp;
    v := SelectIsVisits(Enter(s), t);
    SameVisits(m, Moment(Enter(s), true), v, t);
  }

  lemma SameVisit(m: Moment, m1: Moment)
    requires Closed(Start(m)) && m1 == Moment(Start(m), true)
    ensures Closed(Start(m1)) && Visit(m) == Visit(m1) && Chosen(m) == Chosen(m1)
  {
    hide Turn, CleanUp, Enter, Closed;
    assert Start(m1) == Start(m);
  }

  // Entering a tick and looking at the head is one visit.
  lemma SameVisits(m: Moment, m1: Moment, v: nat, t: nat)
    requires Fair(m) && Fair(m1) && Closed(Start(m)) && v >= 1 && m1 == Moment(Start(m), true)
    ensures Visits(m, v) == Visits(m1, v) && Dispatches(m, v, t) == Dispatches(m1, v, t)
  {
    SameVisit(m, m1);
    Unroll(m, v, t);
    Unroll(m1, v, t);
    hide Fair, Visit, Chosen, Start, Closed, Visits, Dispatches;
  }

  ghost function TicksAfter(s: State, k: nat): (r: State)
    requires Fair(Moment(s, false))
    ensures Fair(Moment(r, false))
    decreases k
  {
    if k == 0 then s
    else
      FairTick(s);
      TicksAfter(Tick(s), k - 1)
  }

  lemma FairTick(s: State)
    requires Fair(Moment(s, false))
    ensures Closed(Enter(s)) && KernelAwake(Enter(s)) && Fair(Moment(Tick(s), false))
  {
    var v := TickIsVisits(s, 1);
  }

  // How many of the next k ticks end with t running.
  ghost function TickCount(s: State, k: nat, t: nat): nat
    requires Fair(Moment(s, false))
    decreases k
  {
    if k == 0 then 0
    else FairTick(s); (if Tick(s).current == t then 1 else 0) + TickCount(Tick(s), k - 1, t)
  }

  // k ticks are at least k visits.
  lemma {:induction false} TicksAreVisits(s: State, k: nat, t: nat) returns (v: nat)
    requires Fair(Moment(s, false)) && t != 0
    ensures v >= k && Dispatches(Moment(s, false), v, t) == TickCount(s, k, t)
    decreases k
  {
    hide Fair, Tick, Closed, KernelAwake, Enter, Dispatches, Visits;
    if k == 0 {
      v := 0;
      NoVisits(Moment(s, false), t);
    } else {
      FairTick(s);
      var j := TickIsVisits(s, t);
      var w := TicksAreVisits(Tick(s), k - 1, t);
      DispatchesAdd(Moment(s, false), j, w, t);
      v := j + w;
    }
  }

  // Bounded waiting: with n runnable threads, a thread of stride s runs at the end
  // of one of any s n consecutive ticks.
  lemma BoundedWaiting(s: State, t: nat)
    requires Fair(Moment(s, false)) && t in Ring(Moment(s, false))
    ensures t in s.threads
    ensures TickCount(s, |Ring(Moment(s, false))| * Stride(s.threads[t].priority), t) >= 1
  {
    hide Fair, Ring, WheelOf, Wheels.Round, Dispatches, TickCount, Wheels.Count, Stride, AllRunnable;
    var m := Moment(s, false);
    RingThread(m, t);
    WheelFacts(m, t);
    var n, stride := |Ring(m)|, Stride(s.threads[t].priority);
    var v := TicksAreVisits(s, n * stride, t);
    DispatchesCount(m, v, t);
    Wheels.Waits(WheelOf(s, Ring(m)), t, n, stride, v);
  }

  // init_threading, with the idle thread, leaves the scheduler in such a stretch.
  lemma BootIsFair(kernelThread: nat, idle: nat)
    requires kernelThread != 0 && idle != 0 && kernelThread != idle
    ensures var s := Create(Init(kernelThread, false), idle, false, 0, false, true).0;
      Fair(Moment(s, false)) && Ring(Moment(s, false)) == [idle, kernelThread]
  {
    var s0 := Init(kernelThread, false);
    InitOk(kernelThread, false);
    CreateFacts(s0, idle, false, 0, false, true);
    CreateKeepsGood(s0, idle, false, 0, false, true);
    hide Init, Inv, FreeSlot;
    var s := Create(s0, idle, false, 0, false, true).0;
    BootQueue(kernelThread);
    forall t | t in s.threads
      ensures t == idle || t == kernelThread
    {
    }
    assert Ring(Moment(s, false)) == [idle, kernelThread];
  }

  lemma BootQueue(kernelThread: nat)
    ensures var s := Init(kernelThread, false);
      && s.queue == [] && s.current == kernelThread && s.count == 1
      && s.threads == map[kernelThread := Thread(0, Running, false, 5, 0, false, false)]
  {
  }
}
