// Which thread a tick dispatches and what it leaves in the ready queue:
// src/scheduling/scheduler.c
module Dispatch {
  import opened Lists
  import opened Threads
  import opened Scheduler

  // The ready queue as the selection loop finds it: the interrupted thread comes
  // last, unless it is blocked or terminated.
  function Offered(s: State): seq<nat> {
    if s.current in s.threads && (s.threads[s.current].state.Running? || s.threads[s.current].state.Ready?)
    then s.queue + [s.current] else s.queue
  }

  // In e the thread that ran in s is ready, and nothing else changed.
  ghost predicate Entered(s: State, e: State) {
    && e.threads.Keys == s.threads.Keys
    && forall t :: t in s.threads ==>
         e.threads[t] == s.threads[t].(state := if s.threads[t].state.Running? then Ready else s.threads[t].state)
  }

  // The interrupted thread becomes ready at the end of the queue if it was running
  // or ready; nothing else changes, also when it was blocked or terminated.
  lemma EnterExact(s: State)
    requires Inv(s)
    ensures Enter(s).queue == Offered(s) && Enter(s).table == s.table && Entered(s, Enter(s))
  {
    hide TableOk, ThreadsOk, KernelOk, NoDup;
    QueueWithoutDup(s);
    WithoutFacts(s.queue, s.current);
  }

  lemma QueueWithoutDup(s: State)
    requires Inv(s)
    ensures NoDup(s.queue)
  {
  }

  // The threads of a queue whose process is no zombie, in order.
  ghost function Awake(threads: map<nat, Thread>, q: seq<nat>): seq<nat> {
    if q == [] then []
    else (if q[0] in threads && threads[q[0]].zombie then [] else [q[0]]) + Awake(threads, q[1..])
  }

  lemma {:induction false} AwakeFacts(threads: map<nat, Thread>, q: seq<nat>)
    requires NoDup(q)
    ensures NoDup(Awake(threads, q))
    ensures forall t :: t in Awake(threads, q) <==> t in q && !(t in threads && threads[t].zombie)
  {
    if q != [] {
      TailNoDup(q);
      AwakeFacts(threads, q[1..]);
      assert q == [q[0]] + q[1..];
      ConsNoDup(q[0], Awake(threads, q[1..]));
    }
  }

  lemma {:induction false} AwakeAppend(threads: map<nat, Thread>, q: seq<nat>, t: nat)
    ensures Awake(threads, q + [t]) == Awake(threads, q) + if t in threads && threads[t].zombie then [] else [t]
  {
    if q != [] {
      assert (q + [t])[1..] == q[1..] + [t];
      AwakeAppend(threads, q[1..], t);
    } else {
      assert (q + [t])[1..] == [];
    }
  }

  // Only zombie marks matter.
  ghost predicate SameMarks(a: map<nat, Thread>, b: map<nat, Thread>) {
    a.Keys == b.Keys && forall t :: t in a ==> a[t].zombie == b[t].zombie
  }

  lemma {:induction false} AwakeSame(a: map<nat, Thread>, b: map<nat, Thread>, q: seq<nat>)
    requires SameMarks(a, b)
    ensures Awake(a, q) == Awake(b, q)
  {
    if q != [] {
      AwakeSame(a, b, q[1..]);
    }
  }

  lemma {:induction false} DropIsAwake(threads: map<nat, Thread>, q: seq<nat>)
    ensures var d, a := DropZombies(threads, q), Awake(threads, q);
      && (d == [] <==> a == [])
      && (d != [] ==> d[0] == a[0] && Awake(threads, d[1..]) == a[1..])
  {
    if q != [] && q[0] in threads && threads[q[0]].zombie {
      DropIsAwake(threads, q[1..]);
    }
  }

  // ----- one turn

  lemma TurnAwake(s: State)
    requires Choosing(s) && Awake(s.threads, s.queue) != []
    ensures Closed(s) && KernelAwake(s)
    ensures var (s1, v) := Turn(s);
      var a := Awake(s.threads, s.queue);
      var t := a[0];
      && t in s.threads
      && if s.threads[t].cooldown > 0 then
           && v.Again? && Choosing(s1) && Awake(s1.threads, s1.queue) == a[1..] + [t]
           && s1.threads == s.threads[t := s.threads[t].(cooldown := s.threads[t].cooldown - 1)]
         else
           && v.Dispatched? && s1.current == t && Awake(s1.threads, s1.queue) == a[1..]
           && s1.threads == s.threads[t := s.threads[t].(state := Running,
                                                         cooldown := Stride(s.threads[t].priority) - 1)]
  {
    hide Choosing, NoDup, DropZombies, Awake, SameThreads, Inv, Stride, Fallback;
    ChoosingAwake(s);
    CandidateFacts(s);
    AwakeHead(s);
    TurnFacts(s);
    var t := Candidate(s);
    ChoosingStacks(s, t);
    var s1 := Turn(s).0;
    AwakeSame(s.threads, s1.threads, Rest(s));
    AwakeAppend(s1.threads, Rest(s), t);
  }

  lemma AwakeHead(s: State)
    requires Choosing(s) && Closed(s) && Awake(s.threads, s.queue) != []
    ensures var a := Awake(s.threads, s.queue);
      && Candidate(s) == a[0] && Awake(s.threads, Rest(s)) == a[1..]
      && a[0] in s.threads && !s.threads[a[0]].zombie
  {
    DropIsAwake(s.threads, s.queue);
    AwakeFacts(s.threads, s.queue);
    assert Awake(s.threads, s.queue)[0] in Awake(s.threads, s.queue);
  }

  lemma ChoosingStacks(s: State, t: nat)
    requires Choosing(s) && t in s.threads
    ensures s.threads[t].ring3 ==> s.threads[t].kernelStack
  {
  }

  lemma ChoosingAwake(s: State)
    requires Choosing(s)
    ensures KernelAwake(s) && NoDup(s.queue)
  {
  }

  // ----- the loop

  // a[j] has the least cooldown, and is the first that has it.
  ghost predicate Least(threads: map<nat, Thread>, a: seq<nat>, j: nat) {
    && j < |a| && (forall i :: 0 <= i < |a| ==> a[i] in threads)
    && forall i :: 0 <= i < |a| ==>
         var c, d := threads[a[j]].cooldown, threads[a[i]].cooldown;
         c < d || (c == d && j <= i)
  }

  // The cooldown that a[i] has when a[j] has been dispatched: in every round it
  // was looked at and lowered once.
  ghost function CoolAt(threads: map<nat, Thread>, a: seq<nat>, j: nat, i: nat): int
    requires j < |a| && i < |a| && a[j] in threads && a[i] in threads
  {
    if i == j then Stride(threads[a[j]].priority) - 1
    else threads[a[i]].cooldown - threads[a[j]].cooldown - if i < j then 1 else 0
  }

  ghost predicate CooledBy(threads: map<nat, Thread>, a: seq<nat>, j: nat, threads1: map<nat, Thread>)
    requires Least(threads, a, j)
  {
    && (forall i :: 0 <= i < |a| ==> a[i] in threads1 && threads1[a[i]].cooldown == CoolAt(threads, a, j, i))
    && forall t :: t in threads && t !in a ==> t in threads1 && threads1[t].cooldown == threads[t].cooldown
  }

  // Apart from cooldowns only the state of the dispatched thread moves.
  ghost predicate OnlyRuns(threads: map<nat, Thread>, t: nat, threads1: map<nat, Thread>) {
    && threads1.Keys == threads.Keys
    && forall x :: x in threads ==>
         threads1[x] == threads[x].(state := if x == t then Running else threads[x].state,
                                    cooldown := threads1[x].cooldown)
  }

  // From s, with the awake threads a in its queue, a[j] has been dispatched.
  ghost predicate Outcome(s: State, a: seq<nat>, j: nat, s1: State) {
    && Least(s.threads, a, j) && s1.current == a[j]
    && Awake(s1.threads, s1.queue) == a[j + 1..] + a[..j]
    && CooledBy(s.threads, a, j, s1.threads) && OnlyRuns(s.threads, a[j], s1.threads)
  }

  // The head of the queue with no cooldown left.
  lemma DispatchNow(s: State, a: seq<nat>, s1: State)
    requires a != [] && NoDup(a) && (forall t :: t in a ==> t in s.threads) && s.threads[a[0]].cooldown == 0
    requires s1.current == a[0] && Awake(s1.threads, s1.queue) == a[1..]
    requires s1.threads == s.threads[a[0] := s.threads[a[0]].(state := Running,
                                                              cooldown := Stride(s.threads[a[0]].priority) - 1)]
    ensures Outcome(s, a, 0, s1)
  {
    assert a[0 + 1..] + a[..0] == a[1..];
    hide Awake;
    forall i | 0 <= i < |a|
      ensures a[i] in s1.threads && s1.threads[a[i]].cooldown == CoolAt(s.threads, a, 0, i)
    {
      assert a[i] in a;
    }
  }

  // The position in a of what is at j in a[1..] + [a[0]].
  function Back(n: nat, j: nat): nat {
    if j + 1 == n then 0 else j + 1
  }

  lemma RotateLeast(threads: map<nat, Thread>, threads1: map<nat, Thread>, a: seq<nat>, j: nat)
    requires a != [] && NoDup(a) && a[0] in threads && threads[a[0]].cooldown > 0
    requires threads1 == threads[a[0] := threads[a[0]].(cooldown := threads[a[0]].cooldown - 1)]
    requires Least(threads1, a[1..] + [a[0]], j)
    ensures Least(threads, a, Back(|a|, j)) && (a[1..] + [a[0]])[j] == a[Back(|a|, j)]
  {
    var b := a[1..] + [a[0]];
    var n := |a|;
    assert b[n - 1] == a[0];
    forall i | 0 <= i < n
      ensures a[i] in threads
      ensures i > 0 ==> a[i] == b[i - 1] && threads1[a[i]] == threads[a[i]]
    {
      if i > 0 {
        assert a[i] == b[i - 1];
      }
    }
  }

  lemma RotateCooled(threads: map<nat, Thread>, threads1: map<nat, Thread>, a: seq<nat>, j: nat,
                     threads2: map<nat, Thread>)
    requires a != [] && NoDup(a) && a[0] in threads && threads[a[0]].cooldown > 0
    requires threads1 == threads[a[0] := threads[a[0]].(cooldown := threads[a[0]].cooldown - 1)]
    requires Least(threads1, a[1..] + [a[0]], j) && Least(threads, a, Back(|a|, j))
    requires CooledBy(threads1, a[1..] + [a[0]], j, threads2)
    ensures CooledBy(threads, a, Back(|a|, j), threads2)
  {
    var b := a[1..] + [a[0]];
    var n := |a|;
    assert b[n - 1] == a[0];
    forall i | 0 <= i < n
      ensures a[i] in threads2 && threads2[a[i]].cooldown == CoolAt(threads, a, Back(n, j), i)
    {
      if i > 0 {
        assert a[i] == b[i - 1];
      }
    }
    forall t | t in threads && t !in a
      ensures t in threads2 && threads2[t].cooldown == threads[t].cooldown
    {
      assert t !in b;
    }
  }

  lemma RotateOrder(a: seq<nat>, j: nat)
    requires j < |a|
    ensures var b := a[1..] + [a[0]];
      b[j + 1..] + b[..j] == a[Back(|a|, j) + 1..] + a[..Back(|a|, j)]
  {
  }

  // One requeued head on, the outcome is the same thread.
  lemma OutcomeBefore(s: State, a: seq<nat>, s1: State, j: nat, s2: State)
    requires a != [] && NoDup(a) && a[0] in s.threads && s.threads[a[0]].cooldown > 0
    requires s1.threads == s.threads[a[0] := s.threads[a[0]].(cooldown := s.threads[a[0]].cooldown - 1)]
    requires Outcome(s1, a[1..] + [a[0]], j, s2)
    ensures Outcome(s, a, Back(|a|, j), s2)
  {
    RotateLeast(s.threads, s1.threads, a, j);
    RotateCooled(s.threads, s1.threads, a, j, s2.threads);
    RotateOrder(a, j);
    RotateRuns(s.threads, s1.threads, a[0], a[Back(|a|, j)], s2.threads);
    hide Least, CooledBy, Awake, NoDup, OnlyRuns, Back;
  }

  lemma RotateRuns(threads: map<nat, Thread>, threads1: map<nat, Thread>, head: nat, t: nat,
                   threads2: map<nat, Thread>)
    requires head in threads && threads[head].cooldown > 0
    requires threads1 == threads[head := threads[head].(cooldown := threads[head].cooldown - 1)]
    requires OnlyRuns(threads1, t, threads2)
    ensures OnlyRuns(threads, t, threads2)
  {
  }

  // The loop dispatches the awake thread with the least cooldown, the first of
  // these in the queue; the others stay queued in cyclic order.
  lemma {:induction false} SelectPicks(s: State) returns (j: nat)
    requires Choosing(s) && Closed(s) && KernelAwake(s) && Awake(s.threads, s.queue) != []
    ensures Outcome(s, Awake(s.threads, s.queue), j, Select(s).0)
    decreases |NotTermed(s.threads)|, Total(Cooldowns(s.threads)), |s.queue|
  {
    hide Choosing, Outcome, Turn, NoDup, Awake, Select, Closed, KernelAwake, Less, Stride;
    var a := Awake(s.threads, s.queue);
    AwakeInQueue(s);
    TurnAwake(s);
    AgainDecreases(s);
    if s.threads[a[0]].cooldown > 0 {
      SmallerMeasure(s, Turn(s).0);
      var k := SelectPicks(Turn(s).0);
      OutcomeBefore(s, a, Turn(s).0, k, Select(s).0);
      j := Back(|a|, k);
    } else {
      DispatchNow(s, a, Turn(s).0);
      j := 0;
    }
  }

  lemma SmallerMeasure(s: State, s1: State)
    requires Less(s1, s)
    ensures (|NotTermed(s.threads)|, Total(Cooldowns(s.threads)), |s.queue|
             decreases to |NotTermed(s1.threads)|, Total(Cooldowns(s1.threads)), |s1.queue|)
  {
  }

  lemma AwakeInQueue(s: State)
    requires Choosing(s)
    ensures NoDup(Awake(s.threads, s.queue))
    ensures forall t :: t in Awake(s.threads, s.queue) ==> t in s.threads && s.threads[t].state.Ready?
  {
    AwakeFacts(s.threads, s.queue);
  }

  // ----- a whole tick

  // The thread as it is after a tick that ends with cur running.
  ghost predicate ThreadAfter(th: Thread, runs: bool, cooldown: int, th1: Thread) {
    && th1.cooldown == cooldown
    && th1 == th.(cooldown := th1.cooldown,
                  state := if runs then Running else if th.state.Running? then Ready else th.state)
  }

  // What the tick leaves, when a[j] was dispatched.
  ghost predicate TickOutcome(s: State, a: seq<nat>, j: nat, s1: State)
    requires Least(s.threads, a, j)
  {
    && s1.current == a[j] && Awake(s1.threads, s1.queue) == a[j + 1..] + a[..j]
    && s1.threads.Keys == NotTermed(s.threads)
    && (forall i :: 0 <= i < |a| ==>
          a[i] in s1.threads && ThreadAfter(s.threads[a[i]], i == j, CoolAt(s.threads, a, j, i), s1.threads[a[i]]))
    && (forall t :: t in s1.threads && t !in a ==>
          ThreadAfter(s.threads[t], false, s.threads[t].cooldown, s1.threads[t]))
  }

  lemma {:induction false} AwakeLive(threads: map<nat, Thread>, q: seq<nat>)
    requires forall t :: t in q ==> t in threads && !threads[t].state.Termed?
    ensures Awake(Live(threads), q) == Awake(threads, q)
  {
    if q != [] {
      AwakeLive(threads, q[1..]);
    }
  }

  lemma AwakeAfterClean(s: State)
    requires Inv(s)
    ensures Awake(Live(s.threads), s.queue) == Awake(s.threads, s.queue)
  {
    hide TableOk, ThreadsOk, KernelOk, NoDup, Awake;
    AwakeLive(s.threads, s.queue);
  }

  lemma LeastOnEntry(s: State, e: State, a: seq<nat>, j: nat)
    requires Entered(s, e) && Least(e.threads, a, j)
    ensures Least(s.threads, a, j)
    ensures forall i :: 0 <= i < |a| ==> CoolAt(s.threads, a, j, i) == CoolAt(e.threads, a, j, i)
  {
  }

  // What clean_up leaves of the threads that the loop left.
  lemma LeftThreads(s: State, e: State, t: nat, s2: State)
    requires Entered(s, e) && OnlyRuns(e.threads, t, s2.threads) && t in e.threads && e.threads[t].state.Ready?
    ensures Live(s2.threads).Keys == NotTermed(s.threads)
    ensures forall x :: x in Live(s2.threads) ==>
      x in s.threads && ThreadAfter(s.threads[x], x == t, s2.threads[x].cooldown, Live(s2.threads)[x])
  {
  }

  // s2 is what the loop leaves, and s1 that after clean_up.
  lemma OutcomeOfTick(s: State, e: State, a: seq<nat>, j: nat, s2: State, s1: State)
    requires Entered(s, e) && NoDup(a)
    requires Outcome(e, a, j, s2) && forall t :: t in a ==> t in e.threads && e.threads[t].state.Ready?
    requires s1.current == s2.current && s1.threads == Live(s2.threads)
    requires Awake(s1.threads, s1.queue) == Awake(s2.threads, s2.queue)
    ensures Least(s.threads, a, j) && TickOutcome(s, a, j, s1)
  {
    assert a[j] in a;
    LeastOnEntry(s, e, a, j);
    LeftThreads(s, e, a[j], s2);
    forall i | 0 <= i < |a|
      ensures a[i] in s1.threads && (i == j <==> a[i] == a[j])
    {
      assert a[i] in a && a[i] in s2.threads;
    }
    hide Awake, ThreadAfter, CoolAt, Least, OnlyRuns;
  }

  lemma NobodyLost(s: State, a: seq<nat>, j: nat, s1: State)
    requires Inv(s) && Inv(s1) && a == Awake(s.threads, Offered(s))
    requires Least(s.threads, a, j) && TickOutcome(s, a, j, s1)
    ensures forall t :: t in s.queue && !s.threads[t].zombie ==> t in s1.queue || t == s1.current
  {
    OfferedNoDup(s);
    OfferedNoDup(s1);
    AwakeFacts(s.threads, Offered(s));
    AwakeFacts(s1.threads, s1.queue);
    hide Inv, NoDup, Awake, Least;
    forall t | t in s.queue && !s.threads[t].zombie
      ensures t in s1.queue || t == s1.current
    {
      assert t in a;
      var i :| 0 <= i < |a| && a[i] == t;
      assert i != j ==> a[i] in a[j + 1..] + a[..j];
    }
  }

  lemma OfferedNoDup(s: State)
    requires Inv(s)
    ensures NoDup(Offered(s)) && NoDup(s.queue) && forall t :: t in s.queue ==> t in Offered(s) && t in s.threads
  {
    if Offered(s) != s.queue {
      AppendNoDup(s.queue, s.current);
    }
  }

  // With none of them there the table decides: its first ready thread runs, the
  // kernel thread if there is no other, and the queue is empty.
  lemma TickFallsBack(s: State)
    requires Inv(s) && Awake(s.threads, Offered(s)) == []
    ensures Closed(Enter(s)) && KernelAwake(Enter(s))
    ensures Tick(s).current == Fallback(Enter(s), 1) && Tick(s).queue == []
  {
    var e := Enter(s);
    EnterExact(s);
    EnterFacts(s);
    AwakeSame(s.threads, e.threads, Offered(s));
    DropIsAwake(e.threads, e.queue);
    SelectFallsBack(e, Fallback(e, 1));
    SelectFacts(e);
    CleanUpAll(Select(e).0);
  }

  // Only the thread f can be chosen from now on.
  lemma {:induction false} SelectFallsBack(s: State, f: nat)
    requires Choosing(s) && Closed(s) && KernelAwake(s)
    requires Candidate(s) == f && Rest(s) == [] && Fallback(s, 1) == f
    ensures Select(s).0.current == f && Select(s).0.queue == []
    decreases |NotTermed(s.threads)|, Total(Cooldowns(s.threads)), |s.queue|
  {
    TurnFallsBack(s, f);
    if Turn(s).1.Again? {
      TurnKeepsClosed(s);
      TurnDecreases(s);
      hide Choosing, Turn, Candidate, Rest, Fallback;
      SelectFallsBack(Turn(s).0, f);
    }
  }

  lemma TurnFallsBack(s: State, f: nat)
    requires Choosing(s) && Closed(s) && KernelAwake(s)
    requires Candidate(s) == f && Rest(s) == [] && Fallback(s, 1) == f
    ensures var (s1, v) := Turn(s);
      && (v.Again? ==> Choosing(s1) && Candidate(s1) == f && Rest(s1) == [] && Fallback(s1, 1) == f)
      && (!v.Again? ==> s1.current == f && s1.queue == [])
  {
    hide Choosing, NoDup, SameThreads, Stride, Fallback;
    CandidateFacts(s);
    TurnFacts(s);
    ChoosingStacks(s, f);
    var s1 := Turn(s).0;
    if Turn(s).1.Again? {
      assert s1.queue == [f];
      FallbackByState(s, s1, 1);
    }
  }

  // The fallback depends on states only.
  lemma {:induction false} FallbackByState(s: State, s1: State, i: nat)
    requires 0 < i <= |s.table| && s1.table == s.table && s1.threads.Keys == s.threads.Keys
    requires forall t :: t in s.threads ==> s1.threads[t].state == s.threads[t].state
    ensures Fallback(s1, i) == Fallback(s, i)
    decreases |s.table| - i
  {
    if i < |s.table| {
      FallbackByState(s, s1, i + 1);
    }
  }

  // scheduler_tick, whatever the interrupted thread is: of the queued threads whose
  // process is no zombie, and the interrupted one if it is neither blocked nor
  // terminated, the one with the least cooldown runs, the first of these in queue
  // order. The others stay queued, in cyclic order from behind it, their cooldowns
  // lowered once for every look; no other thread changes.
  lemma TickDispatches(s: State) returns (j: nat)
    requires Inv(s) && Awake(s.threads, Offered(s)) != []
    ensures Closed(Enter(s)) && KernelAwake(Enter(s))
    ensures Least(s.threads, Awake(s.threads, Offered(s)), j)
    ensures TickOutcome(s, Awake(s.threads, Offered(s)), j, Tick(s))
    ensures forall t :: t in s.queue && !s.threads[t].zombie ==> t in Tick(s).queue || t == Tick(s).current
  {
    var e := Enter(s);
    hide Enter, Choosing, Inv, Outcome, TickOutcome, Least, Select, Awake, CleanUp, NoDup, Closed, KernelAwake, Live;
    EnterExact(s);
    EnterFacts(s);
    TickFacts(s);
    AwakeSame(s.threads, e.threads, Offered(s));
    var a := Awake(e.threads, e.queue);
    AwakeInQueue(e);
    j := SelectPicks(e);
    SelectFacts(e);
    var s2 := Select(e).0;
    SelectedLive(s2);
    CleanUpAll(s2);
    AwakeAfterClean(s2);
    OutcomeOfTick(s, e, a, j, s2, Tick(s));
    NobodyLost(s, a, j, Tick(s));
  }

  lemma SelectedLive(s: State)
    requires Inv(s) && CurrentRuns(s)
    ensures CurrentLive(s)
  {
  }
}
