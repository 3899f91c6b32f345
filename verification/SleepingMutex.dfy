// mutex_t in memory. Its waiters are linked through the same next fields as the
// ready queue: src/scheduling/mutex.c
module SleepingMutex {
  import opened Lists
  import opened Links
  import opened KernelThreads
  import Scheduler
  import T = Threads
  import M = Mutex

  class SleepingMutex {
    const kernel: Kernel
    var locked: bool
    var owner: nat
    var waiterHead: nat
    var waiterTail: nat
    var waiterCount: nat
    ghost var s: M.State

    // Waiters are blocked threads.
    ghost predicate Asleep()
      reads this, kernel
    {
      forall t :: t in s.waiters ==> t in kernel.threads && kernel.threads[t].state.Blocked?
    }

    ghost predicate Valid()
      reads this, kernel, kernel.table
    {
      && kernel.Valid() && M.Inv(s)
      && s.locked == locked && s.owner == owner && s.count == waiterCount
      && IsList(kernel.next, waiterHead, waiterTail, s.waiters) && Asleep()
    }

    // init_mutex
    constructor (kernel: Kernel)
      requires kernel.Valid()
      ensures this.kernel == kernel && Valid() && s == M.Init()
    {
      hide T.Inv, NoDup, Linked, M.Inv;
      M.InitIsSafe();
      EmptyList(kernel.next);
      this.kernel := kernel;
      locked, owner, waiterHead, waiterTail, waiterCount := false, 0, 0, 0, 0;
      s := M.Init();
    }

    // The critical section of acquire_mutex by the running thread, or without one;
    // taken tells whether the call returns. The kernel thread does not go to sleep.
    method Acquire() returns (taken: bool)
      requires Valid() && T.CurrentRuns(kernel.S())
      requires locked ==> kernel.current != 0 && kernel.current != kernel.table[0]
      modifies this, kernel
      ensures Valid() && s == M.Acquire(old(s), kernel.current) && taken == !old(locked)
      ensures kernel.S() == if taken then old(kernel.S()) else T.SetState(old(kernel.S()), kernel.current, T.Blocked)
    {
      hide T.Inv, NoDup, Linked;
      FirstSlot(kernel.S());
      var t := kernel.current;
      RunnerAwake(kernel.S(), s.waiters);
      M.AcquireKeepsInv(s, t);
      if !locked {
        locked := true;
        owner := t;
        s := M.Acquire(s, t);
        return true;
      }
      BlockedCurrent(kernel.S());
      Sleep(t);
      s := M.Acquire(s, t);
      return false;
    }

    // The caller is marked blocked and put at the end of the waiter list.
    method Sleep(t: nat)
      requires kernel.Stored() && t in kernel.threads && t != 0 && t !in s.waiters && t !in kernel.queue
      requires IsList(kernel.next, waiterHead, waiterTail, s.waiters)
      requires forall x :: x in s.waiters ==> x !in kernel.queue
      modifies `waiterHead, `waiterTail, `waiterCount, kernel`threads, kernel`next
      ensures kernel.Stored() && waiterCount == old(waiterCount) + 1
      ensures kernel.threads == old(kernel.threads)[t := old(kernel.threads)[t].(state := T.Blocked)]
      ensures IsList(kernel.next, waiterHead, waiterTail, s.waiters + [t])
    {
      ListAppend(kernel.next, waiterHead, waiterTail, s.waiters, t);
      AppendElsewhere(kernel.next, kernel.readyHead, kernel.readyTail, kernel.queue, s.waiters, t);
      kernel.threads := kernel.threads[t := kernel.threads[t].(state := T.Blocked)];
      kernel.next := kernel.next[t := 0];
      if waiterTail != 0 {
        kernel.next := kernel.next[waiterTail := t];
        waiterTail := t;
      } else {
        waiterHead, waiterTail := t, t;
      }
      waiterCount := waiterCount + 1;
    }

    // The critical section of release_mutex.
    method Release()
      requires Valid() && T.CurrentRuns(kernel.S())
      modifies this, kernel
      ensures Valid() && s == M.Release(old(s), kernel.current)
      ensures kernel.S() ==
        if s.waiters == old(s).waiters then old(kernel.S()) else T.Add(old(kernel.S()), old(waiterHead))
    {
      hide T.TableOk, T.ThreadsOk, T.QueueOk, T.KernelOk, T.CurrentRuns, NoDup;
      M.ReleaseKeepsInv(s, kernel.current);
      if owner != kernel.current {
        s := M.Release(s, kernel.current);
        return;
      }
      locked := false;
      owner := 0;
      if waiterHead != 0 {
        Wake();
      }
      s := M.Release(s, kernel.current);
    }

    // The first waiter leaves the list.
    method PopWaiter() returns (t: nat)
      requires s.waiters != [] && waiterCount > 0
      requires IsList(kernel.next, waiterHead, waiterTail, s.waiters)
      modifies `waiterHead, `waiterTail, `waiterCount
      ensures t == s.waiters[0] && t !in s.waiters[1..] && waiterCount == old(waiterCount) - 1
      ensures IsList(kernel.next, waiterHead, waiterTail, s.waiters[1..])
    {
      t := waiterHead;
      ListDrop(kernel.next, waiterHead, waiterTail, s.waiters);
      waiterHead := kernel.next[t];
      if waiterHead == 0 {
        waiterTail := 0;
      }
      waiterCount := waiterCount - 1;
    }

    // The first waiter leaves the list and becomes ready.
    method Wake()
      requires kernel.Valid() && T.CurrentRuns(kernel.S()) && s.waiters != [] && waiterCount > 0
      requires IsList(kernel.next, waiterHead, waiterTail, s.waiters) && Asleep()
      modifies `waiterHead, `waiterTail, `waiterCount, kernel`threads, kernel`next
      modifies kernel`readyHead, kernel`readyTail, kernel`queue
      ensures kernel.Valid() && waiterCount == old(waiterCount) - 1
      ensures kernel.S() == T.Add(old(kernel.S()), s.waiters[0])
      ensures IsList(kernel.next, waiterHead, waiterTail, s.waiters[1..])
      ensures forall t :: t in s.waiters[1..] ==> t in kernel.threads && kernel.threads[t].state.Blocked?
    {
      hide T.Inv, T.CurrentRuns, NoDup;
      ghost var s0 := kernel.S();
      WokenFacts(s0, s.waiters);
      assert s.waiters[0] in s.waiters && s.waiters[0] != s0.current;
      var next := PopWaiter();
      T.AddFacts(s0, next);
      AddedReady(s0, next);
      AppendElsewhere(kernel.next, waiterHead, waiterTail, s.waiters[1..], kernel.queue, next);
      kernel.threads := kernel.threads[next := kernel.threads[next].(state := T.Ready)];
      assert kernel.S() == T.SetState(s0, next, T.Ready);
      kernel.AddToReadyQueue(next);
    }

    // A timer interrupt: scheduler_tick, with its clean_up, leaves the mutex and its
    // sleeping waiters as they are.
    method Tick()
      requires Valid()
      modifies kernel, kernel.table
      ensures Valid() && s == old(s)
    {
      hide T.Inv, M.Inv, NoDup, Linked, Undisturbed, Scheduler.Enter, Scheduler.Tick;
      ghost var n, t := kernel.next, kernel.threads;
      kernel.SchedulerTick();
      SleepersStay(n, t, kernel.next, kernel.threads, waiterHead, waiterTail, s.waiters);
    }
  }

  // A list of blocked threads survives whatever leaves them undisturbed.
  lemma SleepersStay(n0: map<nat, nat>, t0: map<nat, T.Thread>, n1: map<nat, nat>, t1: map<nat, T.Thread>,
                     head: nat, tail: nat, q: seq<nat>)
    requires IsList(n0, head, tail, q) && Undisturbed(n0, t0, n1, t1)
    requires forall t :: t in q ==> t in t0 && t0[t].state.Blocked?
    ensures IsList(n1, head, tail, q)
    ensures forall t :: t in q ==> t in t1 && t1[t].state.Blocked?
  {
    forall t | t in q
      ensures t in n0
    {
    }
    LinkedFrame(n0, n1, q);
  }

  // add_to_ready_queue marks the thread ready once more.
  lemma AddedReady(k: T.State, t: nat)
    requires t in k.threads && t !in k.queue && !k.threads[t].state.Termed?
    ensures T.Add(T.SetState(k, t, T.Ready), t) == T.Add(k, t) && T.Add(k, t).queue == k.queue + [t]
  {
  }

  // The running thread waits for nothing.
  lemma RunnerAwake(k: T.State, waiters: seq<nat>)
    requires T.Inv(k) && T.CurrentRuns(k)
    requires forall t :: t in waiters ==> t in k.threads && k.threads[t].state.Blocked?
    ensures k.current !in waiters
    ensures k.current != 0 ==> k.current in k.threads && k.current !in k.queue
    ensures forall t :: t in waiters ==> t !in k.queue
  {
  }

  lemma EmptyList(next: map<nat, nat>)
    ensures IsList(next, 0, 0, [])
  {
  }

  lemma FirstSlot(k: T.State)
    requires T.Inv(k)
    ensures |k.table| > 0
  {
  }

  lemma BlockedCurrent(k: T.State)
    requires T.Inv(k) && k.current != 0 && k.current != k.table[0]
    ensures k.current in k.threads && T.Inv(T.SetState(k, k.current, T.Blocked))
  {
    T.SetStateOk(k, k.current, T.Blocked);
  }

  // The first waiter is neither running nor queued.
  lemma WokenFacts(k: T.State, waiters: seq<nat>)
    requires T.Inv(k) && T.CurrentRuns(k) && waiters != []
    requires forall t :: t in waiters ==> t in k.threads && k.threads[t].state.Blocked?
    ensures 0 !in k.threads && forall t :: t in waiters ==> t != k.current && t !in k.queue
  {
  }

  // Appending to one list leaves a disjoint list alone.
  lemma AppendElsewhere(next: map<nat, nat>, head: nat, tail: nat, q: seq<nat>, p: seq<nat>, t: nat)
    requires IsList(next, head, tail, q) && t !in q && forall x :: x in p ==> x !in q
    ensures IsList(Appended(next, p, t), head, tail, q)
  {
    assert p != [] ==> Last(p) in p;
    LinkedFrame(next, Appended(next, p, t), q);
  }
}
