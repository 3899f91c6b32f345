// The threads of the kernel as they are in memory: the ready queue linked through
// the next fields of its threads, the thread table and the counters of
// src/scheduling/scheduler.c and src/scheduling/thread.c
module KernelThreads {
  import opened Lists
  import opened Links
  import opened Threads
  import opened Scheduler

  // The links of threads outside a queue are as before.
  ghost predicate SameLinks(next: map<nat, nat>, next1: map<nat, nat>, q: seq<nat>) {
    forall x :: x in next && x !in q ==> x in next1 && next1[x] == next[x]
  }

  // Blocked threads stay blocked and keep their links, so that a list of them on
  // a mutex stays a list.
  ghost predicate Undisturbed(next: map<nat, nat>, threads: map<nat, Thread>,
                              next1: map<nat, nat>, threads1: map<nat, Thread>) {
    forall x :: x in next && x in threads && threads[x].state.Blocked? ==>
      x in next1 && x in threads1 && threads1[x].state.Blocked? && next1[x] == next[x]
  }

  class Kernel {
    var readyHead: nat
    var readyTail: nat
    var next: map<nat, nat>           // the next field of every thread
    var threads: map<nat, Thread>     // the other fields
    const table: array<nat>
    var current: nat
    var count: nat
    var nextTid: nat
    ghost var queue: seq<nat>

    // The fields as one value.
    ghost function S(): State
      reads this, table
    {
      State(threads, queue, table[..], current, count, nextTid)
    }

    ghost predicate Stored()
      reads this
    {
      IsList(next, readyHead, readyTail, queue) && forall t :: t in threads ==> t in next
    }

    ghost predicate Valid()
      reads this, table
    {
      Stored() && Inv(S())
    }

    // ----- the ready queue

    // enqueue_ready_tail
    method EnqueueReadyTail(t: nat)
      requires Stored() && t != 0 && t !in queue
      modifies `next, `readyHead, `readyTail, `queue
      ensures Stored() && queue == old(queue) + [t]
      ensures next == Appended(old(next), old(queue), t)
    {
      ListAppend(next, readyHead, readyTail, queue, t);
      next := next[t := 0];
      if readyHead == 0 {
        readyHead, readyTail := t, t;
      } else {
        next := next[readyTail := t];
        readyTail := t;
      }
      queue := queue + [t];
    }

    // dequeue_ready_head
    method DequeueReadyHead() returns (t: nat)
      requires Stored()
      modifies `next, `readyHead, `readyTail, `queue
      ensures Stored() && t == Head(old(queue))
      ensures queue == if old(queue) == [] then [] else old(queue)[1..]
      ensures t == 0 ==> next == old(next)
      ensures t != 0 ==> next == old(next)[t := 0]
    {
      t := readyHead;
      if t == 0 {
        return;
      }
      ListDrop(next, readyHead, readyTail, queue);
      readyHead := next[readyHead];
      if readyHead == 0 {
        readyTail := 0;
      }
      queue := queue[1..];
      ListElsewhere(next, readyHead, readyTail, queue, t, 0);
      next := next[t := 0];
    }

    // The duplicate check of add_to_ready_queue.
    method IsQueued(t: nat) returns (found: bool)
      requires Stored()
      ensures found <==> t in queue
    {
      var check := readyHead;
      ghost var j := 0;
      while check != 0
        invariant 0 <= j <= |queue| && check == (if j < |queue| then queue[j] else 0)
        invariant t !in queue[..j]
        decreases |queue| - j
      {
        assert queue[j] in queue && next[queue[j]] == NextOf(queue, j);
        if check == t {
          return true;
        }
        assert queue[..j + 1] == queue[..j] + [queue[j]];
        check := next[check];
        j := j + 1;
      }
      assert queue[..j] == queue;
      return false;
    }

    // add_to_ready_queue; 0 is NULL.
    method AddToReadyQueue(t: nat)
      requires Stored() && 0 !in threads && (t != 0 ==> t in threads)
      modifies `next, `readyHead, `readyTail, `queue, `threads
      ensures Stored() && S() == Add(old(S()), t)
      ensures next == if queue == old(queue) then old(next) else Appended(old(next), old(queue), t)
    {
      if t == 0 || threads[t].state.Termed? {
        return;
      }
      var found := IsQueued(t);
      if found {
        return;
      }
      threads := threads[t := threads[t].(state := Ready)];
      EnqueueReadyTail(t);
    }

    // remove_from_ready_queue
    method RemoveFromReadyQueue(t: nat)
      requires Stored()
      modifies `next, `readyHead, `readyTail, `queue
      ensures Stored() && queue == Without(old(queue), t)
      ensures SameLinks(old(next), next, old(queue))
    {
      if t == 0 {
        WithoutFacts(queue, t);
        return;
      }
      var previous, cur := 0, readyHead;
      ghost var j := 0;
      while cur != 0
        invariant 0 <= j <= |queue| && cur == (if j < |queue| then queue[j] else 0)
        invariant previous == (if j > 0 then queue[j - 1] else 0)
        invariant t !in queue[..j]
        invariant Stored() && queue == old(queue) && next == old(next)
        decreases |queue| - j
      {
        assert queue[j] in queue && next[queue[j]] == NextOf(queue, j);
        if cur == t {
          DropFromQueue(previous, cur, j);
          return;
        }
        assert queue[..j + 1] == queue[..j] + [queue[j]];
        previous, cur := cur, next[cur];
        j := j + 1;
      }
      assert queue[..j] == queue;
      WithoutFacts(queue, t);
    }

    // The unlinking step of remove_from_ready_queue.
    method DropFromQueue(previous: nat, cur: nat, ghost j: nat)
      requires Stored() && j < |queue| && cur == queue[j] && previous == if j > 0 then queue[j - 1] else 0
      modifies `next, `readyHead, `readyTail, `queue
      ensures Stored() && queue == Without(old(queue), cur)
      ensures SameLinks(old(next), next, old(queue))
    {
      WithoutFacts(queue, cur);
      if previous != 0 {
        assert queue[j - 1] in queue;
        ListSkip(next, readyHead, readyTail, queue, j);
        next := next[previous := next[cur]];
      } else {
        ListDrop(next, readyHead, readyTail, queue);
        assert cur == readyTail <==> |queue| == 1;
        readyHead := next[cur];
      }
      if cur == readyTail {
        readyTail := previous;
      }
      queue := Without(queue, cur);
      ListElsewhere(next, readyHead, readyTail, queue, cur, 0);
      next := next[cur := 0];
    }

    // ----- the tick

    // What scheduler_tick does with the interrupted thread.
    method EnterTick()
      requires Valid()
      modifies `next, `readyHead, `readyTail, `queue, `threads, `current
      ensures Stored() && S() == Enter(old(S()))
      ensures Undisturbed(old(next), old(threads), next, threads)
    {
      hide TableOk, ThreadsOk, QueueOk, KernelOk, NoDup, Undisturbed, SameLinks, Linked;
      ghost var s, links := S(), next;
      QueueReady(s);
      CurrentFacts(s);
      var interrupted := current;
      if interrupted == 0 {
        SameUndisturbed(next, threads);
        return;
      }
      match threads[interrupted].state
      case Blocked | Termed =>
        RemoveFromReadyQueue(interrupted);
        current := 0;
        LinksUndisturbed(links, s.threads, next, threads, s.queue);
      case _ =>
        threads := threads[interrupted := threads[interrupted].(state := Ready)];
        EnqueueReadyTail(interrupted);
        AppendedLinks(links, s.queue, interrupted);
        LinksUndisturbed(links, s.threads, next, threads, s.queue + [interrupted]);
    }

    // The loop that takes the first thread off the queue that is no zombie's.
    method NextReady() returns (t: nat)
      requires Stored() && forall x :: x in queue ==> x in threads
      modifies `next, `readyHead, `readyTail, `queue
      ensures Stored()
      ensures var q := DropZombies(threads, old(queue)); t == Head(q) && queue == if q == [] then [] else q[1..]
      ensures SameLinks(old(next), next, old(queue))
    {
      t := DequeueReadyHead();
      HeadSplit(old(queue));
      while t != 0 && threads[t].zombie
        invariant Stored() && forall x :: x in queue ==> x in threads
        invariant SameLinks(old(next), next, old(queue)) && forall x :: x in queue ==> x in old(queue)
        invariant if t == 0 then queue == [] else t in threads
        invariant DropZombies(threads, old(queue)) == DropZombies(threads, if t == 0 then [] else [t] + queue)
        decreases |queue|, t
      {
        DropStep(threads, t, queue);
        HeadSplit(queue);
        t := DequeueReadyHead();
      }
      if t != 0 {
        DropStep(threads, t, queue);
      }
    }

    // The search of the table when nothing is queued.
    method FallbackThread() returns (t: nat)
      requires table.Length > 0 && (forall i :: 0 <= i < table.Length && table[i] != 0 ==> table[i] in threads)
      requires 0 !in threads
      ensures t == Fallback(S(), 1)
    {
      t := 0;
      var i := 1;
      while i < table.Length
        invariant 1 <= i <= table.Length
        invariant Fallback(S(), 1) == Fallback(S(), i)
      {
        if table[i] != 0 && threads[table[i]].state.Ready? {
          return table[i];
        }
        i := i + 1;
      }
      if table[0] != 0 && !threads[table[0]].state.Termed? {
        t := table[0];
      }
    }

    // What the selection loop does with a candidate.
    method ConsiderThread(t: nat) returns (v: Verdict)
      requires Stored() && t in threads && t != 0 && t !in queue
      modifies `next, `readyHead, `readyTail, `queue, `threads, `current
      ensures Stored() && (S(), v) == Consider(old(S()), t)
      ensures SameLinks(old(next), next, old(queue) + [t])
    {
      if threads[t].state.Blocked? || threads[t].state.Termed? {
        RemoveFromReadyQueue(t);
        return Again;
      }
      var stride := Stride(threads[t].priority);
      if threads[t].cooldown > 0 {
        threads := threads[t := threads[t].(cooldown := threads[t].cooldown - 1)];
        EnqueueReadyTail(t);
        AppendedLinks(old(next), old(queue), t);
        return Again;
      }
      threads := threads[t := threads[t].(cooldown := stride - 1)];
      if threads[t].ring3 && !threads[t].kernelStack {
        threads := threads[t := threads[t].(state := Termed)];
        assert threads == old(threads)[t := threads[t]];
        return Again;
      }
      current := t;
      threads := threads[t := threads[t].(state := Running)];
      assert threads == old(threads)[t := threads[t]];
      return Dispatched(t);
    }

    // One turn of the selection loop.
    method TakeTurn() returns (v: Verdict)
      requires Stored() && Choosing(S()) && Closed(S())
      modifies `next, `readyHead, `readyTail, `queue, `threads, `current
      ensures Stored() && (S(), v) == Turn(old(S()))
      ensures Undisturbed(old(next), old(threads), next, threads)
    {
      ghost var s, links := S(), next;
      ChoosingTable(s);
      CandidateFacts(s);
      ReadyQueue(s);
      hide Choosing, Closed, Undisturbed, SameLinks, NoDup, Linked;
      var t := TakeCandidate();
      if t == 0 {
        SameUndisturbed(next, threads);
        return Idle;
      }
      ghost var middle, rest := next, queue;
      LinksUndisturbed(links, threads, middle, threads, s.queue);
      ConsiderKeepsBlocked(S(), t);
      hide Consider;
      v := ConsiderThread(t);
      LinksUndisturbed(middle, s.threads, next, threads, rest + [t]);
      UndisturbedTrans(links, s.threads, middle, s.threads, next, threads);
    }

    // The search for a candidate: the queue first, then the table.
    method TakeCandidate() returns (t: nat)
      requires Stored() && Choosing(S()) && Closed(S())
      modifies `next, `readyHead, `readyTail, `queue
      ensures Stored() && t == Candidate(old(S())) && queue == Rest(old(S()))
      ensures SameLinks(old(next), next, old(queue))
    {
      ghost var s := S();
      ChoosingTable(s);
      CandidateFacts(s);
      hide Choosing, Closed, SameLinks, NoDup, Linked;
      t := NextReady();
      if t == 0 {
        t := FallbackThread();
        FallbackSame(s, S(), 1);
      }
    }

    // scheduler_tick
    method SchedulerTick()
      requires Valid()
      modifies this, table
      ensures Valid() && Closed(Enter(old(S()))) && KernelAwake(Enter(old(S()))) && S() == Tick(old(S()))
      ensures Undisturbed(old(next), old(threads), next, threads)
    {
      hide Inv, Choosing, Closed, KernelAwake, Undisturbed, Linked, NoDup, Enter, Turn, CleanUp, CurrentLive;
      hide NotTermed, Total, Cooldowns;
      TickPlan(S());
      EnterTick();
      ghost var s := S();
      var v := Again;
      while v.Again?
        invariant Stored() && table[..] == s.table
        invariant Undisturbed(old(next), old(threads), next, threads)
        invariant v.Again? ==> Choosing(S()) && Closed(S()) && KernelAwake(S()) && Select(S()) == Select(s)
        invariant !v.Again? ==> (S(), v) == Select(s)
        decreases if v.Again? then 1 else 0, |NotTermed(threads)|, Total(Cooldowns(threads)), |queue|
      {
        TurnPlan(S());
        ghost var t, n := threads, next;
        v := TakeTurn();
        UndisturbedTrans(old(next), old(threads), n, t, next, threads);
      }
      if v.Dispatched? {
        ghost var t, n := threads, next;
        CleanUpTable();
        UndisturbedTrans(old(next), old(threads), n, t, next, threads);
      }
    }

    // ----- thread.c

    // clean_up
    method CleanUpTable()
      requires Valid() && CurrentLive(S())
      modifies this, table
      ensures Valid() && S() == CleanUp(old(S()), table.Length)
      ensures Undisturbed(old(next), old(threads), next, threads)
    {
      hide Inv, Undisturbed, CleanSlot, CurrentLive, TableOk, Linked, NoDup, KeepsLinks, Cleaned;
      ghost var s := S();
      SameUndisturbed(next, threads);
      for i := 0 to table.Length
        invariant Valid() && CurrentLive(S()) && S() == CleanUp(s, i)
        invariant Undisturbed(old(next), old(threads), next, threads)
      {
        ghost var s1, links := S(), next;
        CleanSlotFacts(s1, i);
        QueueReady(s1);
        TableEntries(s1);
        CleanTableSlot(i);
        CleanUndisturbed(links, s1, next, S());
        UndisturbedTrans(old(next), s.threads, links, s1.threads, next, threads);
      }
    }

    // The body of clean_up for one slot.
    method CleanTableSlot(i: nat)
      requires Stored() && TableOk(S()) && i < table.Length
      modifies this, table
      ensures Stored() && S() == CleanSlot(old(S()), i)
      ensures KeepsLinks(old(next), next, threads, old(queue))
    {
      hide TableOk, NoDup, KeepsLinks, SameLinks, Linked;
      ghost var links, q := next, queue;
      KeepsAll(next, threads, queue);
      TableEntry(S(), i);
      var t := table[i];
      if t == 0 {
        return;
      }
      if threads[t].state.Termed? {
        CleanedCount(S(), i);
        WithoutFacts(queue, t);
        RemoveFromReadyQueue(t);
        ListRemoved(next, readyHead, readyTail, queue, t);
        KeepsOthers(links, next, threads, q, t);
        threads, next := threads - {t}, next - {t};
        table[i] := 0;
        count := count - 1;
      }
    }

    // thread_from_tid
    method ThreadFromTid(tid: nat) returns (t: nat)
      requires TableOk(S())
      ensures t == FromTid(S(), tid, 0)
    {
      var i := 0;
      while i < table.Length
        invariant 0 <= i <= table.Length && FromTid(S(), tid, 0) == FromTid(S(), tid, i)
      {
        if table[i] != 0 && threads[table[i]].tid == tid {
          return table[i];
        }
        i := i + 1;
      }
      return 0;
    }

    // thread_create with a function. t is the address kmalloc gives, 0 if it
    // fails; stacks tells whether the stacks can be allocated, zombie the state of
    // the owning process.
    method ThreadCreate(t: nat, ring3: bool, priority: int, zombie: bool, stacks: bool) returns (r: nat)
      requires Valid() && t !in threads
      modifies this, table
      ensures Valid() && (S(), r) == Create(old(S()), t, ring3, priority, zombie, stacks)
    {
      hide TableOk, ThreadsOk, QueueOk, KernelOk, FreeSlot, NoDup;
      ghost var s := S();
      CreateFacts(s, t, ring3, priority, zombie, stacks);
      CreateFits(s, t);
      if count >= MAX_THREADS || t == 0 {
        return 0;
      }
      var thread := Thread(nextTid, Ready, ring3, priority, 0, ring3, zombie);
      nextTid := nextTid + 1;
      if !stacks {
        return 0;
      }
      var slot := FindSlot();
      r := 0;
      if slot < table.Length {
        AddThread(t, thread, slot);
        r := t;
      }
    }

    // The end of thread_create: the thread enters the table and the queue.
    method AddThread(t: nat, thread: Thread, slot: nat)
      requires Stored() && slot < table.Length && t != 0 && t !in queue
      modifies this, table
      ensures Stored()
      ensures S() == old(S()).(threads := old(threads)[t := thread], queue := old(queue) + [t],
        table := old(table[..])[slot := t], count := old(count) + 1)
    {
      table[slot] := t;
      count := count + 1;
      ListElsewhere(next, readyHead, readyTail, queue, t, 0);
      threads, next := threads[t := thread], next[t := 0];
      EnqueueReadyTail(t);
    }

    // The search for a slot in thread_create.
    method FindSlot() returns (slot: nat)
      requires table.Length > 0
      ensures slot == FreeSlot(table[..], 1)
    {
      slot := 1;
      while slot < table.Length && table[slot] != 0
        invariant 1 <= slot <= table.Length && FreeSlot(table[..], 1) == FreeSlot(table[..], slot)
      {
        slot := slot + 1;
      }
    }

    // thread_unblock; the thread to wake is not the current one, marked blocked.
    method ThreadUnblock(tid: nat) returns (r: UnblockResult)
      requires Valid() && !WakesCurrent(S(), tid)
      modifies `next, `readyHead, `readyTail, `queue, `threads
      ensures Valid() && (S(), r) == Unblock(old(S()), tid)
    {
      hide TableOk, ThreadsOk, QueueOk, KernelOk, CurrentRuns, FromTid, NoDup;
      UnblockFacts(S(), tid);
      TidCases(S(), tid);
      var t := ThreadFromTid(tid);
      if t == 0 {
        return NoThread;
      }
      if !threads[t].state.Blocked? {
        return NotBlocked;
      }
      threads := threads[t := threads[t].(state := Ready)];
      EnqueueReadyTail(t);
      return Done;
    }

    // thread_block up to its interrupt; halted is hcf.
    method ThreadBlock(tid: nat) returns (halted: bool)
      requires Valid()
      modifies `next, `readyHead, `readyTail, `queue, `threads
      ensures Valid() && halted == Block(old(S()), tid).None?
      ensures S() == if halted then old(S()) else Block(old(S()), tid).value
    {
      hide TableOk, ThreadsOk, QueueOk, KernelOk, FromTid, NoDup;
      ghost var s := S();
      BlockFacts(s, tid);
      TidCases(s, tid);
      var t := ThreadFromTid(tid);
      if t == 0 || threads[t].tid == 0 {
        return true;
      }
      threads := threads[t := threads[t].(state := Blocked)];
      RemoveFromReadyQueue(t);
      assert S() == Block(s, tid).value;
      return false;
    }

    // init_threading up to the creation of the idle thread.
    constructor (kernelThread: nat, zombie: bool)
      requires kernelThread != 0
      ensures Valid() && fresh(table) && S() == Init(kernelThread, zombie)
    {
      var slots := new nat[MAX_THREADS];
      for i := 0 to MAX_THREADS
        invariant forall j :: 0 <= j < i ==> slots[j] == 0
      {
        slots[i] := 0;
      }
      slots[0] := kernelThread;
      InitOk(kernelThread, zombie);
      table := slots;
      readyHead, readyTail, queue := 0, 0, [];
      next := map[kernelThread := 0];
      threads := map[kernelThread := Thread(0, Running, false, 5, 0, false, zombie)];
      current, count, nextTid := kernelThread, 1, 1;
      new;
      assert table[..] == Init(kernelThread, zombie).table;
    }
  }

  // What a tick comes to after the interrupted thread has been dealt with.
  lemma TickPlan(s: State)
    requires Inv(s)
    ensures Choosing(Enter(s)) && Closed(Enter(s)) && KernelAwake(Enter(s))
    ensures var (s1, v) := Select(Enter(s));
      && v.Dispatched? && Inv(s1) && CurrentLive(s1)
      && Inv(Tick(s)) && Tick(s) == CleanUp(s1, |s1.table|)
  {
    EnterFacts(s);
    TickFacts(s);
    SelectFacts(Enter(s));
  }

  // What a turn of the loop leaves to be done.
  lemma TurnPlan(s: State)
    requires Choosing(s) && Closed(s) && KernelAwake(s)
    ensures var (s1, v) := Turn(s);
      if v.Again? then Choosing(s1) && Closed(s1) && KernelAwake(s1) && Less(s1, s) && Select(s) == Select(s1)
      else Select(s) == (s1, v)
  {
    TurnFacts(s);
    TurnKeepsClosed(s);
    TurnDecreases(s);
  }

  lemma SameUndisturbed(next: map<nat, nat>, threads: map<nat, Thread>)
    ensures Undisturbed(next, threads, next, threads)
  {
  }

  lemma UndisturbedTrans(n0: map<nat, nat>, t0: map<nat, Thread>, n1: map<nat, nat>, t1: map<nat, Thread>,
                         n2: map<nat, nat>, t2: map<nat, Thread>)
    requires Undisturbed(n0, t0, n1, t1) && Undisturbed(n1, t1, n2, t2)
    ensures Undisturbed(n0, t0, n2, t2)
  {
  }

  // The links that change are those of threads that are not blocked.
  lemma LinksUndisturbed(n0: map<nat, nat>, t0: map<nat, Thread>, n1: map<nat, nat>, t1: map<nat, Thread>,
                         q: seq<nat>)
    requires SameLinks(n0, n1, q)
    requires forall x :: x in q ==> x in t0 && !t0[x].state.Blocked?
    requires forall x :: x in t0 && t0[x].state.Blocked? ==> x in t1 && t1[x].state.Blocked?
    ensures Undisturbed(n0, t0, n1, t1)
  {
  }

  // Threads that are left and were not queued keep their links.
  ghost predicate KeepsLinks(n0: map<nat, nat>, n1: map<nat, nat>, t1: map<nat, Thread>, q: seq<nat>) {
    forall x :: x in n0 && x in t1 && x !in q ==> x in n1 && n1[x] == n0[x]
  }

  lemma KeepsAll(next: map<nat, nat>, threads: map<nat, Thread>, q: seq<nat>)
    ensures KeepsLinks(next, next, threads, q)
  {
  }

  lemma KeepsOthers(n0: map<nat, nat>, n1: map<nat, nat>, threads: map<nat, Thread>, q: seq<nat>, t: nat)
    requires SameLinks(n0, n1, q)
    ensures KeepsLinks(n0, n1 - {t}, threads - {t}, q)
  {
  }

  lemma CleanUndisturbed(n0: map<nat, nat>, s: State, n1: map<nat, nat>, s1: State)
    requires KeepsLinks(n0, n1, s1.threads, s.queue) && Cleaned(s, s1)
    requires forall x :: x in s.queue ==> x in s.threads && s.threads[x].state.Ready?
    ensures Undisturbed(n0, s.threads, n1, s1.threads)
  {
    forall x | x in s.threads && s.threads[x].state.Blocked?
      ensures x in s1.threads
    {
      assert x in Live(s.threads);
      assert x in Live(s1.threads);
    }
  }

  lemma TableEntries(s: State)
    requires Inv(s)
    ensures TableOk(s)
  {
  }

  lemma AppendedLinks(next: map<nat, nat>, q: seq<nat>, t: nat)
    ensures SameLinks(next, Appended(next, q, t), q + [t])
  {
    assert q != [] ==> Last(q) in q;
  }

  lemma QueueReady(s: State)
    requires Inv(s)
    ensures 0 !in s.threads && forall x :: x in s.queue ==> x in s.threads && s.threads[x].state.Ready?
  {
  }

  lemma CurrentFacts(s: State)
    requires Inv(s)
    ensures s.current != 0 <==> s.current in s.threads
    ensures s.current !in s.queue || s.current == 0
    ensures s.current == 0 ==> Enter(s) == s
  {
  }

  lemma ReadyQueue(s: State)
    requires Choosing(s)
    ensures 0 !in s.threads && forall x :: x in s.queue ==> x in s.threads && s.threads[x].state.Ready?
  {
  }

  lemma ConsiderKeepsBlocked(s: State, t: nat)
    requires t in s.threads && s.threads[t].state.Ready?
    ensures forall x :: x in s.threads && s.threads[x].state.Blocked? ==>
      x in Consider(s, t).0.threads && Consider(s, t).0.threads[x].state.Blocked?
  {
  }

  lemma TableEntry(s: State, i: nat)
    requires TableOk(s) && i < |s.table|
    ensures s.table[i] != 0 <==> s.table[i] in s.threads
  {
  }

  lemma CreateFits(s: State, t: nat)
    requires Inv(s) && t !in s.threads
    ensures |s.table| > 0 && t !in s.queue
  {
  }

  // What thread_from_tid gives; a blocked thread is not queued.
  lemma TidCases(s: State, tid: nat)
    requires Inv(s)
    ensures var t := FromTid(s, tid, 0);
      && (t == 0 <==> t !in s.threads)
      && (t in s.threads ==> s.threads[t].tid == tid && (s.threads[t].state.Blocked? ==> t !in s.queue))
  {
    FromTidFacts(s, tid);
  }

  lemma DropStep(threads: map<nat, Thread>, t: nat, q: seq<nat>)
    requires t in threads
    ensures DropZombies(threads, [t] + q) == if threads[t].zombie then DropZombies(threads, q) else [t] + q
  {
    assert ([t] + q)[1..] == q;
  }

  lemma HeadSplit(q: seq<nat>)
    ensures q != [] ==> q == [q[0]] + q[1..]
  {
  }

  lemma ListRemoved(next: map<nat, nat>, head: nat, tail: nat, q: seq<nat>, t: nat)
    requires IsList(next, head, tail, q) && t !in q
    ensures IsList(next - {t}, head, tail, q)
  {
    LinkedFrame(next, next - {t}, q);
  }
}
