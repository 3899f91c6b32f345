// The thread table and the ready queue as functions on values:
// src/scheduling/thread.c and the queue operations of src/scheduling/scheduler.c
module Threads {
  import opened Lists
  import opened Options

  const MAX_THREADS: nat := 256

  datatype ThreadState = Ready | Running | Blocked | Termed

  // thread_t without its link. kernelStack tells whether it has one, and zombie
  // whether its process is a zombie.
  datatype Thread = Thread(tid: nat, state: ThreadState, ring3: bool, priority: int, cooldown: nat,
                           kernelStack: bool, zombie: bool)

  // Threads are named by their addresses; 0 is NULL. The queue is in order from
  // ready_head to ready_tail; count and nextTid are thread_count and next_tid.
  datatype State = State(threads: map<nat, Thread>, queue: seq<nat>, table: seq<nat>, current: nat,
                         count: nat, nextTid: nat)

  // ----- queue operations

  function SetState(s: State, t: nat, state: ThreadState): State
    requires t in s.threads
  {
    s.(threads := s.threads[t := s.threads[t].(state := state)])
  }

  // add_to_ready_queue
  function Add(s: State, t: nat): State {
    if t !in s.threads || s.threads[t].state.Termed? || t in s.queue then s
    else SetState(s, t, Ready).(queue := s.queue + [t])
  }

  // remove_from_ready_queue
  function Remove(s: State, t: nat): State {
    s.(queue := Without(s.queue, t))
  }

  // ----- the thread table

  function Occupied(table: seq<nat>): nat {
    if table == [] then 0
    else Occupied(table[..|table| - 1]) + if table[|table| - 1] != 0 then 1 else 0
  }

  // The first free slot from i on, or |table|.
  function FreeSlot(table: seq<nat>, i: nat): (slot: nat)
    requires i <= |table|
    ensures i <= slot <= |table|
    ensures slot < |table| ==> table[slot] == 0
    ensures forall j :: i <= j < slot ==> table[j] != 0
    decreases |table| - i
  {
    if i == |table| || table[i] == 0 then i else FreeSlot(table, i + 1)
  }

  // thread_create with a function; t is where kmalloc puts the thread, 0 if it
  // fails, and stacks tells whether its stacks can be allocated.
  function Create(s: State, t: nat, ring3: bool, priority: int, zombie: bool, stacks: bool): (State, nat)
    requires |s.table| > 0
  {
    if s.count >= MAX_THREADS || t == 0 then (s, 0)
    else
      var s1 := s.(nextTid := s.nextTid + 1);
      if !stacks then (s1, 0)
      else
        var slot := FreeSlot(s.table, 1);
        if slot == |s.table| then (s1, 0)
        else
          (s1.(threads := s.threads[t := Thread(s.nextTid, Ready, ring3, priority, 0, ring3, zombie)],
               queue := s.queue + [t], table := s.table[slot := t], count := s.count + 1), t)
  }

  // thread_from_tid: the first table entry with this tid, 0 if there is none.
  function FromTid(s: State, tid: nat, i: nat): (t: nat)
    requires i <= |s.table|
    decreases |s.table| - i
  {
    if i == |s.table| then 0
    else
      var t := s.table[i];
      if t in s.threads && s.threads[t].tid == tid then t else FromTid(s, tid, i + 1)
  }

  datatype UnblockResult = Done | NoThread | NotBlocked

  // thread_unblock
  function Unblock(s: State, tid: nat): (State, UnblockResult) {
    var t := FromTid(s, tid, 0);
    if t !in s.threads then (s, NoThread)
    else if !s.threads[t].state.Blocked? then (s, NotBlocked)
    else (SetState(s, t, Ready).(queue := s.queue + [t]), Done)
  }

  // thread_block up to the interrupt it raises; the kernel thread and a missing
  // thread halt the machine.
  function Block(s: State, tid: nat): Option<State> {
    var t := FromTid(s, tid, 0);
    if t !in s.threads || tid == 0 then None
    else Some(Remove(SetState(s, t, Blocked), t))
  }

  // thread_exit up to its interrupt. peers are the threads of the process that
  // becomes a zombie with its main thread, none if another thread exits.
  function Exit(s: State, peers: set<nat>): Option<State> {
    if s.current !in s.threads || s.threads[s.current].tid == 0 then None
    else Some(SetState(s.(threads := Marked(s, peers)), s.current, Termed).(current := 0))
  }

  function Marked(s: State, peers: set<nat>): map<nat, Thread> {
    map t | t in s.threads :: MarkZombie(s.threads[t], t in peers)
  }

  function MarkZombie(th: Thread, mark: bool): Thread {
    if mark then th.(zombie := true) else th
  }

  // The body of clean_up for slot i.
  function CleanSlot(s: State, i: nat): State
    requires i < |s.table|
  {
    var t := s.table[i];
    if t == 0 || t !in s.threads || !s.threads[t].state.Termed? then s
    else s.(queue := Without(s.queue, t), threads := s.threads - {t}, table := s.table[i := 0],
            count := if s.count > 0 then s.count - 1 else 0)
  }

  // clean_up, for the slots below n.
  function CleanUp(s: State, n: nat): (r: State)
    requires n <= |s.table|
    ensures |r.table| == |s.table|
  {
    if n == 0 then s else CleanSlot(CleanUp(s, n - 1), n - 1)
  }

  // init_threading, up to the creation of the idle thread.
  function Init(kernelThread: nat, zombie: bool): State {
    var k := Thread(0, Running, false, 5, 0, false, zombie);
    State(map[kernelThread := k], [], seq(MAX_THREADS, i => if i == 0 then kernelThread else 0), kernelThread, 1, 1)
  }

  // ----- the invariant

  ghost predicate TableOk(s: State) {
    && |s.table| == MAX_THREADS
    && s.table[0] != 0 && 0 !in s.threads
    && (forall t :: t in s.threads ==> t in s.table)
    && (forall t :: t in s.table && t != 0 ==> t in s.threads)
    && (forall i, j :: 0 <= i < j < |s.table| && s.table[i] != 0 ==> s.table[i] != s.table[j])
    && s.count == Occupied(s.table)
  }

  // Live thread ids are distinct; userspace threads have a kernel stack.
  ghost predicate ThreadsOk(s: State) {
    && (forall t :: t in s.threads ==>
          s.threads[t].tid < s.nextTid && (s.threads[t].ring3 ==> s.threads[t].kernelStack))
    && (forall t, u :: t in s.threads && u in s.threads && t != u ==> s.threads[t].tid != s.threads[u].tid)
  }

  // The queue has no duplicate and holds ready threads only; only the current
  // thread runs, and it is not queued.
  ghost predicate QueueOk(s: State) {
    && NoDup(s.queue)
    && (forall t :: t in s.queue ==> t in s.threads && s.threads[t].state.Ready?)
    && (forall t :: t in s.threads && s.threads[t].state.Running? ==> t == s.current)
    && (s.current != 0 ==> s.current in s.threads && s.current !in s.queue)
  }

  // The thread in slot 0 has id 0, runs in ring 0 and is neither blocked nor
  // terminated.
  ghost predicate KernelOk(s: State) {
    && |s.table| > 0 && s.table[0] in s.threads
    && var k := s.threads[s.table[0]];
       k.tid == 0 && !k.ring3 && !k.state.Blocked? && !k.state.Termed?
  }

  ghost predicate Inv(s: State) {
    TableOk(s) && ThreadsOk(s) && QueueOk(s) && KernelOk(s)
  }

  // ----- lemmas on the table

  lemma {:induction false} OccupiedBound(table: seq<nat>)
    ensures Occupied(table) <= |table|
    ensures Occupied(table) == |table| <==> 0 !in table
  {
    if table != [] {
      var n := |table| - 1;
      OccupiedBound(table[..n]);
      assert table == table[..n] + [table[n]];
    }
  }

  lemma {:induction false} OccupiedUpdate(table: seq<nat>, i: nat, t: nat)
    requires i < |table|
    ensures Occupied(table[i := t]) == Occupied(table) - (if table[i] != 0 then 1 else 0) + (if t != 0 then 1 else 0)
  {
    var n := |table| - 1;
    if i == n {
      assert table[i := t][..n] == table[..n];
    } else {
      assert table[i := t][..n] == table[..n][i := t];
      OccupiedUpdate(table[..n], i, t);
    }
  }

  // The "no slots" branch of thread_create is never taken.
  lemma SlotExists(s: State)
    requires TableOk(s) && s.count < MAX_THREADS
    ensures 1 <= FreeSlot(s.table, 1) < |s.table|
  {
    OccupiedBound(s.table);
    var i :| 0 <= i < |s.table| && s.table[i] == 0;
    assert i != 0;
  }

  // A thread that can be dispatched at once; in userspace it has a kernel stack.
  ghost predicate NewThread(th: Thread, ring3: bool, priority: int, zombie: bool) {
    && th.state.Ready? && th.priority == priority && th.cooldown == 0
    && th.ring3 == ring3 && th.kernelStack == ring3 && th.zombie == zombie
  }

  // t comes into the lowest free slot other than slot 0.
  ghost predicate InFirstFree(table: seq<nat>, table1: seq<nat>, t: nat) {
    |table1| == |table| &&
    exists i :: 0 < i < |table| && table[i] == 0 && table1 == table[i := t] && forall j :: 0 < j < i ==> table[j] != 0
  }

  // thread_create with a thread at a fresh address keeps the invariant. It gives
  // a thread exactly when there is room and memory: ready, with a new tid, the
  // given priority and no cooldown, in the first free slot, at the end of the
  // queue. No other thread and no other slot changes.
  lemma CreateFacts(s: State, t: nat, ring3: bool, priority: int, zombie: bool, stacks: bool)
    requires Inv(s) && t !in s.threads
    ensures var (s1, r) := Create(s, t, ring3, priority, zombie, stacks);
      && Inv(s1) && (r == 0 || r == t)
      && (r != 0 <==> s.count < MAX_THREADS && t != 0 && stacks)
      && (r == 0 ==> s1 == s.(nextTid := s1.nextTid))
      && (r != 0 ==> s1.queue == s.queue + [t] && s1.threads.Keys == s.threads.Keys + {t})
      && (r != 0 ==> s1.threads[t].tid == s.nextTid && s1.count == s.count + 1)
      && (r != 0 ==> NewThread(s1.threads[t], ring3, priority, zombie))
      && (forall x :: x in s.threads ==> s1.threads[x] == s.threads[x])
      && (r != 0 ==> InFirstFree(s.table, s1.table, t))
      && s1.current == s.current
      && s1.nextTid == s.nextTid + (if s.count < MAX_THREADS && t != 0 then 1 else 0)
  {
    hide Inv, FreeSlot;
    CountedTable(s);
    if s.count < MAX_THREADS && t != 0 {
      SlotExists(s);
      if stacks {
        var i := FreeSlot(s.table, 1);
        CreatedOk(s, t, i, Thread(s.nextTid, Ready, ring3, priority, 0, ring3, zombie));
        assert s.table[i] == 0 && forall j :: 0 < j < i ==> s.table[j] != 0;
      }
    }
    if Create(s, t, ring3, priority, zombie, stacks).1 == 0 {
      SkippedTid(s);
    }
  }

  lemma CountedTable(s: State)
    requires Inv(s)
    ensures TableOk(s)
  {
  }

  // A number given to no thread.
  lemma SkippedTid(s: State)
    requires Inv(s)
    ensures Inv(s.(nextTid := s.nextTid + 1))
  {
    hide TableOk, QueueOk, KernelOk;
    SameParts(s, s.(nextTid := s.nextTid + 1));
  }

  lemma SameParts(s: State, s1: State)
    requires s1.threads == s.threads && s1.table == s.table && s1.count == s.count
    requires s1.queue == s.queue && s1.current == s.current
    ensures TableOk(s) ==> TableOk(s1)
    ensures QueueOk(s) ==> QueueOk(s1)
    ensures KernelOk(s) ==> KernelOk(s1)
  {
  }

  // A new thread in a free slot and at the end of the queue.
  lemma CreatedOk(s: State, t: nat, slot: nat, th: Thread)
    requires Inv(s) && t !in s.threads && t != 0 && 1 <= slot < |s.table| && s.table[slot] == 0
    requires th.tid == s.nextTid && th.state.Ready? && (th.ring3 ==> th.kernelStack)
    ensures Inv(s.(threads := s.threads[t := th], queue := s.queue + [t], table := s.table[slot := t],
                   count := s.count + 1, nextTid := s.nextTid + 1))
  {
    var s1 := s.(threads := s.threads[t := th], queue := s.queue + [t], table := s.table[slot := t],
                 count := s.count + 1, nextTid := s.nextTid + 1);
    CreatedTable(s, s1, slot, t);
    NotQueued(s, t);
    QueueAppended(s, t, th, s1);
    ThreadAdded(s, t, th, s1);
    hide TableOk, QueueOk, ThreadsOk, NoDup;
  }

  lemma ThreadAdded(s: State, t: nat, th: Thread, s1: State)
    requires ThreadsOk(s) && t !in s.threads && th.tid == s.nextTid && (th.ring3 ==> th.kernelStack)
    requires s1.threads == s.threads[t := th] && s1.nextTid == s.nextTid + 1
    ensures ThreadsOk(s1)
  {
  }

  lemma NotQueued(s: State, t: nat)
    requires Inv(s) && t !in s.threads
    ensures t !in s.queue && (t != s.current || s.current == 0)
  {
  }

  lemma CreatedTable(s: State, s1: State, slot: nat, t: nat)
    requires TableOk(s) && 1 <= slot < |s.table| && s.table[slot] == 0 && t != 0 && t !in s.threads
    requires s1.table == s.table[slot := t] && s1.threads.Keys == s.threads.Keys + {t}
    requires s1.count == s.count + 1
    ensures TableOk(s1)
  {
    OccupiedUpdate(s.table, slot, t);
    forall x | x in s1.threads
      ensures x in s1.table
    {
      if x == t {
        assert s1.table[slot] == t;
      } else {
        var i :| 0 <= i < |s.table| && s.table[i] == x;
        assert s1.table[i] == x;
      }
    }
    forall i, j | 0 <= i < j < |s1.table| && s1.table[i] != 0
      ensures s1.table[i] != s1.table[j]
    {
      if i == slot {
        assert s.table[j] != 0 ==> s.table[j] in s.threads;
      } else if j == slot {
        assert s.table[i] in s.threads;
      }
    }
  }

  lemma {:induction false} FromTidFrom(s: State, tid: nat, i: nat)
    requires TableOk(s) && i <= |s.table|
    ensures var t := FromTid(s, tid, i);
      && (t != 0 ==> t in s.threads && s.threads[t].tid == tid)
      && (t == 0 ==> forall j :: i <= j < |s.table| ==> s.table[j] in s.threads ==> s.threads[s.table[j]].tid != tid)
    decreases |s.table| - i
  {
    if i < |s.table| {
      var t := s.table[i];
      if !(t in s.threads && s.threads[t].tid == tid) {
        FromTidFrom(s, tid, i + 1);
      }
    }
  }

  // thread_from_tid finds the one live thread with this tid, if there is one.
  lemma FromTidFacts(s: State, tid: nat)
    requires TableOk(s) && ThreadsOk(s)
    ensures var t := FromTid(s, tid, 0);
      && (t != 0 ==> t in s.threads)
      && forall x :: x in s.threads ==> (s.threads[x].tid == tid <==> x == t)
  {
    FromTidFrom(s, tid, 0);
    var t := FromTid(s, tid, 0);
    if t == 0 {
      forall x | x in s.threads
        ensures s.threads[x].tid != tid
      {
        var j :| 0 <= j < |s.table| && s.table[j] == x;
      }
    }
  }

  // The table depends only on which threads there are.
  lemma SameTable(s: State, s1: State)
    requires TableOk(s) && s1.threads.Keys == s.threads.Keys && s1.table == s.table && s1.count == s.count
    ensures TableOk(s1) && s.table[0] in s1.threads
  {
  }

  lemma SetStateOk(s: State, t: nat, state: ThreadState)
    requires TableOk(s) && ThreadsOk(s) && KernelOk(s) && t in s.threads
    requires state.Termed? || state.Blocked? ==> t != s.table[0]
    ensures var s1 := SetState(s, t, state); TableOk(s1) && ThreadsOk(s1) && KernelOk(s1)
  {
    assert SetState(s, t, state).threads.Keys == s.threads.Keys;
    SameTable(s, SetState(s, t, state));
    hide TableOk;
  }

  lemma AppendNoDup(q: seq<nat>, t: nat)
    requires NoDup(q) && t !in q
    ensures NoDup(q + [t])
  {
    JoinNoDup(q, [t]);
  }

  lemma QueueAppended(s: State, t: nat, th: Thread, s1: State)
    requires QueueOk(s) && t !in s.queue && (t != s.current || s.current == 0) && th.state.Ready?
    requires s1.threads == s.threads[t := th] && s1.queue == s.queue + [t] && s1.current == s.current
    ensures QueueOk(s1)
  {
    AppendNoDup(s.queue, t);
    hide NoDup;
  }

  // A thread that is not current becomes ready at the end of the queue.
  lemma QueuedOk(s: State, t: nat)
    requires Inv(s) && t in s.threads && t != s.current && t !in s.queue
    ensures Inv(SetState(s, t, Ready).(queue := s.queue + [t]))
  {
    var s1 := SetState(s, t, Ready).(queue := s.queue + [t]);
    assert s1.threads.Keys == s.threads.Keys;
    SameTable(s, s1);
    QueueAppended(s, t, s.threads[t].(state := Ready), s1);
    hide TableOk, QueueOk;
  }

  lemma QueuedReady(s: State)
    requires Inv(s)
    ensures forall t :: t in s.queue ==> t in s.threads && s.threads[t].state.Ready?
  {
  }

  // At most the queue and the state of t differ.
  ghost predicate OthersSame(s: State, s1: State, t: nat) {
    && s1 == s.(threads := s1.threads, queue := s1.queue) && s1.threads.Keys == s.threads.Keys
    && forall x :: x in s.threads ==>
         s1.threads[x] == if x == t then s.threads[x].(state := s1.threads[x].state) else s.threads[x]
  }

  // add_to_ready_queue puts a thread that is not current at the end, once: a
  // second call changes nothing.
  lemma AddFacts(s: State, t: nat)
    requires Inv(s) && t != s.current
    ensures Inv(Add(s, t)) && Add(Add(s, t), t) == Add(s, t)
    ensures t in s.threads && !s.threads[t].state.Termed? ==>
      && Add(s, t).queue == (if t in s.queue then s.queue else s.queue + [t])
      && Add(s, t).threads[t].state.Ready?
    ensures OthersSame(s, Add(s, t), t)
  {
    QueuedReady(s);
    hide TableOk, ThreadsOk, QueueOk, KernelOk;
    if t in s.threads && !s.threads[t].state.Termed? && t !in s.queue {
      QueuedOk(s, t);
    }
  }

  lemma RemoveFacts(s: State, t: nat)
    requires Inv(s)
    ensures Inv(Remove(s, t))
    ensures forall x :: x in Remove(s, t).queue <==> x in s.queue && x != t
    ensures Remove(s, t) == s.(queue := Remove(s, t).queue) && TakenOut(s.queue, t, Remove(s, t).queue)
  {
    WithoutFacts(s.queue, t);
    WithoutTakesOut(s.queue, t);
  }

  // q1 is q without t, in the same order.
  ghost predicate TakenOut(q: seq<nat>, t: nat, q1: seq<nat>) {
    if t in q then exists i :: 0 <= i < |q| && q[i] == t && q1 == q[..i] + q[i + 1..] else q1 == q
  }

  lemma WithoutTakesOut(q: seq<nat>, t: nat)
    requires NoDup(q)
    ensures TakenOut(q, t, Without(q, t))
  {
    WithoutFacts(q, t);
    if t in q {
      var i :| 0 <= i < |q| && q[i] == t;
      WithoutAt(q, i);
    }
  }

  // The running thread makes the call.
  ghost predicate CurrentRuns(s: State) {
    s.current != 0 ==> s.current in s.threads && s.threads[s.current].state.Running?
  }

  // The current thread has this tid and is marked blocked, as between
  // acquire_mutex and the next tick.
  ghost predicate WakesCurrent(s: State, tid: nat) {
    s.current in s.threads && s.threads[s.current].tid == tid && s.threads[s.current].state.Blocked?
  }

  // thread_unblock wakes exactly a live, blocked thread with this tid: it becomes
  // ready at the end of the queue, and nothing else changes. It keeps the
  // invariant unless that is the current thread, which is then queued while it runs.
  lemma UnblockFacts(s: State, tid: nat)
    requires Inv(s)
    ensures var (s1, r) := Unblock(s, tid);
      && (Inv(s1) <==> !WakesCurrent(s, tid))
      && (CurrentRuns(s) ==> Inv(s1) && CurrentRuns(s1))
      && (r.Done? <==> exists t :: t in s.threads && s.threads[t].tid == tid && s.threads[t].state.Blocked?)
      && (r.NoThread? <==> forall t :: t in s.threads ==> s.threads[t].tid != tid)
      && (!r.Done? ==> s1 == s)
      && (r.Done? ==> forall t :: t in s.threads && s.threads[t].tid == tid ==>
           s1.queue == s.queue + [t] && OthersSame(s, s1, t) && s1.threads[t].state.Ready?)
  {
    FromTidFacts(s, tid);
    var t := FromTid(s, tid, 0);
    if t != 0 && s.threads[t].state.Blocked? && t != s.current {
      QueuedOk(s, t);
    }
  }

  lemma BlockedOk(s: State, t: nat)
    requires Inv(s) && t in s.threads && t != s.table[0]
    ensures Inv(Remove(SetState(s, t, Blocked), t))
  {
    SetStateOk(s, t, Blocked);
    WithoutFacts(s.queue, t);
  }

  // thread_block stops exactly a live thread other than the kernel's, and takes it
  // off the queue; nothing else changes.
  lemma BlockFacts(s: State, tid: nat)
    requires Inv(s)
    ensures var r := Block(s, tid);
      && (r.Some? <==> tid != 0 && exists t :: t in s.threads && s.threads[t].tid == tid)
      && (r.Some? ==> Inv(r.value))
      && (r.Some? ==> forall t :: t in s.threads && s.threads[t].tid == tid ==>
           r.value.threads[t].state.Blocked? && t !in r.value.queue &&
           TakenOut(s.queue, t, r.value.queue) && OthersSame(s, r.value, t))
  {
    FromTidFacts(s, tid);
    var t := FromTid(s, tid, 0);
    if t != 0 && tid != 0 {
      BlockedOk(s, t);
      WithoutFacts(s.queue, t);
      WithoutTakesOut(s.queue, t);
    }
  }

  // Zombie marks play no part in the invariant.
  lemma MarkedOk(s: State, peers: set<nat>)
    requires Inv(s)
    ensures Inv(s.(threads := Marked(s, peers)))
  {
    hide NoDup;
    var s1 := s.(threads := Marked(s, peers));
    assert s1.threads.Keys == s.threads.Keys;
    SameTable(s, s1);
    hide TableOk, NoDup;
  }

  lemma KnownCurrent(s: State)
    requires Inv(s)
    ensures s.current in s.threads <==> s.current != 0
    ensures s.current in s.threads ==> (s.threads[s.current].tid == 0 <==> s.current == s.table[0])
  {
  }

  // Only the current thread ends, only the peers become a zombie's, and no thread
  // is current.
  ghost predicate Exited(s: State, peers: set<nat>, s1: State) {
    && s1 == s.(threads := s1.threads, current := 0) && s1.threads.Keys == s.threads.Keys
    && forall t :: t in s.threads ==>
         && s1.threads[t] == s.threads[t].(state := s1.threads[t].state, zombie := s1.threads[t].zombie)
         && (t != s.current ==> s1.threads[t].state == s.threads[t].state)
         && (s1.threads[t].zombie <==> s.threads[t].zombie || t in peers)
  }

  lemma ExitFacts(s: State, peers: set<nat>)
    requires Inv(s)
    ensures var r := Exit(s, peers);
      && (r.Some? <==> s.current != 0 && s.current != s.table[0])
      && (r.Some? ==> Inv(r.value) && CurrentRuns(r.value) && r.value.threads[s.current].state.Termed?)
      && (r.Some? ==> Exited(s, peers, r.value))
  {
    KnownCurrent(s);
    hide TableOk, ThreadsOk, NoDup, Marked;
    if Exit(s, peers).Some? {
      MarkedOk(s, peers);
      SetStateOk(s.(threads := Marked(s, peers)), s.current, Termed);
      ExitedFacts(s, peers);
    }
  }

  lemma ExitedFacts(s: State, peers: set<nat>)
    requires Exit(s, peers).Some?
    ensures Exited(s, peers, Exit(s, peers).value)
  {
  }

  // ----- clean_up

  ghost function Live(threads: map<nat, Thread>): map<nat, Thread> {
    map t | t in threads && !threads[t].state.Termed? :: threads[t]
  }

  // s1 is s with some terminated threads gone.
  ghost predicate Cleaned(s: State, s1: State) {
    && s1.current == s.current && s1.queue == s.queue && s1.nextTid == s.nextTid
    && Live(s1.threads) == Live(s.threads)
    && forall x :: x in s1.threads ==> x in s.threads && s1.threads[x] == s.threads[x]
  }

  ghost predicate CurrentLive(s: State) {
    s.current != 0 ==> s.current in s.threads && !s.threads[s.current].state.Termed?
  }

  lemma CleanedTable(s: State, i: nat, s1: State)
    requires TableOk(s) && 0 < i < |s.table| && s.table[i] in s.threads
    requires s1.threads == s.threads - {s.table[i]} && s1.table == s.table[i := 0] && s1.count == s.count - 1
    ensures TableOk(s1)
  {
    OccupiedUpdate(s.table, i, 0);
    forall x | x in s1.threads
      ensures x in s1.table
    {
      var j :| 0 <= j < |s.table| && s.table[j] == x;
      assert s1.table[j] == x;
    }
    forall x | x in s1.table && x != 0
      ensures x in s1.threads
    {
      var j :| 0 <= j < |s1.table| && s1.table[j] == x;
      assert s.table[j] == x && j != i;
    }
  }

  lemma CleanedCount(s: State, i: nat)
    requires TableOk(s) && i < |s.table| && s.table[i] != 0
    ensures s.count > 0
  {
    OccupiedUpdate(s.table, i, 0);
  }

  // What remains valid when a thread that is not current is dropped.
  lemma CleanedThreads(s: State, t: nat, s1: State)
    requires ThreadsOk(s) && QueueOk(s) && t !in s.queue && t != s.current
    requires s1.threads == s.threads - {t} && s1.queue == s.queue && s1.nextTid == s.nextTid && s1.current == s.current
    ensures ThreadsOk(s1) && QueueOk(s1)
  {
  }

  lemma CleanedLive(s: State, t: nat, s1: State)
    requires t in s.threads && s.threads[t].state.Termed? && s1.threads == s.threads - {t}
    requires s1.queue == s.queue && s1.nextTid == s.nextTid && s1.current == s.current
    ensures Cleaned(s, s1)
  {
    assert Live(s1.threads) == Live(s.threads);
  }

  lemma CleanSlotFacts(s: State, i: nat)
    requires Inv(s) && i < |s.table| && CurrentLive(s)
    ensures var s1 := CleanSlot(s, i);
      && Inv(s1) && Cleaned(s, s1) && CurrentLive(s1)
      && s1.table[i] == (if s.table[i] != 0 && s.threads[s.table[i]].state.Termed? then 0 else s.table[i])
      && (forall j :: 0 <= j < |s.table| && j != i ==> s1.table[j] == s.table[j])
  {
    hide NoDup, Occupied, Live;
    var t, s1 := s.table[i], CleanSlot(s, i);
    if t != 0 && s.threads[t].state.Termed? {
      WithoutFacts(s.queue, t);
      CleanedCount(s, i);
      CleanedTable(s, i, s1);
      CleanedThreads(s, t, s1);
      CleanedLive(s, t, s1);
    }
  }

  // After clean_up no terminated thread is left in the table or the queue, every
  // other thread is untouched, and thread_count is right.
  lemma {:induction false} CleanUpFacts(s: State, n: nat)
    requires Inv(s) && n <= |s.table| && CurrentLive(s)
    ensures var s1 := CleanUp(s, n);
      && Inv(s1) && Cleaned(s, s1) && CurrentLive(s1) && SlotsKept(s, s1.table)
      && forall j :: 0 <= j < n ==> s1.table[j] != 0 ==> !s1.threads[s1.table[j]].state.Termed?
  {
    if n > 0 {
      CleanUpFacts(s, n - 1);
      var r := CleanUp(s, n - 1);
      CleanSlotFacts(r, n - 1);
      CleanedSlots(r, n - 1);
      SlotsStep(s, r, n - 1);
    }
  }

  // No thread moves to another slot, and only a terminated one loses its own.
  ghost predicate SlotsKept(s: State, table: seq<nat>) {
    |table| == |s.table| &&
    forall j :: 0 <= j < |table| ==>
      || table[j] == s.table[j]
      || (table[j] == 0 && s.table[j] in s.threads && s.threads[s.table[j]].state.Termed?)
  }

  lemma SlotsStep(s: State, r: State, i: nat)
    requires SlotsKept(s, r.table) && Cleaned(s, r) && i < |r.table|
    ensures SlotsKept(s, CleanSlot(r, i).table)
  {
  }

  // Cleaning one slot leaves the slots before it clean.
  lemma CleanedSlots(r: State, i: nat)
    requires Inv(r) && i < |r.table| && CurrentLive(r)
    requires forall j :: 0 <= j < i ==> r.table[j] != 0 ==> !r.threads[r.table[j]].state.Termed?
    ensures var s1 := CleanSlot(r, i);
      TableOk(s1) && forall j :: 0 <= j <= i ==> s1.table[j] != 0 ==> !s1.threads[s1.table[j]].state.Termed?
  {
    CleanSlotFacts(r, i);
  }

  lemma AllClean(s: State)
    requires TableOk(s)
    requires forall j :: 0 <= j < |s.table| ==> s.table[j] != 0 ==> !s.threads[s.table[j]].state.Termed?
    ensures s.threads == Live(s.threads) && s.count == Occupied(s.table)
  {
    forall t | t in s.threads
      ensures !s.threads[t].state.Termed?
    {
      var j :| 0 <= j < |s.table| && s.table[j] == t;
    }
    assert s.threads == Live(s.threads);
  }

  lemma CleanUpAll(s: State)
    requires Inv(s) && CurrentLive(s)
    ensures var s1 := CleanUp(s, |s.table|);
      && Inv(s1) && s1.current == s.current && s1.threads == Live(s.threads) && s1.queue == s.queue
      && s1.count == Occupied(s1.table) && SlotsKept(s, s1.table)
  {
    hide CleanUp;
    CleanUpFacts(s, |s.table|);
    AllClean(CleanUp(s, |s.table|));
  }

  lemma InitOk(kernelThread: nat, zombie: bool)
    requires kernelThread != 0
    ensures Inv(Init(kernelThread, zombie))
  {
    var s := Init(kernelThread, zombie);
    assert s.table[0] == kernelThread;
    OnlyFirst(s.table, kernelThread);
  }

  lemma {:induction false} OnlyFirst(table: seq<nat>, t: nat)
    requires t != 0 && table != [] && table[0] == t && forall i :: 1 <= i < |table| ==> table[i] == 0
    ensures Occupied(table) == 1
  {
    var n := |table| - 1;
    if n > 0 {
      OnlyFirst(table[..n], t);
    } else {
      assert Occupied(table[..0]) == 0;
    }
  }
}
