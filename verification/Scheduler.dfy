// scheduler_tick: the selection loop of src/scheduling/scheduler.c.
module Scheduler {
  import opened Lists
  import opened Threads

  // priority_to_stride
  function Stride(priority: int): (stride: nat)
    ensures stride in {1, 2, 4, 8, 16, 32} && 32 % stride == 0
  {
    match priority
    case 5 => 1
    case 4 => 2
    case 3 => 4
    case 2 => 8
    case 1 => 16
    case 0 => 32
    case _ => 8
  }

  // Each step of priority halves the stride, down to 1 for the highest; a value
  // outside the scale counts as normal priority.
  lemma StrideHalves(priority: int)
    ensures 0 <= priority < 5 ==> Stride(priority) == 2 * Stride(priority + 1)
    ensures Stride(5) == 1
    ensures priority < 0 || priority > 5 ==> Stride(priority) == Stride(2)
  {
  }

  // What the tick does with the interrupted thread.
  function Enter(s: State): State {
    if s.current !in s.threads then s
    else if s.threads[s.current].state.Running? || s.threads[s.current].state.Ready? then
      SetState(s, s.current, Ready).(queue := s.queue + [s.current])
    else Remove(s, s.current).(current := 0)
  }

  // The queue from its first thread on whose process is not a zombie.
  function DropZombies(threads: map<nat, Thread>, q: seq<nat>): (r: seq<nat>)
    ensures |r| <= |q| && forall t :: t in r ==> t in q
    ensures r != [] && r[0] in threads ==> !threads[r[0]].zombie
  {
    if q != [] && q[0] in threads && threads[q[0]].zombie then DropZombies(threads, q[1..]) else q
  }

  // The first ready thread of the table from slot i on; failing that the thread
  // in slot 0 unless it is terminated; failing that 0.
  function Fallback(s: State, i: nat): (t: nat)
    requires 0 < i <= |s.table|
    ensures t == 0 || t in s.threads
    decreases |s.table| - i
  {
    if i == |s.table| then
      if s.table[0] in s.threads && !s.threads[s.table[0]].state.Termed? then s.table[0] else 0
    else if s.table[i] != 0 && s.table[i] in s.threads && s.threads[s.table[i]].state.Ready? then s.table[i]
    else Fallback(s, i + 1)
  }

  datatype Verdict = Again | Idle | Dispatched(thread: nat)

  // One candidate, already off the queue.
  function Consider(s: State, t: nat): (State, Verdict)
    requires t in s.threads
  {
    var th := s.threads[t];
    if th.state.Blocked? || th.state.Termed? then (Remove(s, t), Again)
    else if th.cooldown > 0 then
      (s.(threads := s.threads[t := th.(cooldown := th.cooldown - 1)], queue := s.queue + [t]), Again)
    else
      var th1 := th.(cooldown := Stride(th.priority) - 1);
      if th.ring3 && !th.kernelStack then (s.(threads := s.threads[t := th1.(state := Termed)]), Again)
      else (s.(threads := s.threads[t := th1.(state := Running)], current := t), Dispatched(t))
  }

  // The queue names existing threads and the table is there.
  ghost predicate Closed(s: State) {
    |s.table| > 0 && 0 !in s.threads && forall t :: t in s.queue ==> t in s.threads
  }

  // The next candidate: the first queued thread that is no zombie's, failing that
  // what the table has.
  function Candidate(s: State): (t: nat)
    requires Closed(s)
    ensures t == 0 || t in s.threads
  {
    var q := DropZombies(s.threads, s.queue);
    if q != [] then q[0] else Fallback(s, 1)
  }

  // The queue without the candidate and the zombies before it.
  function Rest(s: State): (q: seq<nat>)
    ensures forall t :: t in q ==> t in s.queue
  {
    var q := DropZombies(s.threads, s.queue);
    if q != [] then q[1..] else []
  }

  // One turn of the selection loop.
  function Turn(s: State): (State, Verdict)
    requires Closed(s)
  {
    var next, s1 := Candidate(s), s.(queue := Rest(s));
    if next == 0 then (s1, Idle) else Consider(s1, next)
  }

  // ----- termination of the loop

  ghost function Total(m: map<nat, nat>): nat
    decreases |m|
  {
    if m == map[] then 0 else var k := Pick(m); m[k] + Total(m - {k})
  }

  ghost function Pick(m: map<nat, nat>): (k: nat)
    requires m != map[]
    ensures k in m
  {
    var k :| k in m; k
  }

  lemma {:induction false} TotalWithout(m: map<nat, nat>, k: nat)
    requires k in m
    ensures Total(m) == m[k] + Total(m - {k})
    decreases |m|
  {
    var p := Pick(m);
    if p != k {
      TotalWithout(m - {p}, k);
      TotalWithout(m - {k}, p);
      assert m - {p} - {k} == m - {k} - {p};
    }
  }

  ghost function Cooldowns(threads: map<nat, Thread>): map<nat, nat> {
    map t | t in threads :: threads[t].cooldown
  }

  ghost function NotTermed(threads: map<nat, Thread>): set<nat> {
    set t | t in threads && !threads[t].state.Termed?
  }

  // Fewer live threads; or the same and less cooldown in all; or the same and a
  // shorter queue.
  ghost predicate Less(a: State, b: State) {
    || |NotTermed(a.threads)| < |NotTermed(b.threads)|
    || (|NotTermed(a.threads)| == |NotTermed(b.threads)| &&
        Total(Cooldowns(a.threads)) < Total(Cooldowns(b.threads)))
    || (|NotTermed(a.threads)| == |NotTermed(b.threads)| &&
        Total(Cooldowns(a.threads)) == Total(Cooldowns(b.threads)) && |a.queue| < |b.queue|)
  }

  // The one state the loop cannot leave: nothing is queued or ready and the
  // kernel thread is blocked.
  ghost predicate Stuck(s: State)
    requires |s.table| > 0
  {
    && s.queue == [] && s.table[0] in s.threads && s.threads[s.table[0]].state.Blocked?
    && Fallback(s, 1) == s.table[0]
  }

  lemma CoolerTotal(threads: map<nat, Thread>, t: nat, th: Thread)
    requires t in threads && th.cooldown < threads[t].cooldown
    ensures Total(Cooldowns(threads[t := th])) < Total(Cooldowns(threads))
  {
    TotalWithout(Cooldowns(threads), t);
    TotalWithout(Cooldowns(threads[t := th]), t);
    assert Cooldowns(threads[t := th]) - {t} == Cooldowns(threads) - {t};
  }

  lemma ConsiderDecreases(s: State, t: nat)
    requires t in s.threads && !s.threads[t].state.Blocked? && !s.threads[t].state.Termed?
    ensures Consider(s, t).1.Again? ==>
      forall b: State {:trigger Less(Consider(s, t).0, b)} :: b.threads == s.threads ==> Less(Consider(s, t).0, b)
  {
    var th := s.threads[t];
    if th.cooldown > 0 {
      var th1 := th.(cooldown := th.cooldown - 1);
      CoolerTotal(s.threads, t, th1);
      assert NotTermed(s.threads[t := th1]) == NotTermed(s.threads);
    } else {
      var th1 := th.(cooldown := Stride(th.priority) - 1, state := Termed);
      assert NotTermed(s.threads[t := th1]) == NotTermed(s.threads) - {t};
    }
  }

  lemma {:induction false} FallbackState(s: State, i: nat)
    requires 0 < i <= |s.table|
    ensures var t := Fallback(s, i);
      t != 0 ==> s.threads[t].state.Ready? || (t == s.table[0] && !s.threads[t].state.Termed?)
    decreases |s.table| - i
  {
    if i < |s.table| && !(s.table[i] != 0 && s.table[i] in s.threads && s.threads[s.table[i]].state.Ready?) {
      FallbackState(s, i + 1);
    }
  }

  ghost predicate ReadyAt(s: State, j: nat)
    requires j < |s.table|
  {
    s.table[j] != 0 && s.table[j] in s.threads && s.threads[s.table[j]].state.Ready?
  }

  // The fallback is the ready thread in the lowest slot, and the kernel thread
  // only when no other one is ready.
  lemma {:induction false} FallbackIsFirst(s: State, i: nat)
    requires 0 < i <= |s.table|
    ensures var t := Fallback(s, i);
      || (exists j :: i <= j < |s.table| && ReadyAt(s, j) && t == s.table[j] &&
            forall k :: i <= k < j ==> !ReadyAt(s, k))
      || ((forall k :: i <= k < |s.table| ==> !ReadyAt(s, k)) &&
          t == if s.table[0] in s.threads && !s.threads[s.table[0]].state.Termed? then s.table[0] else 0)
    decreases |s.table| - i
  {
    if i < |s.table| && !ReadyAt(s, i) {
      FallbackIsFirst(s, i + 1);
    }
  }

  lemma WithoutShorter(q: seq<nat>, t: nat)
    ensures |Without(q, t)| <= |q|
  {
  }

  lemma {:induction false} FallbackSame(s: State, s1: State, i: nat)
    requires 0 < i <= |s.table| && s1.table == s.table && s1.threads == s.threads
    ensures Fallback(s1, i) == Fallback(s, i)
    decreases |s.table| - i
  {
    if i < |s.table| {
      FallbackSame(s, s1, i + 1);
    }
  }

  lemma TurnFromQueue(s: State, t: nat, rest: seq<nat>)
    requires t in s.threads && |rest| < |s.queue|
    ensures var (s1, v) := Consider(s.(queue := rest), t); v.Again? ==> Less(s1, s)
  {
    var s0 := s.(queue := rest);
    if s.threads[t].state.Blocked? || s.threads[t].state.Termed? {
      WithoutShorter(rest, t);
    } else {
      ConsiderDecreases(s0, t);
    }
  }

  lemma TurnFromTable(s: State)
    requires Closed(s) && DropZombies(s.threads, s.queue) == [] && Fallback(s, 1) != 0
    ensures Turn(s).1.Again? && !Less(Turn(s).0, s) ==> Stuck(Turn(s).0)
  {
    var next, s1 := Fallback(s, 1), s.(queue := []);
    FallbackState(s, 1);
    FallbackSame(s, s1, 1);
    if !s.threads[next].state.Blocked? {
      ConsiderDecreases(s1, next);
    } else {
      assert Consider(s1, next) == (s1, Again);
    }
  }

  // A turn that has to be repeated decreases the measure, unless the loop is
  // stuck; and a stuck loop repeats for ever without changing anything.
  lemma TurnDecreases(s: State)
    requires Closed(s)
    ensures Turn(s).1.Again? && !Less(Turn(s).0, s) ==> Stuck(Turn(s).0)
    ensures Stuck(s) ==> Turn(s) == (s, Again)
  {
    if DropZombies(s.threads, s.queue) != [] {
      TurnFromQueue(s, Candidate(s), Rest(s));
    } else if Fallback(s, 1) != 0 {
      TurnFromTable(s);
    }
  }

  // The kernel thread is not blocked.
  ghost predicate KernelAwake(s: State) {
    |s.table| > 0 && (s.table[0] in s.threads ==> !s.threads[s.table[0]].state.Blocked?)
  }

  lemma ConsiderKeepsClosed(s: State, t: nat)
    requires Closed(s) && t in s.threads
    ensures var s1 := Consider(s, t).0;
      && Closed(s1) && s1.table == s.table && s1.threads.Keys == s.threads.Keys
      && forall x :: x in s.threads && s1.threads[x].state.Blocked? ==> s.threads[x].state.Blocked?
  {
    WithoutMembers(s.queue, t);
  }

  lemma TurnKeepsClosed(s: State)
    requires Closed(s)
    ensures Closed(Turn(s).0) && Turn(s).0.table == s.table && Turn(s).0.threads.Keys == s.threads.Keys
    ensures KernelAwake(s) ==> KernelAwake(Turn(s).0)
  {
    if Candidate(s) != 0 {
      ConsiderKeepsClosed(s.(queue := Rest(s)), Candidate(s));
    }
  }

  lemma {:induction false} WithoutMembers(q: seq<nat>, x: nat)
    ensures forall t :: t in Without(q, x) ==> t in q
  {
    if q != [] {
      WithoutMembers(q[1..], x);
    }
  }

  // The selection loop.
  function Select(s: State): (State, Verdict)
    requires Closed(s) && KernelAwake(s)
    decreases |NotTermed(s.threads)|, Total(Cooldowns(s.threads)), |s.queue|
  {
    var (s1, v) := Turn(s);
    if v.Again? then
      TurnKeepsClosed(s);
      TurnDecreases(s);
      Select(s1)
    else (s1, v)
  }

  // What one turn leaves of the loop.
  lemma AgainDecreases(s: State)
    requires Closed(s) && KernelAwake(s)
    ensures Turn(s).1.Again? ==> Less(Turn(s).0, s)
    ensures Turn(s).1.Again? ==> Closed(Turn(s).0) && KernelAwake(Turn(s).0)
    ensures Select(s) == if Turn(s).1.Again? then Select(Turn(s).0) else Turn(s)
  {
    TurnDecreases(s);
    TurnKeepsClosed(s);
  }

  // The loop ends within k turns.
  ghost predicate Ends(s: State, k: nat)
    requires Closed(s)
    decreases k
  {
    k > 0 && (!Turn(s).1.Again? || (TurnKeepsClosed(s); Ends(Turn(s).0, k - 1)))
  }

  // The loop gets stuck within k turns.
  ghost predicate Sticks(s: State, k: nat)
    requires Closed(s)
    decreases k
  {
    Stuck(s) || (k > 0 && Turn(s).1.Again? && (TurnKeepsClosed(s); Sticks(Turn(s).0, k - 1)))
  }

  // A userspace thread without a kernel stack is never run.
  predicate CanRun(th: Thread) {
    th.ring3 ==> th.kernelStack
  }

  ghost predicate QueuedAble(s: State, t: nat) {
    && t in s.queue && t in s.threads && CanRun(s.threads[t])
    && !s.threads[t].zombie && !s.threads[t].state.Blocked? && !s.threads[t].state.Termed?
  }

  ghost predicate SlotAble(s: State, j: nat) {
    0 < j < |s.table| && ReadyAt(s, j) && CanRun(s.threads[s.table[j]])
  }

  // Some thread can be run: a queued one that is no zombie's, or a ready one in a
  // slot of the table.
  ghost predicate Able(s: State) {
    (exists t :: QueuedAble(s, t)) || (exists j :: SlotAble(s, j))
  }

  // The loop ends exactly when the kernel thread is not blocked or some other
  // thread can be run; otherwise it gets stuck.
  lemma EndsExactly(s: State)
    requires Closed(s)
    ensures (exists k: nat :: Ends(s, k)) <==> KernelAwake(s) || Able(s)
    ensures (exists k: nat :: Sticks(s, k)) <==> !KernelAwake(s) && !Able(s)
  {
    var k := OneOrOther(s);
    forall i: nat, j: nat
      ensures !(Ends(s, i) && Sticks(s, j))
    {
      if Sticks(s, j) {
        NotBoth(s, i, j);
      }
    }
    if KernelAwake(s) || Able(s) {
      AliveNeverSticks(s, k);
    } else {
      HungNeverEnds(s, k);
    }
  }

  // The input on which it hangs: the kernel thread alone in its table, as at boot,
  // and blocked.
  lemma KernelBlockedAlone(kernelThread: nat, zombie: bool)
    requires kernelThread != 0
    ensures var s := SetState(Init(kernelThread, zombie), kernelThread, Blocked);
      Closed(s) && |s.table| == MAX_THREADS && Stuck(s) && !exists k: nat :: Ends(s, k)
  {
    var s := SetState(Init(kernelThread, zombie), kernelThread, Blocked);
    FallbackIsFirst(s, 1);
    EndsExactly(s);
  }

  lemma {:induction false} OneOrOther(s: State) returns (k: nat)
    requires Closed(s)
    ensures Ends(s, k) || Sticks(s, k)
    decreases |NotTermed(s.threads)|, Total(Cooldowns(s.threads)), |s.queue|
  {
    k := 1;
    if Turn(s).1.Again? {
      TurnKeepsClosed(s);
      TurnDecreases(s);
      if !Stuck(Turn(s).0) {
        var j := OneOrOther(Turn(s).0);
        k := j + 1;
      }
    }
  }

  lemma {:induction false} NotBoth(s: State, j: nat, k: nat)
    requires Closed(s) && Sticks(s, k)
    ensures !Ends(s, j)
    decreases j
  {
    if j > 0 {
      TurnDecreases(s);
      TurnKeepsClosed(s);
      if Stuck(s) {
        NotBoth(s, j - 1, k);
      } else {
        NotBoth(Turn(s).0, j - 1, k - 1);
      }
    }
  }

  // What Consider does to the queue and to each thread.
  lemma ConsiderEffect(s: State, t: nat)
    requires t in s.threads
    ensures var (s1, v) := Consider(s, t);
      && t in s1.threads && (forall x :: x in s.threads && x != t ==> x in s1.threads && s1.threads[x] == s.threads[x])
      && (forall x :: x in s1.queue ==> x in s.queue || x == t)
      && (forall x :: x in s.queue && x != t ==> x in s1.queue)
      && CanRun(s1.threads[t]) == CanRun(s.threads[t]) && s1.threads[t].zombie == s.threads[t].zombie
      && (v.Again? ==>
            s1.threads[t].state == s.threads[t].state || (s1.threads[t].state.Termed? && !CanRun(s.threads[t])))
  {
    WithoutMembers(s.queue, t);
    WithoutOthers(s.queue, t);
  }

  lemma {:induction false} WithoutOthers(q: seq<nat>, x: nat)
    ensures forall t :: t in q && t != x ==> t in Without(q, x)
  {
    if q != [] {
      WithoutOthers(q[1..], x);
      assert q == [q[0]] + q[1..];
    }
  }

  // A candidate that can be run is dispatched or queued again.
  lemma ConsiderAble(s: State, t: nat)
    requires t in s.threads && CanRun(s.threads[t])
    requires !s.threads[t].state.Blocked? && !s.threads[t].state.Termed?
    ensures Consider(s, t).1.Again? ==> t in Consider(s, t).0.queue
  {
  }

  lemma {:induction false} DropKeeps(threads: map<nat, Thread>, q: seq<nat>, t: nat)
    requires t in q && t in threads && !threads[t].zombie
    ensures t in DropZombies(threads, q)
  {
    if q[0] in threads && threads[q[0]].zombie {
      assert q == [q[0]] + q[1..];
      DropKeeps(threads, q[1..], t);
    }
  }

  lemma QueuedAbleTurn(s: State, t: nat)
    requires Closed(s) && QueuedAble(s, t)
    ensures Turn(s).1.Again? ==> QueuedAble(Turn(s).0, t)
  {
    DropKeeps(s.threads, s.queue, t);
    var q, c := DropZombies(s.threads, s.queue), Candidate(s);
    assert q == [q[0]] + q[1..];
    var s0 := s.(queue := Rest(s));
    ConsiderEffect(s0, c);
    if c == t {
      ConsiderAble(s0, t);
    }
  }

  lemma SlotAbleTurn(s: State, j: nat)
    requires Closed(s) && SlotAble(s, j)
    ensures Turn(s).1.Again? ==> SlotAble(Turn(s).0, j)
  {
    TurnKeepsClosed(s);
    if Candidate(s) != 0 {
      ConsiderEffect(s.(queue := Rest(s)), Candidate(s));
    }
  }

  lemma AbleNotStuck(s: State)
    requires Closed(s) && Able(s)
    ensures !Stuck(s)
  {
    if j :| SlotAble(s, j) {
      FallbackIsFirst(s, 1);
    }
  }

  lemma {:induction false} AliveNeverSticks(s: State, k: nat)
    requires Closed(s) && (KernelAwake(s) || Able(s))
    ensures !Sticks(s, k)
    decreases k
  {
    TurnKeepsClosed(s);
    if Able(s) {
      AbleNotStuck(s);
      AbleTurn(s);
    }
    if k > 0 && Turn(s).1.Again? {
      AliveNeverSticks(Turn(s).0, k - 1);
    }
  }

  lemma AbleTurn(s: State)
    requires Closed(s) && Able(s)
    ensures Turn(s).1.Again? ==> Able(Turn(s).0)
  {
    if t :| QueuedAble(s, t) {
      QueuedAbleTurn(s, t);
    } else {
      var j :| SlotAble(s, j);
      SlotAbleTurn(s, j);
    }
  }

  // Without a thread to run the candidate is only requeued, dropped or ended.
  lemma HungTurn(s: State)
    requires Closed(s) && !KernelAwake(s) && !Able(s)
    ensures Closed(Turn(s).0) && Turn(s).1.Again? && !KernelAwake(Turn(s).0) && !Able(Turn(s).0)
  {
    TurnKeepsClosed(s);
    HungCandidate(s);
    var s0, c := s.(queue := Rest(s)), Candidate(s);
    ConsiderEffect(s0, c);
    var s1 := Turn(s).0;
    forall t
      ensures !QueuedAble(s1, t)
    {
      assert !QueuedAble(s, t);
    }
    forall j
      ensures !SlotAble(s1, j)
    {
      assert !SlotAble(s, j);
    }
  }

  lemma HungCandidate(s: State)
    requires Closed(s) && !KernelAwake(s) && !Able(s)
    ensures var c := Candidate(s);
      && c != 0 && Consider(s.(queue := Rest(s)), c).1.Again?
      && (s.threads[c].state.Blocked? || s.threads[c].state.Termed? || !CanRun(s.threads[c]))
  {
    var q, c := DropZombies(s.threads, s.queue), Candidate(s);
    if q != [] {
      assert q[0] in s.queue && !QueuedAble(s, q[0]);
    } else {
      FallbackIsFirst(s, 1);
      if j :| 0 < j < |s.table| && ReadyAt(s, j) && c == s.table[j] {
        assert !SlotAble(s, j);
      }
    }
  }

  lemma {:induction false} HungNeverEnds(s: State, k: nat)
    requires Closed(s) && !KernelAwake(s) && !Able(s)
    ensures !Ends(s, k)
    decreases k
  {
    if k > 0 {
      HungTurn(s);
      HungNeverEnds(Turn(s).0, k - 1);
    }
  }

  // ----- what a tick does

  // Between the interruption of a thread and the choice of the next: the queue
  // holds ready threads once each and nothing runs.
  ghost predicate Choosing(s: State) {
    && TableOk(s) && ThreadsOk(s) && KernelOk(s) && NoDup(s.queue)
    && (forall t :: t in s.queue ==> t in s.threads && s.threads[t].state.Ready?)
    && (forall t :: t in s.threads ==> !s.threads[t].state.Running?)
  }

  // The same threads with the same attributes; only states and cooldowns move,
  // and none terminates or comes back.
  ghost predicate SameThreads(a: map<nat, Thread>, b: map<nat, Thread>) {
    a.Keys == b.Keys && forall t :: t in a ==> SameThread(a[t], b[t])
  }

  ghost predicate SameThread(a: Thread, b: Thread) {
    && a.(state := b.state, cooldown := b.cooldown) == b
    && (a.state.Termed? <==> b.state.Termed?) && (a.state.Blocked? <==> b.state.Blocked?)
  }

  function Tick(s: State): State
    requires Closed(Enter(s)) && KernelAwake(Enter(s))
  {
    var (s1, v) := Select(Enter(s));
    if v.Dispatched? then CleanUp(s1, |s1.table|) else s1
  }

  // A change of state or cooldown of one thread, no thread being stopped.
  lemma ThreadChanged(s: State, t: nat, th: Thread, s1: State)
    requires TableOk(s) && ThreadsOk(s) && KernelOk(s) && t in s.threads
    requires SameThread(s.threads[t], th)
    requires s1.threads == s.threads[t := th] && s1.table == s.table && s1.count == s.count && s1.nextTid == s.nextTid
    ensures TableOk(s1) && ThreadsOk(s1) && KernelOk(s1) && SameThreads(s.threads, s1.threads)
  {
    assert s1.threads.Keys == s.threads.Keys;
    SameTable(s, s1);
    hide TableOk;
  }

  lemma EnterRequeues(s: State)
    requires Inv(s) && s.current in s.threads
    requires s.threads[s.current].state.Running? || s.threads[s.current].state.Ready?
    ensures Choosing(Enter(s)) && SameThreads(s.threads, Enter(s).threads)
  {
    hide ThreadsOk, KernelOk, NoDup, SameThreads;
    ThreadChanged(s, s.current, s.threads[s.current].(state := Ready), Enter(s));
    AppendNoDup(s.queue, s.current);
  }

  lemma EnterFacts(s: State)
    requires Inv(s)
    ensures Choosing(Enter(s)) && Closed(Enter(s)) && KernelAwake(Enter(s)) && SameThreads(s.threads, Enter(s).threads)
  {
    if s.current in s.threads {
      if s.threads[s.current].state.Running? || s.threads[s.current].state.Ready? {
        EnterRequeues(s);
      } else {
        WithoutFacts(s.queue, s.current);
      }
    }
  }

  lemma ConsiderFacts(s: State, t: nat)
    requires Choosing(s) && t in s.threads && s.threads[t].state.Ready? && t !in s.queue
    ensures var (s1, v) := Consider(s, t);
      && !v.Idle? && SameThreads(s.threads, s1.threads)
      && (v.Again? ==> Choosing(s1))
      && (v.Dispatched? ==> Inv(s1) && v.thread == t == s1.current && s1.threads[t].state.Running?)
      && (v.Dispatched? <==> s.threads[t].cooldown == 0)
  {
    assert s.threads[t].ring3 ==> s.threads[t].kernelStack;
    hide TableOk, ThreadsOk, KernelOk, NoDup, SameThreads, Stride;
    var th := s.threads[t];
    var (s1, v) := Consider(s, t);
    if th.cooldown > 0 {
      ThreadChanged(s, t, th.(cooldown := th.cooldown - 1), s1);
      AppendNoDup(s.queue, t);
    } else {
      ThreadChanged(s, t, th.(cooldown := Stride(th.priority) - 1, state := Running), s1);
    }
  }

  lemma {:induction false} DropNoDup(threads: map<nat, Thread>, q: seq<nat>)
    requires NoDup(q)
    ensures NoDup(DropZombies(threads, q))
  {
    if q != [] && q[0] in threads && threads[q[0]].zombie {
      TailNoDup(q);
      DropNoDup(threads, q[1..]);
    }
  }

  lemma TailNoDup(q: seq<nat>)
    requires NoDup(q) && q != []
    ensures NoDup(q[1..]) && q[0] !in q[1..]
  {
    assert q == [q[0]] + q[1..];
    SplitNoDup([q[0]], q[1..]);
  }

  lemma ShorterQueue(s: State, q: seq<nat>)
    requires Choosing(s) && NoDup(q) && forall t :: t in q ==> t in s.queue
    ensures Choosing(s.(queue := q))
  {
  }

  lemma ChoosingTable(s: State)
    requires Choosing(s)
    ensures |s.table| > 0 && 0 !in s.threads && (forall x :: x in s.queue ==> x in s.threads)
    ensures forall i :: 0 <= i < |s.table| && s.table[i] != 0 ==> s.table[i] in s.threads
  {
  }

  lemma FallbackReady(s: State)
    requires Choosing(s)
    ensures |s.table| > 0 && Fallback(s, 1) != 0 && s.threads[Fallback(s, 1)].state.Ready?
  {
    FallbackState(s, 1);
    FallbackFound(s, 1);
  }

  // The candidate is a ready thread and no longer queued.
  lemma CandidateFacts(s: State)
    requires Choosing(s)
    ensures Closed(s)
    ensures var t := Candidate(s); t != 0 && t in s.threads && s.threads[t].state.Ready? && t !in Rest(s)
    ensures NoDup(Rest(s))
  {
    ChoosingTable(s);
    var q := DropZombies(s.threads, s.queue);
    if q != [] {
      assert q[0] in s.queue;
      DropNoDup(s.threads, s.queue);
      TailNoDup(q);
    } else {
      FallbackReady(s);
    }
  }

  lemma TurnFacts(s: State)
    requires Choosing(s)
    ensures Closed(s)
    ensures var (s1, v) := Turn(s);
      && !v.Idle? && SameThreads(s.threads, s1.threads)
      && (v.Again? ==> Choosing(s1))
      && (v.Dispatched? ==> Inv(s1) && CurrentRuns(s1) && s1.current == v.thread && v.thread in s1.threads)
  {
    ChoosingTable(s);
    CandidateFacts(s);
    hide Choosing, NoDup, SameThreads, Consider, Inv, Candidate, Rest;
    ShorterQueue(s, Rest(s));
    ConsiderFacts(s.(queue := Rest(s)), Candidate(s));
  }

  lemma {:induction false} FallbackFound(s: State, i: nat)
    requires KernelOk(s) && 0 !in s.threads && 0 < i <= |s.table|
    ensures Fallback(s, i) != 0
    decreases |s.table| - i
  {
    if i < |s.table| {
      FallbackFound(s, i + 1);
    }
  }

  // The loop ends with a thread running.
  lemma {:induction false} SelectFacts(s: State)
    requires Choosing(s) && Closed(s) && KernelAwake(s)
    ensures var (s1, v) := Select(s);
      && v.Dispatched? && Inv(s1) && s1.current == v.thread && CurrentRuns(s1) && s1.current != 0
      && SameThreads(s.threads, s1.threads)
    decreases |NotTermed(s.threads)|, Total(Cooldowns(s.threads)), |s.queue|
  {
    TurnFacts(s);
    if Turn(s).1.Again? {
      TurnKeepsClosed(s);
      TurnDecreases(s);
      SelectFacts(Turn(s).0);
      SameTrans(s.threads, Turn(s).0.threads, Select(Turn(s).0).0.threads);
    }
  }

  lemma LiveSame(a: map<nat, Thread>, b: map<nat, Thread>)
    requires SameThreads(a, b)
    ensures Live(b).Keys == NotTermed(a) && SameThreads(Live(a), Live(b))
  {
    forall t | t in a
      ensures a[t].state.Termed? <==> b[t].state.Termed?
    {
      assert SameThread(a[t], b[t]);
    }
  }

  lemma SameTrans(a: map<nat, Thread>, b: map<nat, Thread>, c: map<nat, Thread>)
    requires SameThreads(a, b) && SameThreads(b, c)
    ensures SameThreads(a, c)
  {
    forall t | t in a
      ensures SameThread(a[t], c[t])
    {
      assert SameThread(a[t], b[t]) && SameThread(b[t], c[t]);
    }
  }

  // A tick ends with a thread running and the invariant kept; the threads that
  // are left are exactly those that were not terminated.
  lemma TickFacts(s: State)
    requires Inv(s)
    ensures Closed(Enter(s)) && KernelAwake(Enter(s))
    ensures var s1 := Tick(s);
      && Inv(s1) && s1.current in s1.threads && CurrentRuns(s1)
      && s1.threads.Keys == NotTermed(s.threads)
      && SameThreads(Live(s.threads), s1.threads)
  {
    EnterFacts(s);
    SelectFacts(Enter(s));
    var s2 := Select(Enter(s)).0;
    SameTrans(s.threads, Enter(s).threads, s2.threads);
    CleanUpAll(s2);
    LiveSame(s.threads, s2.threads);
  }

  // ----- whole runs

  // Queued is add_to_ready_queue on another thread; Waits and Exits end in the
  // interrupt that thread_block and thread_exit raise.
  datatype Step =
    | Creates(thread: nat, ring3: bool, priority: int, zombie: bool, stacks: bool)
    | Unblocks(tid: nat)
    | Queues(other: nat)
    | Waits(self: nat)
    | Exits(peers: set<nat>)
    | Ticks

  ghost predicate Good(s: State) {
    Inv(s) && CurrentRuns(s)
  }

  // kmalloc gives no address in use, and the step does not halt the machine.
  ghost predicate Enabled(s: State, step: Step) {
    match step
    case Creates(t, _, _, _, _) => t !in s.threads && |s.table| > 0
    case Unblocks(_) => true
    case Queues(t) => t != s.current
    case Waits(tid) => Block(s, tid).Some?
    case Exits(peers) => Exit(s, peers).Some?
    case Ticks => true
  }

  ghost function After(s: State, step: Step): State
    requires Good(s) && Enabled(s, step)
  {
    match step
    case Creates(t, ring3, priority, zombie, stacks) => Create(s, t, ring3, priority, zombie, stacks).0
    case Unblocks(tid) => Unblock(s, tid).0
    case Queues(t) => Add(s, t)
    case Waits(tid) =>
      BlockFacts(s, tid); TickFacts(Block(s, tid).value);
      Tick(Block(s, tid).value)
    case Exits(peers) =>
      ExitFacts(s, peers); TickFacts(Exit(s, peers).value);
      Tick(Exit(s, peers).value)
    case Ticks =>
      TickFacts(s);
      Tick(s)
  }

  lemma StepKeepsGood(s: State, step: Step)
    requires Good(s) && Enabled(s, step)
    ensures Good(After(s, step))
  {
    match step
    case Creates(t, ring3, priority, zombie, stacks) => CreateKeepsGood(s, t, ring3, priority, zombie, stacks);
    case Unblocks(tid) => UnblockFacts(s, tid);
    case Queues(t) => AddKeepsGood(s, t);
    case Waits(tid) =>
      BlockFacts(s, tid);
      TickFacts(Block(s, tid).value);
    case Exits(peers) =>
      ExitFacts(s, peers);
      TickFacts(Exit(s, peers).value);
    case Ticks =>
      TickFacts(s);
  }

  lemma CreateKeepsGood(s: State, t: nat, ring3: bool, priority: int, zombie: bool, stacks: bool)
    requires Good(s) && t !in s.threads
    ensures Good(Create(s, t, ring3, priority, zombie, stacks).0)
  {
    CreateFacts(s, t, ring3, priority, zombie, stacks);
  }

  lemma AddKeepsGood(s: State, t: nat)
    requires Good(s) && t != s.current
    ensures Good(Add(s, t))
  {
    AddFacts(s, t);
  }

  ghost predicate Run(s: State, steps: seq<Step>, end: State)
    decreases |steps|
  {
    if steps == [] then s == end
    else Good(s) && Enabled(s, steps[0]) && Run(After(s, steps[0]), steps[1..], end)
  }

  // Over every run thread_count equals the number of occupied slots, slot 0 stays
  // occupied, live ids are distinct and the ready queue holds ready threads, once
  // each.
  lemma {:induction false} RunKeepsGood(s: State, steps: seq<Step>, end: State)
    requires Good(s) && Run(s, steps, end)
    ensures Good(end)
    decreases |steps|
  {
    if steps != [] {
      StepKeepsGood(s, steps[0]);
      RunKeepsGood(After(s, steps[0]), steps[1..], end);
    }
  }
}
