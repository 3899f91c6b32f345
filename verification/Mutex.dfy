// The sleeping mutex of src/scheduling/mutex.c as a protocol: its critical
// sections, taken in any order by any threads.
module Mutex {
  import opened Lists

  // The fields of mutex_t, with thread 0 for NULL, which stands for code that runs
  // while there is no current thread.
  datatype State = State(locked: bool, owner: nat, waiters: seq<nat>, count: nat)

  // init_mutex
  function Init(): State {
    State(false, 0, [], 0)
  }

  // The critical section of acquire_mutex: the lock is taken and the call
  // returns, or the caller is queued and goes to sleep.
  function Acquire(s: State, t: nat): State {
    if !s.locked then s.(locked := true, owner := t)
    else s.(waiters := s.waiters + [t], count := s.count + 1)
  }

  // The critical section of release_mutex.
  function Release(s: State, t: nat): State {
    if s.owner != t then s
    else
      var s1 := s.(locked := false, owner := 0);
      if s.waiters == [] then s1
      else s1.(waiters := s.waiters[1..], count := if s.count > 0 then s.count - 1 else 0)
  }

  // ----- safety

  ghost predicate Inv(s: State) {
    && (!s.locked ==> s.owner == 0)
    && s.count == |s.waiters| && 0 !in s.waiters && NoDup(s.waiters)
  }

  datatype Step = Acquires(thread: nat) | Releases(thread: nat)

  // Any thread that is not asleep on the mutex may take the next step, and so may
  // code without a current thread, unless it would have to wait: the source marks
  // kernel->current_thread blocked then.
  predicate Enabled(s: State, step: Step) {
    step.thread !in s.waiters && (step.Acquires? && s.locked ==> step.thread != 0)
  }

  function After(s: State, step: Step): State {
    match step
    case Acquires(t) => Acquire(s, t)
    case Releases(t) => Release(s, t)
  }

  lemma AcquireKeepsInv(s: State, t: nat)
    requires Inv(s) && Enabled(s, Acquires(t))
    ensures Inv(Acquire(s, t))
  {
    if s.locked {
      JoinNoDup(s.waiters, [t]);
    }
  }

  lemma ReleaseKeepsInv(s: State, t: nat)
    requires Inv(s)
    ensures Inv(Release(s, t))
  {
    if s.owner == t && s.waiters != [] {
      var q := s.waiters;
      assert q == [q[0]] + q[1..];
      SplitNoDup([q[0]], q[1..]);
    }
  }

  // A run of critical sections, each by a thread that is awake.
  ghost predicate Run(s: State, steps: seq<Step>, end: State)
    decreases |steps|
  {
    if steps == [] then end == s
    else Enabled(s, steps[0]) && Run(After(s, steps[0]), steps[1..], end)
  }

  // ----- what happens in a run, told from its steps

  // The threads between a returned acquire and their release, one step on: an
  // acquire returns at once exactly when it finds the mutex free.
  function InsideAfter(s: State, inside: set<nat>, step: Step): set<nat> {
    match step
    case Acquires(t) => if s.locked then inside else inside + {t}
    case Releases(t) => inside - {t}
  }

  ghost function Inside(s: State, inside: set<nat>, steps: seq<Step>): set<nat>
    decreases |steps|
  {
    if steps == [] then inside
    else Inside(After(s, steps[0]), InsideAfter(s, inside, steps[0]), steps[1..])
  }

  // The threads whose acquire met a locked mutex, in the order of their calls.
  function WaitsAt(s: State, step: Step): seq<nat> {
    if step.Acquires? && s.locked then [step.thread] else []
  }

  ghost function Waited(s: State, steps: seq<Step>): seq<nat>
    decreases |steps|
  {
    if steps == [] then [] else WaitsAt(s, steps[0]) + Waited(After(s, steps[0]), steps[1..])
  }

  // The threads that left the waiter list, in the order in which they did.
  ghost function Woken(s: State, steps: seq<Step>): seq<nat>
    decreases |steps|
  {
    if steps == [] then []
    else NotIn(s.waiters, After(s, steps[0]).waiters) + Woken(After(s, steps[0]), steps[1..])
  }

  // The elements of q that are not in r.
  ghost function NotIn(q: seq<nat>, r: seq<nat>): seq<nat> {
    if q == [] then [] else (if q[0] in r then [] else [q[0]]) + NotIn(q[1..], r)
  }

  ghost function Holder(s: State): set<nat> {
    if s.locked then {s.owner} else {}
  }

  lemma {:induction false} NothingGone(q: seq<nat>, r: seq<nat>)
    requires forall t :: t in q ==> t in r
    ensures NotIn(q, r) == []
  {
    if q != [] {
      NothingGone(q[1..], r);
    }
  }

  lemma StepFacts(s: State, step: Step)
    requires Inv(s) && Enabled(s, step)
    ensures var s1 := After(s, step);
      && Inv(s1)
      && NotIn(s.waiters, s1.waiters) + s1.waiters == s.waiters + WaitsAt(s, step)
      && Holder(s1) == InsideAfter(s, Holder(s), step)
  {
    var s1 := After(s, step);
    match step {
      case Acquires(t) =>
        AcquireKeepsInv(s, t);
        NothingGone(s.waiters, s1.waiters);
      case Releases(t) =>
        ReleaseKeepsInv(s, t);
        if s.owner == t && s.waiters != [] {
          assert s.waiters == [s.waiters[0]] + s1.waiters;
          SplitNoDup([s.waiters[0]], s1.waiters);
          assert s.waiters[0] in [s.waiters[0]];
          NothingGone(s.waiters[1..], s1.waiters);
        } else {
          NothingGone(s.waiters, s1.waiters);
        }
    }
  }

  lemma Regroup(gone: seq<nat>, q: seq<nat>, p: seq<nat>, came: seq<nat>,
                woken: seq<nat>, left: seq<nat>, later: seq<nat>)
    requires gone + q == p + came && woken + left == q + later
    ensures (gone + woken) + left == p + (came + later)
  {
    assert (gone + woken) + left == gone + (woken + left);
    assert gone + (q + later) == (gone + q) + later;
    assert (p + came) + later == p + (came + later);
  }

  // Over every interleaving at most one thread is between its acquire and its
  // release, and it is the owner; waiter_count is the length of the waiter list;
  // and threads are woken in the order in which they came to wait.
  lemma {:induction false} RunIsSafe(s: State, steps: seq<Step>, end: State)
    requires Inv(s) && Run(s, steps, end)
    ensures Inv(end) && Inside(s, Holder(s), steps) == Holder(end) && |Holder(end)| <= 1
    ensures end.count == |end.waiters|
    ensures Woken(s, steps) + end.waiters == s.waiters + Waited(s, steps)
    decreases |steps|
  {
    if steps != [] {
      StepFacts(s, steps[0]);
      var s1 := After(s, steps[0]);
      RunIsSafe(s1, steps[1..], end);
      hide Inv, After, Enabled, NotIn, WaitsAt, InsideAfter;
      Regroup(NotIn(s.waiters, s1.waiters), s1.waiters, s.waiters, WaitsAt(s, steps[0]),
              Woken(s1, steps[1..]), end.waiters, Waited(s1, steps[1..]));
    }
  }

  lemma InitIsSafe()
    ensures Inv(Init())
  {
  }

  // A release has an effect exactly when its caller is recorded as the owner and
  // there is something to free or to wake. On a free mutex that caller is NULL, so
  // a release while there is no current thread wakes a waiter.
  lemma ReleaseFacts(s: State, t: nat)
    requires Inv(s)
    ensures Release(s, t) != s <==> t == s.owner && (s.locked || s.waiters != [])
    ensures t == s.owner ==> var s1 := Release(s, t);
      !s1.locked && s1.waiters == if s.waiters == [] then [] else s.waiters[1..]
  {
    if t == s.owner && s.waiters != [] {
      assert |Release(s, t).waiters| < |s.waiters|;
    }
  }

  // A release undoes an acquire exactly when nobody waits.
  lemma ReleaseUndoesAcquire(s: State, t: nat)
    requires Inv(s) && !s.locked
    ensures Release(Acquire(s, t), t) == s <==> s.waiters == []
  {
    var s1 := Release(Acquire(s, t), t);
    if s.waiters != [] {
      assert |s1.waiters| < |s.waiters|;
    }
  }

  // What keeps a mutex locked for ever.
  lemma {:induction false} OwnerWaits(s: State, steps: seq<Step>, end: State)
    requires Inv(s) && s.locked && s.owner in s.waiters && Run(s, steps, end)
    ensures end.locked && end.owner == s.owner && end.owner in end.waiters && Woken(s, steps) == []
    decreases |steps|
  {
    if steps != [] {
      match steps[0] {
        case Acquires(t) => AcquireKeepsInv(s, t);
        case Releases(t) => ReleaseKeepsInv(s, t);
      }
      NothingGone(s.waiters, After(s, steps[0]).waiters);
      OwnerWaits(After(s, steps[0]), steps[1..], end);
    }
  }

  ghost predicate CanBeFreed(s: State) {
    exists steps, end :: Run(s, steps, end) && !end.locked
  }

  // The mutex is not recursive: a locked mutex can be freed by some run if and
  // only if its owner is not waiting for it.
  lemma SecondAcquireHangs(s: State)
    requires Inv(s) && s.locked
    ensures CanBeFreed(s) <==> s.owner !in s.waiters
  {
    if s.owner in s.waiters {
      forall steps, end | Run(s, steps, end)
        ensures end.locked
      {
        OwnerWaits(s, steps, end);
      }
    } else {
      var step := Releases(s.owner);
      var end := After(s, step);
      assert Run(end, [], end);
      assert [step][1..] == [];
      assert Run(s, [step], end);
    }
  }

  // The input: any thread that acquires twice.
  lemma TwoAcquiresHang(t: nat)
    requires t != 0
    ensures var s := Acquire(Acquire(Init(), t), t);
      Run(Init(), [Acquires(t), Acquires(t)], s) && Inv(s) && s.locked && !CanBeFreed(s)
  {
    var s1 := Acquire(Init(), t);
    var s := Acquire(s1, t);
    AcquireKeepsInv(Init(), t);
    AcquireKeepsInv(s1, t);
    assert Run(s, [], s);
    assert [Acquires(t)][1..] == [] && [Acquires(t), Acquires(t)][1..] == [Acquires(t)];
    assert Run(s1, [Acquires(t)], s);
    assert t in s.waiters;
    SecondAcquireHangs(s);
  }
}
