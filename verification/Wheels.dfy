// A wheel of threads, each with a cooldown and a stride: what the ready queue
// does while the runnable threads stay the same. The counts here are exact and
// hold for wheels of any size.
module Wheels {
  import opened Lists

  datatype Wheel = Wheel(ring: seq<nat>, cool: map<nat, nat>, stride: map<nat, nat>)

  ghost predicate Round(w: Wheel) {
    && w.ring != [] && NoDup(w.ring)
    && forall t :: t in w.ring ==> t in w.cool && t in w.stride && w.cool[t] < w.stride[t]
  }

  // One look at the thread in front, which then goes to the back.
  function Spin(w: Wheel): Wheel
    requires Round(w)
  {
    var t := w.ring[0];
    assert t in w.ring;
    w.(ring := w.ring[1..] + [t], cool := w.cool[t := if w.cool[t] > 0 then w.cool[t] - 1 else w.stride[t] - 1])
  }

  // The thread in front is dispatched when it has no cooldown left.
  predicate Fires(w: Wheel, t: nat)
    requires Round(w)
  {
    w.ring[0] == t && w.cool[t] == 0
  }

  lemma SpinRound(w: Wheel)
    requires Round(w)
    ensures Round(Spin(w))
  {
    var t := w.ring[0];
    assert w.ring == [t] + w.ring[1..];
    SplitNoDup([t], w.ring[1..]);
    JoinNoDup(w.ring[1..], [t]);
  }

  // How often t is dispatched in k looks.
  ghost function Count(w: Wheel, k: nat, t: nat): nat
    requires Round(w)
    decreases k
  {
    if k == 0 then 0
    else SpinRound(w); (if Fires(w, t) then 1 else 0) + Count(Spin(w), k - 1, t)
  }

  // How often position p of a ring of n comes up in k looks; equally, how often
  // a thread with cooldown p and stride n is dispatched in k looks at it.
  function Cycle(n: nat, p: nat, k: nat): nat
    requires p < n
    decreases k
  {
    if k == 0 then 0 else if p == 0 then 1 + Cycle(n, n - 1, k - 1) else Cycle(n, p - 1, k - 1)
  }

  lemma {:induction false} CycleLater(n: nat, p: nat, j: nat, k: nat)
    requires p + j < n
    ensures Cycle(n, p + j, j + k) == Cycle(n, p, k)
    decreases j
  {
    if j > 0 {
      CycleLater(n, p, j - 1, k);
    }
  }

  // Whole rounds: every position comes up once a round.
  lemma {:induction false} CycleRounds(n: nat, p: nat, rounds: nat)
    requires p < n
    ensures Cycle(n, p, n * rounds) == rounds
  {
    if rounds > 0 {
      var k := n * (rounds - 1);
      assert n * rounds == p + (1 + (n - 1 - p) + k);
      CycleLater(n, 0, p, 1 + (n - 1 - p) + k);
      CycleLater(n, p, n - 1 - p, k);
      CycleRounds(n, p, rounds - 1);
    } else {
      assert n * 0 == 0;
    }
  }

  lemma {:induction false} CycleMonotone(n: nat, p: nat, j: nat, k: nat)
    requires p < n && j <= k
    ensures Cycle(n, p, j) <= Cycle(n, p, k)
    decreases k
  {
    if j > 0 {
      CycleMonotone(n, if p == 0 then n - 1 else p - 1, j - 1, k - 1);
    }
  }

  // The exact number of dispatches over any number of looks, from the place of
  // the thread in the ring and its cooldown.
  lemma {:induction false} ExactCount(w: Wheel, k: nat, p: nat)
    requires Round(w) && p < |w.ring|
    ensures w.ring[p] in w.ring
    ensures var t := w.ring[p];
      Count(w, k, t) == Cycle(w.stride[t], w.cool[t], Cycle(|w.ring|, p, k))
    decreases k
  {
    var n, t := |w.ring|, w.ring[p];
    if k > 0 {
      SpinRound(w);
      if p == 0 {
        ExactCount(Spin(w), k - 1, n - 1);
      } else {
        assert t != w.ring[0];
        ExactCount(Spin(w), k - 1, p - 1);
      }
    }
  }

  // Over 32 rounds a thread of stride s is dispatched 32 / s times.
  lemma Share(w: Wheel, t: nat, stride: nat, share: nat)
    requires Round(w) && t in w.ring && stride == w.stride[t] && stride * share == 32
    ensures Count(w, |w.ring| * 32, t) == share
  {
    var p :| 0 <= p < |w.ring| && w.ring[p] == t;
    ExactCount(w, |w.ring| * 32, p);
    CycleRounds(|w.ring|, p, 32);
    CycleRounds(stride, w.cool[t], share);
  }

  // Over s rounds or more a thread of stride s is dispatched at least once.
  lemma Waits(w: Wheel, t: nat, n: nat, stride: nat, k: nat)
    requires Round(w) && t in w.ring && n == |w.ring| && stride == w.stride[t] && k >= n * stride
    ensures Count(w, k, t) >= 1
  {
    var p :| 0 <= p < |w.ring| && w.ring[p] == t;
    ExactCount(w, k, p);
    CycleRounds(n, p, stride);
    CycleMonotone(n, p, n * stride, k);
    assert stride * 1 == stride;
    CycleRounds(stride, w.cool[t], 1);
    CycleMonotone(stride, w.cool[t], stride, Cycle(n, p, k));
  }

  ghost function Spins(w: Wheel, k: nat): (r: Wheel)
    requires Round(w)
    ensures Round(r)
    decreases k
  {
    if k == 0 then w else SpinRound(w); Spins(Spin(w), k - 1)
  }

  lemma {:induction false} CountAdds(w: Wheel, j: nat, k: nat, t: nat)
    requires Round(w)
    ensures Count(w, j + k, t) == Count(w, j, t) + Count(Spins(w, j), k, t)
    decreases j
  {
    if j > 0 {
      SpinRound(w);
      CountAdds(Spin(w), j - 1, k, t);
      assert j + k - 1 == j - 1 + k;
    }
  }
}
