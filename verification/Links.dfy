// Singly linked lists threaded through the next fields of threads, with a head
// and a tail pointer.
module Links {
  import opened Lists

  function Head(q: seq<nat>): nat {
    if q == [] then 0 else q[0]
  }

  function Last(q: seq<nat>): nat {
    if q == [] then 0 else q[|q| - 1]
  }

  function NextOf(q: seq<nat>, i: nat): nat {
    if i + 1 < |q| then q[i + 1] else 0
  }

  // The next fields link the elements of q in order; the last one is NULL.
  ghost predicate Linked(next: map<nat, nat>, q: seq<nat>) {
    && (forall i :: 0 <= i < |q| ==> q[i] in next)
    && (forall i {:trigger NextOf(q, i)} :: 0 <= i < |q| ==> next[q[i]] == NextOf(q, i))
  }

  // head and tail are the ends of the list q.
  ghost predicate IsList(next: map<nat, nat>, head: nat, tail: nat, q: seq<nat>) {
    NoDup(q) && 0 !in q && Linked(next, q) && head == Head(q) && tail == Last(q)
  }

  // The next fields as they are after t is put behind q.
  function Appended(next: map<nat, nat>, q: seq<nat>, t: nat): map<nat, nat> {
    if q == [] then next[t := 0] else next[t := 0][Last(q) := t]
  }

  lemma LinkedFrame(next: map<nat, nat>, next1: map<nat, nat>, q: seq<nat>)
    requires Linked(next, q)
    requires forall x :: x in q ==> x in next1 && (x in next ==> next1[x] == next[x])
    ensures Linked(next1, q)
  {
    forall i | 0 <= i < |q|
      ensures q[i] in next1 && next1[q[i]] == NextOf(q, i)
    {
      assert q[i] in q;
    }
  }

  lemma LinkedAppend(next: map<nat, nat>, q: seq<nat>, t: nat)
    requires Linked(next, q) && NoDup(q) && t !in q
    ensures Linked(Appended(next, q, t), q + [t])
  {
    var r, next1 := q + [t], Appended(next, q, t);
    forall i | 0 <= i < |r|
      ensures r[i] in next1 && next1[r[i]] == NextOf(r, i)
    {
      if i < |q| - 1 {
        assert r[i] == q[i] && q[i] != q[|q| - 1] && NextOf(r, i) == NextOf(q, i);
      } else if i == |q| - 1 {
        assert r[i] == Last(q);
      }
    }
  }

  lemma LinkedTail(next: map<nat, nat>, q: seq<nat>)
    requires Linked(next, q) && q != []
    ensures q[0] in next && next[q[0]] == Head(q[1..]) && Linked(next, q[1..])
  {
    assert next[q[0]] == NextOf(q, 0);
    var t := q[1..];
    forall i | 0 <= i < |t|
      ensures t[i] in next && next[t[i]] == NextOf(t, i)
    {
      assert t[i] == q[i + 1] && NextOf(t, i) == NextOf(q, i + 1);
    }
  }

  // Taking element j > 0 out by redirecting the link before it.
  lemma LinkedSkip(next: map<nat, nat>, q: seq<nat>, j: nat)
    requires Linked(next, q) && NoDup(q) && 1 <= j < |q|
    ensures q[j - 1] in next && q[j] in next
    ensures Linked(next[q[j - 1] := next[q[j]]], q[..j] + q[j + 1..])
  {
    var r, next1 := q[..j] + q[j + 1..], next[q[j - 1] := next[q[j]]];
    assert next[q[j]] == NextOf(q, j);
    forall i | 0 <= i < |r|
      ensures r[i] in next1 && next1[r[i]] == NextOf(r, i)
    {
      if i < j - 1 {
        assert r[i] == q[i] && q[i] != q[j - 1] && NextOf(r, i) == NextOf(q, i);
      } else if i == j - 1 {
        assert r[i] == q[i] && NextOf(r, i) == NextOf(q, j);
      } else {
        assert r[i] == q[i + 1] && q[i + 1] != q[j - 1] && NextOf(r, i) == NextOf(q, i + 1);
      }
    }
  }

  // ----- whole operations

  lemma ListAppend(next: map<nat, nat>, head: nat, tail: nat, q: seq<nat>, t: nat)
    requires IsList(next, head, tail, q) && t !in q && t != 0
    ensures IsList(Appended(next, q, t), if q == [] then t else head, t, q + [t])
  {
    LinkedAppend(next, q, t);
    JoinNoDup(q, [t]);
  }

  lemma ListDrop(next: map<nat, nat>, head: nat, tail: nat, q: seq<nat>)
    requires IsList(next, head, tail, q) && q != []
    ensures head in next && next[head] == Head(q[1..])
    ensures IsList(next, next[head], if next[head] == 0 then 0 else tail, q[1..])
    ensures q[0] !in q[1..]
  {
    LinkedTail(next, q);
    assert q == [q[0]] + q[1..];
    SplitNoDup([q[0]], q[1..]);
    assert forall x :: x in q[1..] ==> x in q;
  }

  // A change of the link of an element outside the list.
  lemma ListElsewhere(next: map<nat, nat>, head: nat, tail: nat, q: seq<nat>, t: nat, v: nat)
    requires IsList(next, head, tail, q) && t !in q
    ensures IsList(next[t := v], head, tail, q)
  {
    LinkedFrame(next, next[t := v], q);
  }

  lemma ListSkip(next: map<nat, nat>, head: nat, tail: nat, q: seq<nat>, j: nat)
    requires IsList(next, head, tail, q) && 1 <= j < |q|
    ensures q[j - 1] in next && q[j] in next
    ensures IsList(next[q[j - 1] := next[q[j]]], head, if q[j] == tail then q[j - 1] else tail, Without(q, q[j]))
  {
    LinkedSkip(next, q, j);
    WithoutAt(q, j);
    WithoutFacts(q, q[j]);
    var r := q[..j] + q[j + 1..];
    if j + 1 < |q| {
      assert q[j] != q[|q| - 1];
      assert r[|r| - 1] == q[|q| - 1];
    } else {
      assert r == q[..j];
    }
    assert 0 !in r;
  }
}
