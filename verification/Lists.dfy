// Lists without repetition, as all intrusive lists of the kernel are.
module Lists {
  ghost predicate NoDup<T>(q: seq<T>) {
    forall i, j :: 0 <= i < j < |q| ==> q[i] != q[j]
  }

  // The list with x taken out.
  function Without<T(==)>(q: seq<T>, x: T): seq<T> {
    if q == [] then [] else if q[0] == x then q[1..] else [q[0]] + Without(q[1..], x)
  }

  lemma {:induction false} WithoutFacts<T>(q: seq<T>, x: T)
    requires NoDup(q)
    ensures NoDup(Without(q, x))
    ensures forall y :: y in Without(q, x) <==> y in q && y != x
    ensures x !in q ==> Without(q, x) == q
  {
    if q != [] {
      var t := q[1..];
      assert q == [q[0]] + t;
      assert forall i :: 0 <= i < |t| ==> t[i] == q[i + 1];
      assert NoDup(t) && q[0] !in t;
      WithoutFacts(t, x);
      if q[0] != x {
        var r := Without(t, x);
        assert q[0] !in r;
        ConsNoDup(q[0], r);
      }
    }
  }

  lemma ConsNoDup<T>(x: T, q: seq<T>)
    requires NoDup(q) && x !in q
    ensures NoDup([x] + q)
  {
    var r := [x] + q;
    forall i, j | 0 <= i < j < |r|
      ensures r[i] != r[j]
    {
      if i == 0 {
        assert r[j] == q[j - 1] && q[j - 1] in q;
      } else {
        assert r[i] == q[i - 1] && r[j] == q[j - 1];
      }
    }
  }

  lemma {:induction false} WithoutAt<T>(q: seq<T>, j: nat)
    requires NoDup(q) && j < |q|
    ensures Without(q, q[j]) == q[..j] + q[j + 1..]
  {
    if j > 0 {
      assert q[0] != q[j];
      WithoutAt(q[1..], j - 1);
    }
  }

  lemma JoinNoDup<T>(p: seq<T>, q: seq<T>)
    requires NoDup(p) && NoDup(q) && forall x :: x in p ==> x !in q
    ensures NoDup(p + q)
  {
    forall i, j | 0 <= i < j < |p + q|
      ensures (p + q)[i] != (p + q)[j]
    {
      if i < |p| && j >= |p| {
        assert (p + q)[i] in p && (p + q)[j] in q;
      }
    }
  }

  lemma SplitNoDup<T>(p: seq<T>, q: seq<T>)
    requires NoDup(p + q)
    ensures NoDup(p) && NoDup(q) && forall x :: x in p ==> x !in q
  {
    var r := p + q;
    forall i, j | 0 <= i < j < |p|
      ensures p[i] != p[j]
    {
      assert r[i] == p[i] && r[j] == p[j];
    }
    forall i, j | 0 <= i < j < |q|
      ensures q[i] != q[j]
    {
      assert r[|p| + i] == q[i] && r[|p| + j] == q[j];
    }
    forall i, j | 0 <= i < |p| && 0 <= j < |q|
      ensures p[i] != q[j]
    {
      assert r[i] == p[i] && r[|p| + j] == q[j];
    }
  }
}
