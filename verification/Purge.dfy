// Purging a table of every entry with a given value: the name cache of
// src/fs/vfs/path.c
module Purge {
  import opened Table
  import opened HashTable

  ghost function KeepOthers(c: Chain, v: Value): Chain {
    if c == [] then []
    else if c[0].value == v then KeepOthers(c[1..], v)
    else [c[0]] + KeepOthers(c[1..], v)
  }

  ghost function KeepAll(chains: seq<Chain>, v: Value): (r: seq<Chain>)
    ensures |r| == |chains|
    ensures forall b :: 0 <= b < |r| ==> r[b] == KeepOthers(chains[b], v)
  {
    if chains == [] then [] else KeepAll(chains[..|chains| - 1], v) + [KeepOthers(chains[|chains| - 1], v)]
  }

  lemma {:induction false} KeepOthersOf(c: Chain, v: Value)
    ensures |KeepOthers(c, v)| <= |c|
    ensures forall x :: x in KeepOthers(c, v) <==> x in c && x.value != v
    ensures UniqueKeys(c) ==> UniqueKeys(KeepOthers(c, v))
  {
    if c != [] {
      KeepOthersOf(c[1..], v);
      assert c == [c[0]] + c[1..];
      if UniqueKeys(c) {
        TailUnique(c);
        hide UniqueKeys;
        if c[0].value != v {
          ConsUnique(c[0], KeepOthers(c[1..], v));
        }
      }
    }
  }

  lemma TailUnique(c: Chain)
    requires UniqueKeys(c) && c != []
    ensures UniqueKeys(c[1..]) && forall x :: x in c[1..] ==> x.key != c[0].key
  {
  }

  lemma ConsUnique(x: Item, c: Chain)
    requires UniqueKeys(c) && forall y :: y in c ==> y.key != x.key
    ensures UniqueKeys([x] + c)
  {
  }

  lemma {:induction false} KeepWithout(c: Chain, j: nat, v: Value)
    requires j < |c| && c[j].value == v
    ensures KeepOthers(Drop(c, j), v) == KeepOthers(c, v)
  {
    if j > 0 {
      KeepWithout(c[1..], j - 1, v);
      assert Drop(c, j)[1..] == Drop(c[1..], j - 1);
      assert Drop(c, j)[0] == c[0];
    } else {
      assert Drop(c, 0) == c[1..];
    }
  }

  lemma {:induction false} KeepEverything(c: Chain, v: Value)
    requires forall j :: 0 <= j < |c| ==> c[j].value != v
    ensures KeepOthers(c, v) == c
  {
    if c != [] {
      KeepEverything(c[1..], v);
    }
  }

  ghost function Others(m: map<Key, Value>, v: Value): map<Key, Value> {
    map k | k in m && m[k] != v :: m[k]
  }

  // What is left after the purge by value: exactly the entries with other values.
  lemma PurgedByValue(chains: seq<Chain>, v: Value)
    requires ChainsOk(chains)
    ensures var r := KeepAll(chains, v);
      var m := Model(chains);
      && ChainsOk(r)
      && Model(r) == Others(m, v)
      && Size(chains) - Size(r) == |(set k | k in m && m[k] == v)|
  {
    var r := KeepAll(chains, v);
    var m := Model(chains);
    forall b | 0 <= b < |r|
      ensures UniqueKeys(r[b]) && Placed(r[b], b, |r|)
    {
      KeptChain(chains, b, v);
    }
    var left := Others(m, v);
    forall k
      ensures Lookup(r, k).0 <==> k in left
      ensures k in left ==> Lookup(r, k).1 == left[k]
    {
      KeptLookup(chains, k, v);
    }
    SameLookups(r, left);
    LookupIsModel(chains, []);
    LookupIsModel(r, []);
    SplitSize(m, left, set k | k in m && m[k] == v);
  }

  lemma KeptChain(chains: seq<Chain>, b: nat, v: Value)
    requires ChainsOk(chains) && b < |chains|
    ensures UniqueKeys(KeepOthers(chains[b], v)) && Placed(KeepOthers(chains[b], v), b, |chains|)
  {
    var c, d := chains[b], KeepOthers(chains[b], v);
    assert UniqueKeys(c) && Placed(c, b, |chains|);
    KeepOthersOf(c, v);
    forall i | 0 <= i < |d|
      ensures Hash(d[i].key) % |chains| == b
    {
      assert d[i] in c;
    }
  }

  lemma KeptLookup(chains: seq<Chain>, k: Key, v: Value)
    requires ChainsOk(chains)
    ensures var m := Model(chains);
      var r := KeepAll(chains, v);
      && (Lookup(r, k).0 <==> k in m && m[k] != v)
      && (k in m && m[k] != v ==> Lookup(r, k).1 == m[k])
  {
    var b := Bucket(chains, k);
    var c, d := chains[b], KeepOthers(chains[b], v);
    LookupIsModel(chains, k);
    KeptChain(chains, b, v);
    assert UniqueKeys(c);
    KeepOthersOf(c, v);
    var i, j := IndexIn(c, k), IndexIn(d, k);
    if j < |d| {
      assert d[j] in c;
      var l :| 0 <= l < |c| && c[l] == d[j];
      IndexOfKey(c, l);
    }
    if i < |c| && c[i].value != v {
      assert c[i] in d;
      var l :| 0 <= l < |d| && d[l] == c[i];
      IndexOfKey(d, l);
    }
  }

  lemma SplitSize(m: map<Key, Value>, left: map<Key, Value>, gone: set<Key>)
    requires forall k :: k in m <==> k in left || k in gone
    requires forall k :: k in left ==> k !in gone
    ensures |m| - |left| == |gone|
  {
    assert m.Keys == left.Keys + gone;
    assert left.Keys !! gone;
  }

  // namecache_remove_locked; released says that vnode_unref was called on value.
  method NamecacheRemoveLocked(t: HashTable, key: Key) returns (released: bool, value: Value)
    requires t.Valid()
    modifies t, t.entries, t.repr
    ensures t.Valid() && t.entries == old(t.entries) && t.repr == old(t.repr)
    ensures t.chains == Table.Remove(old(t.chains), key).0
    ensures value == Lookup(old(t.chains), key).1
    ensures released <==> Lookup(old(t.chains), key).0 && value != 0
  {
    var found;
    found, value := t.Get(key);
    released := found && value != 0;
    var ok := t.Remove(key);
  }

  lemma RemoveAt(chains: seq<Chain>, i: nat, j: nat)
    requires ChainsOk(chains) && i < |chains| && j < |chains[i]|
    ensures Table.Remove(chains, chains[i][j].key).0 == chains[i := Drop(chains[i], j)]
    ensures Lookup(chains, chains[i][j].key) == (true, chains[i][j].value)
    ensures Size(chains[i := Drop(chains[i], j)]) == Size(chains) - 1
  {
    assert UniqueKeys(chains[i]) && Placed(chains[i], i, |chains|);
    IndexOfKey(chains[i], j);
    RemoveSize(chains, chains[i][j].key);
  }

  // The match of the loop below: entry j of bucket i is removed by its own key.
  method RemoveMatch(t: HashTable, vp: Value, key: Key, i: nat, ghost j: nat) returns (released: seq<Value>)
    requires t.Valid() && vp != 0 && i < |t.chains| && j < |t.chains[i]| && t.chains[i][j] == Item(key, vp)
    modifies t, t.entries, t.repr
    ensures t.Valid() && t.entries == old(t.entries) && t.repr == old(t.repr)
    ensures t.chains == old(t.chains)[i := Drop(old(t.chains)[i], j)]
    ensures released == [vp] && Size(t.chains) == Size(old(t.chains)) - 1
  {
    RemoveAt(t.chains, i, j);
    var gone, value := NamecacheRemoveLocked(t, key);
    released := if gone then [value] else [];
  }

  lemma SetTwice(s: seq<Chain>, i: nat, a: Chain, b: Chain)
    requires i < |s|
    ensures s[i := a][i := b] == s[i := b]
  {
  }

  // Where the walk of bucket i stands: at place j, with no match before it.
  ghost predicate WalkAt(t: HashTable, vp: Value, i: nat, j: nat, entry: HashEntry?)
    reads t
  {
    && i < |t.objs| == |t.chains|
    && j <= |t.objs[i]| == |t.chains[i]| && entry == (if j < |t.objs[i]| then t.objs[i][j] else null)
    && forall l :: 0 <= l < j ==> t.chains[i][l].value != vp
  }

  method StartWalk(t: HashTable, vp: Value, i: nat) returns (entry: HashEntry?)
    requires t.Valid() && i < t.capacity
    ensures WalkAt(t, vp, i, 0, entry)
  {
    entry := t.entries[i];
    assert BucketOk(t.entries[i], t.objs[i], t.chains[i]);
  }

  // What the entry at the walk's place shows.
  lemma EntryAt(t: HashTable, vp: Value, i: nat, j: nat, entry: HashEntry)
    requires t.Valid() && WalkAt(t, vp, i, j, entry)
    ensures j < |t.chains[i]| && t.chains[i][j] == Item(entry.key, entry.value)
    ensures entry.value != vp ==> WalkAt(t, vp, i, j + 1, entry.next)
  {
    assert BucketOk(t.entries[i], t.objs[i], t.chains[i]);
    var next := NextIn(t.objs[i], j);
    assert entry.next == next;
  }

  // One turn of the walk: after a removal it starts again from the head.
  method VisitEntry(t: HashTable, vp: Value, i: nat, entry: HashEntry, ghost j: nat)
    returns (next: HashEntry?, released: seq<Value>, ghost j': nat)
    requires t.Valid() && vp != 0 && WalkAt(t, vp, i, j, entry)
    modifies t, t.entries, t.repr
    ensures t.Valid() && t.entries == old(t.entries) && t.repr == old(t.repr)
    ensures WalkAt(t, vp, i, j', next)
    ensures t.chains ==
      if old(t.chains)[i][j].value == vp then old(t.chains)[i := Drop(old(t.chains)[i], j)] else old(t.chains)
    ensures j' == if old(t.chains)[i][j].value == vp then 0 else j + 1
    ensures released == Repeat(vp, |released|) && Size(t.chains) + |released| == Size(old(t.chains))
  {
    EntryAt(t, vp, i, j, entry);
    if entry.value == vp {
      released := RemoveMatch(t, vp, entry.key, i, j);
      assert Repeat(vp, 1) == Repeat(vp, 0) + [vp];
      next := StartWalk(t, vp, i);
      j' := 0;
    } else {
      next, released, j' := entry.next, [], j + 1;
    }
  }

  // n calls of vnode_unref on v.
  function Repeat(v: Value, n: nat): (r: seq<Value>)
    ensures |r| == n
  {
    if n == 0 then [] else Repeat(v, n - 1) + [v]
  }

  lemma {:induction false} RepeatAdd(v: Value, m: nat, n: nat)
    ensures Repeat(v, m) + Repeat(v, n) == Repeat(v, m + n)
  {
    if n == 0 {
      assert Repeat(v, m) + [] == Repeat(v, m);
    } else {
      RepeatAdd(v, m, n - 1);
      assert Repeat(v, m) + Repeat(v, n) == (Repeat(v, m) + Repeat(v, n - 1)) + [v];
    }
  }

  lemma ReleaseMore(v: Value, a: seq<Value>, b: seq<Value>)
    requires a == Repeat(v, |a|) && b == Repeat(v, |b|)
    ensures a + b == Repeat(v, |a + b|)
  {
    hide Repeat;
    RepeatAdd(v, |a|, |b|);
  }

  // One bucket of the loop below.
  method PurgeBucket(t: HashTable, vp: Value, i: nat) returns (released: seq<Value>)
    requires t.Valid() && vp != 0 && i < t.capacity
    modifies t, t.entries, t.repr
    ensures t.Valid() && t.entries == old(t.entries) && t.repr == old(t.repr) && t.capacity == old(t.capacity)
    ensures t.chains == old(t.chains)[i := KeepOthers(old(t.chains)[i], vp)]
    ensures Size(t.chains) + |released| == Size(old(t.chains)) && released == Repeat(vp, |released|)
  {
    released := [];
    var entry := StartWalk(t, vp, i);
    ghost var j: nat := 0;
    ghost var c := t.chains[i];
    while entry != null
      invariant t.Valid() && t.entries == old(t.entries) && t.repr == old(t.repr)
      invariant WalkAt(t, vp, i, j, entry) && |t.chains| == |old(t.chains)|
      invariant t.chains == old(t.chains)[i := c]
      invariant KeepOthers(c, vp) == KeepOthers(old(t.chains)[i], vp)
      invariant Size(t.chains) + |released| == Size(old(t.chains)) && released == Repeat(vp, |released|)
      decreases |c|, |c| - j
    {
      if c[j].value == vp {
        KeepWithout(c, j, vp);
        SetTwice(old(t.chains), i, c, Drop(c, j));
        c := Drop(c, j);
      }
      var more;
      entry, more, j := VisitEntry(t, vp, i, entry, j);
      ReleaseMore(vp, released, more);
      released := released + more;
    }
    KeepEverything(c, vp);
  }

  // namecahe_purge_vnode_locked; released logs the vnode_unref calls.
  method PurgeVnodeLocked(t: HashTable, vp: Value) returns (released: seq<Value>)
    requires t.Valid() && vp != 0
    modifies t, t.entries, t.repr
    ensures t.Valid()
    ensures t.chains == KeepAll(old(t.chains), vp)
    ensures Size(t.chains) + |released| == Size(old(t.chains)) && released == Repeat(vp, |released|)
  {
    released := [];
    ghost var start := t.chains;
    assert |start| == t.capacity && PurgedBelow(start, start, 0, vp) && Repeat(vp, 0) == [];
    hide HashTable.Valid, KeepOthers, KeepAll, Repeat, Size, PurgedBelow;
    var i := 0;
    while i < t.capacity
      invariant t.Valid() && t.entries == old(t.entries) && t.repr == old(t.repr)
      invariant i <= t.capacity == |start| == |t.chains| && PurgedBelow(start, t.chains, i, vp)
      invariant Size(t.chains) + |released| == Size(start) && released == Repeat(vp, |released|)
    {
      PurgeStep(start, t.chains, i, vp);
      var more := PurgeBucket(t, vp, i);
      ReleaseMore(vp, released, more);
      released := released + more;
      i := i + 1;
    }
    PurgeDone(start, t.chains, vp);
  }

  // Buckets below i are purged, the others as at the start.
  ghost predicate PurgedBelow(start: seq<Chain>, now: seq<Chain>, i: nat, v: Value) {
    |now| == |start| && forall b :: 0 <= b < |now| ==> now[b] == if b < i then KeepOthers(start[b], v) else start[b]
  }

  lemma PurgeStep(start: seq<Chain>, now: seq<Chain>, i: nat, v: Value)
    requires i < |start| && PurgedBelow(start, now, i, v)
    ensures PurgedBelow(start, now[i := KeepOthers(now[i], v)], i + 1, v)
  {
  }

  lemma PurgeDone(start: seq<Chain>, now: seq<Chain>, v: Value)
    requires PurgedBelow(start, now, |start|, v)
    ensures now == KeepAll(start, v)
  {
  }
}
