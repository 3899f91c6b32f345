// Purging the vnode table of one file system: src/fs/vfs/vnode.c
module VnodePurge {
  import opened Bits
  import opened Lists
  import opened Table
  import opened HashTable

  // ----- keys: two 64-bit words, least significant byte first

  function Bytes(n: nat, w: nat): (r: Key)
    ensures |r| == w
  {
    if w == 0 then [] else [n % 256] + Bytes(n / 256, w - 1)
  }

  function Word(bytes: Key): nat {
    if bytes == [] then 0 else bytes[0] + 256 * Word(bytes[1..])
  }

  lemma LowByte(b: Byte, high: nat)
    ensures (b + 256 * high) % 256 == b && (b + 256 * high) / 256 == high
  {
  }

  lemma {:induction false} WordRoundTrip(bytes: Key)
    ensures Bytes(Word(bytes), |bytes|) == bytes
  {
    if bytes != [] {
      WordRoundTrip(bytes[1..]);
      LowByte(bytes[0], Word(bytes[1..]));
    }
  }

  // Byte i of a word holds its bits from 8 * i on.
  lemma {:induction false} ByteAt(n: nat, w: nat, i: nat)
    requires i < w
    ensures Bytes(n, w)[i] == Shr(n, 8 * i) % 256
    decreases i
  {
    if i > 0 {
      ByteAt(n / 256, w - 1, i - 1);
      ShrByte(n, 8 * (i - 1));
    }
  }

  lemma {:induction false} ShrByte(n: nat, k: nat)
    ensures Shr(n / 256, k) == Shr(n, 8 + k)
  {
    ShrIsDivision(n / 256, k);
    ShrIsDivision(n, 8 + k);
    Pow2Add(8, k);
    assert Pow2(8) == 256;
    SplitDivision(n, 256, Pow2(k));
  }

  // A number of w bytes written and read back.
  lemma {:induction false} NumberRoundTrip(n: nat, w: nat)
    requires n < Pow2(8 * w)
    ensures Word(Bytes(n, w)) == n
  {
    if w > 0 {
      FewerBytes(n, w);
      NumberRoundTrip(n / 256, w - 1);
    }
  }

  lemma FewerBytes(n: nat, w: nat)
    requires w > 0 && n < Pow2(8 * w)
    ensures n / 256 < Pow2(8 * (w - 1))
  {
    Pow2Add(8, 8 * (w - 1));
    assert Pow2(8) == 256;
    BelowProduct(n, Pow2(8 * (w - 1)));
  }

  lemma BelowProduct(n: nat, p: nat)
    requires n < 256 * p
    ensures n / 256 < p
  {
  }

  // create_vnode_key
  function VnodeKey(vfsp: nat, nodeid: nat): Key {
    Bytes(vfsp, 8) + Bytes(nodeid, 8)
  }

  predicate Matches(key: Key, vfsp: nat)
    requires |key| == 16
  {
    Word(key[..8]) == vfsp
  }

  // A number that fits a 64-bit word.
  ghost predicate IsWord(n: nat) {
    n < Pow2(64)
  }

  // The purge of w takes exactly the keys that were made for w.
  lemma MatchesExactly(v: nat, nodeid: nat, w: nat)
    requires IsWord(v)
    ensures Matches(VnodeKey(v, nodeid), w) <==> v == w
  {
    hide Pow2, Bytes, Word;
    NumberRoundTrip(v, 8);
    assert VnodeKey(v, nodeid)[..8] == Bytes(v, 8);
  }

  // A matching key is rebuilt from the node id that the purge keeps of it.
  lemma MatchRebuilt(key: Key, vfsp: nat)
    requires |key| == 16 && Matches(key, vfsp)
    ensures VnodeKey(vfsp, Word(key[8..])) == key
  {
    WordRoundTrip(key[..8]);
    WordRoundTrip(key[8..]);
    assert key == key[..8] + key[8..];
  }

  // ----- the matching keys of a table, in the order of the walk

  ghost predicate VnodeChain(c: Chain) {
    forall i :: 0 <= i < |c| ==> |c[i].key| == 16
  }

  ghost function ChainMatches(c: Chain, vfsp: nat): (r: seq<Key>)
    requires VnodeChain(c)
  {
    if c == [] then []
    else if Matches(c[|c| - 1].key, vfsp) then ChainMatches(c[..|c| - 1], vfsp) + [c[|c| - 1].key]
    else ChainMatches(c[..|c| - 1], vfsp)
  }

  ghost predicate VnodeTable(chains: seq<Chain>) {
    forall b :: 0 <= b < |chains| ==> VnodeChain(chains[b])
  }

  ghost function AllMatches(chains: seq<Chain>, vfsp: nat): seq<Key>
    requires VnodeTable(chains)
  {
    if chains == [] then []
    else AllMatches(chains[..|chains| - 1], vfsp) + ChainMatches(chains[|chains| - 1], vfsp)
  }

  lemma {:induction false} ChainMatchesFacts(c: Chain, vfsp: nat)
    requires VnodeChain(c) && UniqueKeys(c)
    ensures NoDup(ChainMatches(c, vfsp))
    ensures forall k :: k in ChainMatches(c, vfsp) <==>
              |k| == 16 && Matches(k, vfsp) && IndexIn(c, k) < |c|
  {
    hide IndexIn, UniqueKeys, Word, NoDup;
    EmptyChain();
    if c != [] {
      var init, last := c[..|c| - 1], c[|c| - 1].key;
      InitChain(c);
      ChainMatchesFacts(init, vfsp);
      if Matches(last, vfsp) {
        JoinNoDup(ChainMatches(init, vfsp), [last]);
      }
    }
  }

  lemma EmptyChain()
    ensures NoDup<Key>([]) && forall k :: IndexIn([], k) == 0
  {
  }

  // The chain without its last entry, whose key is on no other one.
  lemma InitChain(c: Chain)
    requires VnodeChain(c) && UniqueKeys(c) && c != []
    ensures var init, last := c[..|c| - 1], c[|c| - 1].key;
      && VnodeChain(init) && UniqueKeys(init) && IndexIn(init, last) == |init| && NoDup([last])
      && forall k :: IndexIn(c, k) < |c| <==> IndexIn(init, k) < |init| || k == last
  {
    var init, last := c[..|c| - 1], c[|c| - 1].key;
    forall k
      ensures IndexIn(c, k) < |c| <==> IndexIn(init, k) < |init| || k == last
    {
      KeyIn(c, k);
      KeyIn(init, k);
    }
    KeyIn(init, last);
  }

  lemma KeyIn(c: Chain, key: Key)
    ensures IndexIn(c, key) < |c| <==> exists i :: 0 <= i < |c| && c[i].key == key
  {
  }

  lemma {:induction false} AllMatchesFacts(chains: seq<Chain>, n: nat, vfsp: nat)
    requires PartOk(chains, n) && VnodeTable(chains)
    ensures NoDup(AllMatches(chains, vfsp))
    ensures forall k :: k in AllMatches(chains, vfsp) <==>
              |k| == 16 && Matches(k, vfsp) && k in Model(chains)
  {
    if chains != [] {
      var last := |chains| - 1;
      var init := chains[..last];
      assert PartOk(init, n) && VnodeTable(init);
      AllMatchesFacts(init, n, vfsp);
      assert UniqueKeys(chains[last]) && Placed(chains[last], last, n);
      ChainMatchesFacts(chains[last], vfsp);
      forall k
        ensures k in Model(chains) <==> k in Model(init) || IndexIn(chains[last], k) < |chains[last]|
        ensures k in Model(init) ==> IndexIn(chains[last], k) == |chains[last]|
      {
        ModelFacts(chains, n, k);
        ModelFacts(init, n, k);
        ChainMapFacts(chains[last], k);
      }
      JoinNoDup(AllMatches(init, vfsp), ChainMatches(chains[last], vfsp));
    }
  }

  // ----- what is left, and what is released

  ghost function Unmatched(m: map<Key, Value>, vfsp: nat): map<Key, Value>
    requires forall k :: k in m ==> |k| == 16
  {
    map k | k in m && !Matches(k, vfsp) :: m[k]
  }

  // Of the keys made for any file system exactly those made for vfsp are gone.
  ghost predicate PurgedExactly(m: map<Key, Value>, m1: map<Key, Value>, vfsp: nat) {
    forall w: nat, nodeid: nat :: IsWord(w) ==>
      var k := VnodeKey(w, nodeid);
      (k in m1 <==> k in m && w != vfsp) && (k in m1 ==> m1[k] == m[k])
  }

  lemma UnmatchedIsPurged(m: map<Key, Value>, vfsp: nat)
    requires forall k :: k in m ==> |k| == 16
    ensures PurgedExactly(m, Unmatched(m, vfsp), vfsp)
  {
    hide VnodeKey, Matches;
    forall w: nat, nodeid: nat | IsWord(w)
      ensures var k := VnodeKey(w, nodeid);
        (k in Unmatched(m, vfsp) <==> k in m && w != vfsp) &&
        (k in Unmatched(m, vfsp) ==> Unmatched(m, vfsp)[k] == m[k])
    {
      MatchesExactly(w, nodeid, vfsp);
    }
  }

  // One vnode_unref for every key with a vnode, in order.
  ghost function Releases(m: map<Key, Value>, keys: seq<Key>): seq<Value> {
    if keys == [] then []
    else
      var k := keys[|keys| - 1];
      Releases(m, keys[..|keys| - 1]) + if k in m && m[k] != 0 then [m[k]] else []
  }

  // The given keys that name v.
  ghost function Naming(m: map<Key, Value>, keys: seq<Key>, v: Value): set<Key> {
    set k | k in keys && k in m && m[k] == v
  }

  lemma NamingStep(m: map<Key, Value>, init: seq<Key>, k: Key, v: Value)
    requires k !in init
    ensures |Naming(m, init + [k], v)| == |Naming(m, init, v)| + if k in m && m[k] == v then 1 else 0
  {
    var more := if k in m && m[k] == v then {k} else {};
    assert Naming(m, init + [k], v) == Naming(m, init, v) + more;
  }

  // Each key is released once and no other: there are as many calls on a vnode
  // as there are given keys that name it.
  lemma {:induction false} ReleasesCount(m: map<Key, Value>, keys: seq<Key>, v: Value)
    requires NoDup(keys) && v != 0
    ensures multiset(Releases(m, keys))[v] == |Naming(m, keys, v)|
  {
    if keys != [] {
      var n := |keys| - 1;
      var init, k := keys[..n], keys[n];
      assert NoDup(init) && k !in init by {
        assert forall i :: 0 <= i < n ==> keys[i] != k;
      }
      ReleasesCount(m, init, v);
      NamingStep(m, init, k, v);
      assert init + [k] == keys;
    }
  }

  // ----- the loops

  // Counting and collecting walk every bucket alike. This is the walk of one
  // bucket: n is what the first pass adds to its count, and ids are the node ids
  // that the second pass stores in the temporary array.
  method WalkBucket(t: HashTable, vfsp: nat, i: nat) returns (n: nat, ids: seq<nat>)
    requires t.Valid() && i < t.capacity && VnodeChain(t.chains[i])
    ensures Rebuilt(ids, vfsp) == ChainMatches(t.chains[i], vfsp)
    ensures n == |ChainMatches(t.chains[i], vfsp)|
  {
    hide NoDup, ChainsOk, Size, Word, ChainMatches, Rebuilt, VnodeChain;
    n, ids := 0, [];
    var entry := t.entries[i];
    ghost var j: nat := 0;
    ghost var c := t.chains[i];
    assert BucketOk(t.entries[i], t.objs[i], c);
    WalkStarts(c, vfsp);
    while entry != null
      invariant j <= |t.objs[i]| == |c| && entry == (if j < |c| then t.objs[i][j] else null)
      invariant VnodeChain(c[..j])
      invariant Rebuilt(ids, vfsp) == ChainMatches(c[..j], vfsp) && n == |ids|
      decreases |c| - j
    {
      assert entry.key == c[j].key && entry.next == NextIn(t.objs[i], j);
      WalkStep(c, j, vfsp);
      if Word(entry.key[..8]) == vfsp {
        RebuiltMore(ids, vfsp, entry.key);
        ids := ids + [Word(entry.key[8..])];
        n := n + 1;
      }
      entry := entry.next;
      j := j + 1;
    }
    assert c[..|c|] == c;
  }

  lemma WalkStarts(c: Chain, vfsp: nat)
    ensures VnodeChain(c[..0]) && Rebuilt([], vfsp) == ChainMatches(c[..0], vfsp)
  {
  }

  lemma WalkStep(c: Chain, j: nat, vfsp: nat)
    requires VnodeChain(c) && j < |c|
    ensures VnodeChain(c[..j]) && VnodeChain(c[..j + 1]) && |c[j].key| == 16
    ensures ChainMatches(c[..j + 1], vfsp) ==
            ChainMatches(c[..j], vfsp) + if Matches(c[j].key, vfsp) then [c[j].key] else []
  {
    assert c[..j + 1][..j] == c[..j];
  }

  // The keys that the node ids stand for.
  ghost function Rebuilt(ids: seq<nat>, vfsp: nat): (r: seq<Key>)
    ensures |r| == |ids|
    ensures forall i :: 0 <= i < |r| ==> r[i] == VnodeKey(vfsp, ids[i])
  {
    if ids == [] then [] else Rebuilt(ids[..|ids| - 1], vfsp) + [VnodeKey(vfsp, ids[|ids| - 1])]
  }

  lemma RebuiltMore(ids: seq<nat>, vfsp: nat, key: Key)
    requires |key| == 16 && Matches(key, vfsp)
    ensures Rebuilt(ids + [Word(key[8..])], vfsp) == Rebuilt(ids, vfsp) + [key]
  {
    MatchRebuilt(key, vfsp);
    assert (ids + [Word(key[8..])])[..|ids|] == ids;
  }

  lemma RebuiltConcat(a: seq<nat>, b: seq<nat>, vfsp: nat)
    ensures Rebuilt(a + b, vfsp) == Rebuilt(a, vfsp) + Rebuilt(b, vfsp)
  {
  }

  lemma AllMatchesStep(chains: seq<Chain>, i: nat, vfsp: nat)
    requires VnodeTable(chains) && i < |chains|
    ensures VnodeTable(chains[..i]) && VnodeTable(chains[..i + 1])
    ensures AllMatches(chains[..i + 1], vfsp) == AllMatches(chains[..i], vfsp) + ChainMatches(chains[i], vfsp)
  {
    assert chains[..i + 1][..i] == chains[..i];
  }

  // The collecting pass.
  method CollectIds(t: HashTable, vfsp: nat) returns (ids: seq<nat>)
    requires t.Valid() && VnodeTable(t.chains)
    ensures Rebuilt(ids, vfsp) == AllMatches(t.chains, vfsp)
  {
    ids := [];
    ghost var chains := t.chains;
    for i := 0 to t.capacity
      invariant Rebuilt(ids, vfsp) == AllMatches(chains[..i], vfsp)
    {
      AllMatchesStep(chains, i, vfsp);
      var n, more := WalkBucket(t, vfsp, i);
      RebuiltConcat(ids, more, vfsp);
      ids := ids + more;
    }
    assert chains[..|chains|] == chains;
  }

  // One turn of the last loop: look up, remove, release what was found.
  method PurgeKey(t: HashTable, key: Key) returns (released: seq<Value>)
    requires t.Valid()
    modifies t, t.entries, t.repr
    ensures t.Valid() && t.entries == old(t.entries) && t.repr == old(t.repr)
    ensures t.chains == Table.Remove(old(t.chains), key).0
    ensures released == (var (found, v) := Lookup(old(t.chains), key); if found && v != 0 then [v] else [])
  {
    assert ChainsOk(t.chains);
    hide HashTable.Valid, ChainsOk, Model, Lookup, Table.Remove;
    released := [];
    RemoveRefinesMap(t.chains, key);
    LookupIsModel(t.chains, key);
    var found, vp := t.Get(key);
    if found && vp != 0 {
      var rem := t.Remove(key);
      if rem {
        released := [vp];
      }
    } else {
      var rem := t.Remove(key);
    }
  }

  // vfs_purge_vnodes; granted tells whether kmalloc gives the temporary array,
  // and released logs the vnode_unref calls.
  method VfsPurgeVnodes(t: HashTable, vfsp: nat, granted: bool) returns (released: seq<Value>)
    requires t.Valid() && VnodeTable(t.chains)
    modifies t, t.entries, t.repr
    ensures t.Valid()
    ensures vfsp == 0 || !granted ==> t.chains == old(t.chains) && released == []
    ensures vfsp != 0 && granted ==> PurgedExactly(Model(old(t.chains)), Model(t.chains), vfsp)
    ensures vfsp != 0 && granted ==>
      (forall k :: k in Model(old(t.chains)) ==> |k| == 16)
    ensures vfsp != 0 && granted ==>
      Model(t.chains) == Unmatched(Model(old(t.chains)), vfsp) &&
      released == Releases(Model(old(t.chains)), AllMatches(old(t.chains), vfsp))
  {
    hide HashTable.Valid, AllMatches, Releases, VnodeTable, Unmatched, Model;
    released := [];
    if vfsp == 0 {
      return;
    }
    MatchFacts(t, vfsp);
    UnmatchedIsPurged(Model(t.chains), vfsp);
    var count := CountMatches(t, vfsp);
    if count == 0 || !granted {
      return;
    }
    released := Sweep(t, vfsp);
  }

  // The part of vfs_purge_vnodes that has the temporary array.
  method Sweep(t: HashTable, vfsp: nat) returns (released: seq<Value>)
    requires t.Valid() && VnodeTable(t.chains)
    modifies t, t.entries, t.repr
    ensures t.Valid() && forall k :: k in Model(old(t.chains)) ==> |k| == 16
    ensures Model(t.chains) == Unmatched(Model(old(t.chains)), vfsp)
    ensures released == Releases(Model(old(t.chains)), AllMatches(old(t.chains), vfsp))
  {
    hide HashTable.Valid, AllMatches, Releases, VnodeTable, Unmatched, Model, Rebuilt, NoDup, KeySet;
    MatchFacts(t, vfsp);
    var ids := CollectIds(t, vfsp);
    released := PurgeIds(t, vfsp, ids);
    PurgedModel(Model(old(t.chains)), AllMatches(old(t.chains), vfsp), vfsp);
  }

  // The matching keys are the matching keys of the map, each once; with none of
  // them there is nothing to remove or to release.
  lemma MatchFacts(t: HashTable, vfsp: nat)
    requires t.Valid() && VnodeTable(t.chains)
    ensures ChainsOk(t.chains) && forall k :: k in Model(t.chains) ==> |k| == 16
    ensures var keys := AllMatches(t.chains, vfsp);
      && NoDup(keys) && (forall k :: k in keys <==> |k| == 16 && Matches(k, vfsp) && k in Model(t.chains))
      && (keys == [] ==> Unmatched(Model(t.chains), vfsp) == Model(t.chains) && Releases(Model(t.chains), keys) == [])
  {
    TableParts(t.chains);
    AllKeysAreVnodeKeys(t.chains);
    hide HashTable.Valid, ChainsOk, VnodeTable, Model, PartOk, NoDup;
    AllMatchesFacts(t.chains, |t.chains|, vfsp);
    NothingReleased(Model(t.chains));
    if AllMatches(t.chains, vfsp) == [] {
      NothingMatches(Model(t.chains), vfsp);
    }
  }

  lemma TableParts(chains: seq<Chain>)
    requires ChainsOk(chains)
    ensures PartOk(chains, |chains|)
  {
  }

  lemma NothingReleased(m: map<Key, Value>)
    ensures Releases(m, []) == []
  {
  }

  lemma NothingMatches(m: map<Key, Value>, vfsp: nat)
    requires forall k :: k in m ==> |k| == 16 && !Matches(k, vfsp)
    ensures Unmatched(m, vfsp) == m
  {
  }

  // The counting pass.
  method CountMatches(t: HashTable, vfsp: nat) returns (count: nat)
    requires t.Valid() && VnodeTable(t.chains)
    ensures count == |AllMatches(t.chains, vfsp)|
  {
    count := 0;
    ghost var chains := t.chains;
    for i := 0 to t.capacity
      invariant count == |AllMatches(chains[..i], vfsp)|
    {
      AllMatchesStep(chains, i, vfsp);
      var n, ids := WalkBucket(t, vfsp, i);
      count := count + n;
    }
    assert chains[..|chains|] == chains;
  }

  // The removing pass.
  method PurgeIds(t: HashTable, vfsp: nat, ids: seq<nat>) returns (released: seq<Value>)
    requires t.Valid() && NoDup(Rebuilt(ids, vfsp))
    modifies t, t.entries, t.repr
    ensures t.Valid()
    ensures Model(t.chains) == Model(old(t.chains)) - KeySet(Rebuilt(ids, vfsp))
    ensures released == Releases(Model(old(t.chains)), Rebuilt(ids, vfsp))
  {
    hide Model, NoDup, ChainsOk, Lookup, Table.Remove, VnodeKey;
    released := [];
    ghost var m, keys := Model(t.chains), Rebuilt(ids, vfsp);
    ghost var gone: set<Key> := {};
    for j := 0 to |ids|
      invariant t.Valid() && t.entries == old(t.entries) && t.repr == old(t.repr)
      invariant gone == KeySet(keys[..j])
      invariant Model(t.chains) == m - gone
      invariant released == Releases(m, keys[..j])
    {
      var key := VnodeKey(vfsp, ids[j]);
      NextKey(m, keys, j);
      RemoveRefinesMap(t.chains, key);
      LookupIsModel(t.chains, key);
      var one := PurgeKey(t, key);
      released := released + one;
      gone := gone + {key};
    }
    assert keys[..|ids|] == keys;
  }

  ghost function KeySet(keys: seq<Key>): set<Key> {
    set k | k in keys
  }

  lemma NextKey(m: map<Key, Value>, keys: seq<Key>, j: nat)
    requires NoDup(keys) && j < |keys|
    ensures var gone := KeySet(keys[..j]);
      && keys[j] !in gone
      && gone + {keys[j]} == KeySet(keys[..j + 1])
      && m - gone - {keys[j]} == m - (gone + {keys[j]})
      && Releases(m, keys[..j + 1]) ==
         Releases(m, keys[..j]) + if keys[j] in m && m[keys[j]] != 0 then [m[keys[j]]] else []
  {
    assert keys[..j + 1] == keys[..j] + [keys[j]];
    assert keys[..j + 1][..j] == keys[..j];
    forall i | 0 <= i < j
      ensures keys[i] != keys[j]
    {
    }
  }

  lemma AllKeysAreVnodeKeys(chains: seq<Chain>)
    requires ChainsOk(chains) && VnodeTable(chains)
    ensures forall k :: k in Model(chains) ==> |k| == 16
  {
    forall k | k in Model(chains)
      ensures |k| == 16
    {
      LookupIsModel(chains, k);
      var c := chains[Bucket(chains, k)];
      assert VnodeChain(c);
      assert c[IndexIn(c, k)].key == k;
    }
  }

  lemma PurgedModel(m: map<Key, Value>, keys: seq<Key>, vfsp: nat)
    requires forall k :: k in m ==> |k| == 16
    requires forall k :: k in keys <==> |k| == 16 && Matches(k, vfsp) && k in m
    ensures m - KeySet(keys) == Unmatched(m, vfsp)
  {
  }
}
