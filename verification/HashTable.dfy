// The hash table as it runs, on linked entries: src/klibc/kmem/hashtable.c
module HashTable {
  import opened Lists
  import opened Table

  class HashEntry {
    var next: HashEntry?
    var prev: HashEntry?
    var hash: nat
    var key: Key
    var value: Value

    constructor (hash: nat, key: Key, value: Value, next: HashEntry?)
      ensures this.hash == hash && this.key == key && this.value == value
      ensures this.next == next && prev == null
    {
      this.hash, this.key, this.value, this.next := hash, key, value, next;
      prev := null;
    }
  }

  ghost function HeadOf(c: seq<HashEntry>): HashEntry? {
    if c == [] then null else c[0]
  }

  ghost function NextIn(c: seq<HashEntry>, i: nat): HashEntry? {
    if i + 1 < |c| then c[i + 1] else null
  }

  ghost function PrevIn(c: seq<HashEntry>, i: nat): HashEntry? {
    if 0 < i <= |c| then c[i - 1] else null
  }

  // Both link fields of every entry follow the order of c.
  ghost predicate Linked(c: seq<HashEntry>)
    reads c
  {
    && (forall i: nat {:trigger NextIn(c, i)} :: i < |c| ==> c[i].next == NextIn(c, i))
    && (forall i: nat {:trigger PrevIn(c, i)} :: i < |c| ==> c[i].prev == PrevIn(c, i))
  }

  ghost predicate Holds(c: seq<HashEntry>, items: Chain)
    reads c
  {
    && |c| == |items|
    && forall i :: 0 <= i < |c| ==>
         c[i].key == items[i].key && c[i].value == items[i].value && c[i].hash == Hash(c[i].key)
  }

  ghost predicate BucketOk(head: HashEntry?, c: seq<HashEntry>, items: Chain)
    reads c
  {
    head == HeadOf(c) && NoDup(c) && Linked(c) && Holds(c, items)
  }

  class HashTable {
    var capacity: nat
    var entries: array<HashEntry?>
    var entryCount: nat
    ghost var objs: seq<seq<HashEntry>>
    ghost var chains: seq<Chain>
    ghost var repr: set<HashEntry>

    ghost predicate Shape()
      reads this
    {
      && capacity == entries.Length == |objs| == |chains| && ChainsOk(chains) && entryCount == Size(chains)
      && (forall b :: 0 <= b < |objs| ==> forall e :: e in objs[b] ==> e in repr)
      && (forall b, b' :: 0 <= b < b' < |objs| ==> forall e :: e in objs[b] ==> e !in objs[b'])
    }

    ghost predicate Valid()
      reads this, entries, repr
    {
      Shape() && forall b :: 0 <= b < |objs| ==> BucketOk(entries[b], objs[b], chains[b])
    }

    // hashtable_init once the bucket array could be allocated.
    constructor (size: nat)
      requires size > 0
      ensures Valid() && fresh(entries) && repr == {} && chains == Empty(size)
    {
      EmptyIsEmpty(size);
      capacity := size;
      entries := new HashEntry?[size](_ => null);
      entryCount := 0;
      objs := seq(size, _ => []);
      chains := Empty(size);
      repr := {};
    }

    // get_entry
    method GetEntry(key: Key, hash: nat) returns (entry: HashEntry?, ghost i: nat)
      requires Valid() && hash == Hash(key)
      ensures var b := Bucket(chains, key);
        && i == IndexIn(chains[b], key)
        && entry == (if i < |objs[b]| then objs[b][i] else null)
        && |objs[b]| == |chains[b]|
    {
      ghost var b := Bucket(chains, key);
      entry := entries[hash % capacity];
      i := 0;
      assert BucketOk(entries[b], objs[b], chains[b]);
      while entry != null
        invariant i <= |objs[b]| && entry == (if i < |objs[b]| then objs[b][i] else null)
        invariant forall j :: 0 <= j < i ==> chains[b][j].key != key
        decreases |objs[b]| - i
      {
        if entry.key == key && entry.hash == hash {
          break;
        }
        assert entry.next == NextIn(objs[b], i);
        entry := entry.next;
        i := i + 1;
      }
    }

    // hashtable_get
    method Get(key: Key) returns (found: bool, value: Value)
      requires Valid()
      ensures (found, value) == Lookup(chains, key)
    {
      var hash := Fnv1aHash(key);
      ghost var i;
      var entry;
      entry, i := GetEntry(key, hash);
      ghost var b := Bucket(chains, key);
      assert BucketOk(entries[b], objs[b], chains[b]);
      if entry == null {
        return false, 0;
      }
      return true, entry.value;
    }

    // Everything except bucket b is in order, as while b is being edited.
    ghost predicate OthersOk(b: nat)
      requires entries.Length == |objs| == |chains|
      reads this, entries, repr
    {
      forall b' :: 0 <= b' < |objs| && b' != b ==>
        (forall e :: e in objs[b'] ==> e in repr) && BucketOk(entries[b'], objs[b'], chains[b'])
    }

    // Bucket b gets new entries and items.
    ghost method Install(b: nat, c: seq<HashEntry>, d: Chain, added: set<HashEntry>)
      requires entries.Length == |objs| == |chains| == capacity && b < capacity
      requires (forall b :: 0 <= b < |objs| ==> forall e :: e in objs[b] ==> e in repr)
      requires (forall b, b' :: 0 <= b < b' < |objs| ==> forall e :: e in objs[b] ==> e !in objs[b'])
      requires OthersOk(b) && BucketOk(entries[b], c, d)
      requires forall e :: e in c ==> e in objs[b] || e in added
      requires added !! repr
      requires ChainsOk(chains[b := d]) && entryCount == Size(chains[b := d])
      modifies `objs, `chains, `repr
      ensures objs == old(objs)[b := c] && chains == old(chains)[b := d] && repr == old(repr) + added
      ensures Valid()
    {
      hide Linked, Holds, NoDup, ChainsOk, Size;
      objs := objs[b := c];
      chains := chains[b := d];
      repr := repr + added;
    }

    // hashtable_set; entryOk and keyOk tell whether slab_alloc and kmalloc give
    // memory, which kmalloc never does for an empty key.
    method Set(key: Key, value: Value, entryOk: bool, keyOk: bool) returns (ok: bool)
      requires Valid()
      modifies this, entries, repr
      ensures Valid() && fresh(repr - old(repr)) && entries == old(entries)
      ensures (chains, ok) == Table.Set(old(chains), key, value, entryOk && keyOk)
    {
      var hash := Fnv1aHash(key);
      ghost var i;
      var entry;
      entry, i := GetEntry(key, hash);
      SetEffect(chains, key, value, entryOk && keyOk);
      if entry != null {
        ReplaceValue(entry, value, hash % capacity, i);
        return true;
      }
      if !entryOk || !keyOk || key == [] {
        return false;
      }
      AddEntry(key, value, hash);
      return true;
    }

    // The entry is there already.
    method ReplaceValue(entry: HashEntry, value: Value, b: nat, ghost i: nat)
      requires Valid() && b < |objs| && i < |objs[b]| && i < |chains[b]| && entry == objs[b][i]
      requires var d := chains[b := chains[b][i := Item(chains[b][i].key, value)]];
        ChainsOk(d) && Size(d) == entryCount
      modifies this, repr
      ensures Valid() && repr == old(repr) && entries == old(entries)
      ensures chains == old(chains)[b := old(chains)[b][i := Item(old(chains)[b][i].key, value)]]
    {
      hide ChainsOk, Size;
      assert BucketOk(entries[b], objs[b], chains[b]);
      entry.value := value;
      Install(b, objs[b], chains[b][i := Item(chains[b][i].key, value)], {});
    }

    // A new entry becomes the head of its bucket.
    method AddEntry(key: Key, value: Value, hash: nat)
      requires Valid() && hash == Hash(key)
      requires var d := chains[hash % capacity := [Item(key, value)] + chains[hash % capacity]];
        ChainsOk(d) && Size(d) == entryCount + 1
      modifies this, entries, repr
      ensures Valid() && fresh(repr - old(repr)) && entries == old(entries)
      ensures chains == old(chains)[hash % capacity := [Item(key, value)] + old(chains)[hash % capacity]]
    {
      var b := hash % capacity;
      hide Linked, Holds, NoDup, ChainsOk, Size;
      ghost var e := LinkFront(b, key, value, hash);
      entryCount := entryCount + 1;
      Install(b, [e] + objs[b], [Item(key, value)] + chains[b], {e});
    }

    // hashtable_remove
    method Remove(key: Key) returns (ok: bool)
      requires Valid()
      modifies this, entries, repr
      ensures Valid() && repr == old(repr) && entries == old(entries)
      ensures (chains, ok) == Table.Remove(old(chains), key)
    {
      hide Linked, Holds, NoDup, ChainsOk, Size;
      var hash := Fnv1aHash(key);
      ghost var i;
      var entry;
      entry, i := GetEntry(key, hash);
      if entry == null {
        return false;
      }
      RemoveRefinesMap(chains, key);
      RemoveSize(chains, key);
      DropEntry(entry, hash % capacity, i);
      return true;
    }

    // Entry i of bucket b is unlinked and freed.
    method DropEntry(entry: HashEntry, b: nat, ghost i: nat)
      requires Valid() && b < |objs| && i < |objs[b]| && i < |chains[b]| && entry == objs[b][i]
      requires var d := chains[b := Drop(chains[b], i)];
        ChainsOk(d) && Size(d) == entryCount - 1
      modifies this, entries, repr
      ensures Valid() && repr == old(repr) && entries == old(entries)
      ensures chains == old(chains)[b := Drop(old(chains)[b], i)]
    {
      hide Linked, Holds, NoDup, ChainsOk, Size;
      UnlinkFrom(entry, b, i);
      entryCount := entryCount - 1;
      Install(b, Drop(objs[b], i), Drop(chains[b], i), {});
    }

    method UnlinkFrom(entry: HashEntry, b: nat, ghost i: nat)
      requires Valid() && b < |objs| && i < |objs[b]| && i < |chains[b]| && entry == objs[b][i]
      modifies entries, repr
      ensures BucketOk(entries[b], Drop(objs[b], i), Drop(chains[b], i))
      ensures OthersOk(b)
    {
      hide Size;
      assert BucketOk(entries[b], objs[b], chains[b]);
      var newHead := UnlinkEntry(entries[b], entry, objs[b], chains[b], i);
      entries[b] := newHead;
      forall b' | 0 <= b' < |objs| && b' != b
        ensures BucketOk(entries[b'], objs[b'], chains[b'])
      {
        assert old(BucketOk(entries[b'], objs[b'], chains[b']));
        assert forall e :: e in objs[b'] ==> e !in objs[b];
      }
    }

    method LinkFront(b: nat, key: Key, value: Value, hash: nat) returns (ghost added: HashEntry)
      requires Valid() && hash == Hash(key) && b < capacity
      modifies entries, repr
      ensures fresh(added) && BucketOk(entries[b], [added] + objs[b], [Item(key, value)] + chains[b])
      ensures OthersOk(b)
    {
      hide Size;
      assert BucketOk(entries[b], objs[b], chains[b]);
      var e := PushFront(entries[b], objs[b], chains[b], hash, key, value);
      forall b' | 0 <= b' < |objs| && b' != b
        ensures BucketOk(entries[b'], objs[b'], chains[b'])
      {
        assert old(BucketOk(entries[b'], objs[b'], chains[b']));
        assert forall e :: e in objs[b'] ==> e !in objs[b];
      }
      entries[b] := e;
      added := e;
    }

    // hashtable_destroy; freed logs the slab_free calls. The bucket array is gone
    // afterwards, so Valid is not promised.
    method Destroy() returns (freed: seq<HashEntry>)
      requires Valid()
      modifies `entryCount
      ensures entryCount == 0 && |freed| == old(entryCount) && NoDup(freed)
      ensures freed == Joined(objs, |objs|)
    {
      AllFreed();
      freed := FreeEntries();
      entryCount := 0;
    }

    method FreeEntries() returns (freed: seq<HashEntry>)
      requires Valid()
      ensures freed == Joined(objs, |objs|)
    {
      freed := [];
      var i := 0;
      while i < capacity
        invariant i <= capacity && freed == Joined(objs, i)
      {
        freed := FreeBucket(i, freed);
        JoinedStep(objs, i);
        i := i + 1;
      }
    }

    // Every entry is in one bucket, once.
    lemma AllFreed()
      requires Valid()
      ensures var all := Joined(objs, |objs|);
        && Joined(objs, 0) == [] && NoDup(all) && |all| == entryCount
        && forall e :: e in all <==> exists b :: 0 <= b < |objs| && e in objs[b]
    {
      forall b | 0 <= b < |objs|
        ensures NoDup(objs[b]) && |objs[b]| == |chains[b]|
      {
        assert BucketOk(entries[b], objs[b], chains[b]);
      }
      JoinedFacts(objs, chains, |objs|);
      assert chains[..|chains|] == chains;
    }

    // The inner loop of hashtable_destroy.
    method FreeBucket(b: nat, before: seq<HashEntry>) returns (freed: seq<HashEntry>)
      requires Valid() && b < |objs|
      ensures freed == before + objs[b]
    {
      freed := before;
      var entry := entries[b];
      assert BucketOk(entries[b], objs[b], chains[b]);
      ghost var j := 0;
      while entry != null
        invariant j <= |objs[b]| && entry == (if j < |objs[b]| then objs[b][j] else null)
        invariant freed == before + objs[b][..j]
        decreases |objs[b]| - j
      {
        assert entry.next == NextIn(objs[b], j);
        freed := freed + [entry];
        entry := entry.next;
        j := j + 1;
      }
    }
  }

  // The entries of the first n buckets.
  ghost function Joined(objs: seq<seq<HashEntry>>, n: nat): seq<HashEntry>
    requires n <= |objs|
  {
    if n == 0 then [] else Joined(objs, n - 1) + objs[n - 1]
  }

  lemma JoinedStep(objs: seq<seq<HashEntry>>, n: nat)
    requires n < |objs|
    ensures Joined(objs, n + 1) == Joined(objs, n) + objs[n]
  {
  }

  lemma {:induction false} JoinedMembers(objs: seq<seq<HashEntry>>, n: nat)
    requires n <= |objs|
    ensures forall e :: e in Joined(objs, n) <==> exists b :: 0 <= b < n && e in objs[b]
  {
    if n > 0 {
      JoinedMembers(objs, n - 1);
    }
  }

  // No entry is freed twice and none is forgotten.
  lemma {:induction false} JoinedFacts(objs: seq<seq<HashEntry>>, chains: seq<Chain>, n: nat)
    requires n <= |objs| == |chains|
    requires forall b :: 0 <= b < |objs| ==> NoDup(objs[b]) && |objs[b]| == |chains[b]|
    requires forall b, b' :: 0 <= b < b' < |objs| ==> forall e :: e in objs[b] ==> e !in objs[b']
    ensures NoDup(Joined(objs, n)) && |Joined(objs, n)| == Size(chains[..n])
    ensures forall e :: e in Joined(objs, n) <==> exists b :: 0 <= b < n && e in objs[b]
  {
    JoinedMembers(objs, n);
    if n > 0 {
      JoinedFacts(objs, chains, n - 1);
      JoinNoDup(Joined(objs, n - 1), objs[n - 1]);
      assert chains[..n][..n - 1] == chains[..n - 1];
    }
  }

  // The links of c, except that the neighbours of entry i skip it.
  ghost predicate Skips(c: seq<HashEntry>, i: nat)
    reads c
  {
    && (forall k: nat {:trigger NextIn(c, k)} :: k < |c| && k != i ==>
          c[k].next == if k + 1 == i then NextIn(c, i) else NextIn(c, k))
    && (forall k: nat {:trigger PrevIn(c, k)} :: k < |c| && k != i ==>
          c[k].prev == if k == i + 1 then PrevIn(c, i) else PrevIn(c, k))
  }

  ghost function Drop<T>(s: seq<T>, i: nat): seq<T>
    requires i < |s|
  {
    s[..i] + s[i + 1..]
  }

  lemma DropNoDup(c: seq<HashEntry>, i: nat)
    requires NoDup(c) && i < |c|
    ensures NoDup(Drop(c, i))
  {
    var d := Drop(c, i);
    forall a, b | 0 <= a < b < |d|
      ensures d[a] != d[b]
    {
      assert d[a] == c[if a < i then a else a + 1] && d[b] == c[if b < i then b else b + 1];
    }
  }

  lemma SkippedLinks(c: seq<HashEntry>, i: nat)
    requires i < |c| && NoDup(c) && Skips(c, i)
    ensures NoDup(Drop(c, i)) && Linked(Drop(c, i))
  {
    DropNoDup(c, i);
    hide NoDup;
    var d := Drop(c, i);
    forall j: nat | j < |d|
      ensures d[j].next == NextIn(d, j) && d[j].prev == PrevIn(d, j)
    {
      var k := if j < i then j else j + 1;
      assert d[j] == c[k];
      var next, prev := NextIn(c, k), PrevIn(c, k);
      assert c[k].next == if k + 1 == i then NextIn(c, i) else next;
      assert c[k].prev == if k == i + 1 then PrevIn(c, i) else prev;
    }
  }

  lemma DroppedHolds(c: seq<HashEntry>, items: Chain, i: nat)
    requires Holds(c, items) && i < |c|
    ensures Holds(Drop(c, i), Drop(items, i))
  {
    var d := Drop(c, i);
    forall j | 0 <= j < |d|
      ensures var x := Drop(items, i)[j];
        d[j].key == x.key && d[j].value == x.value && d[j].hash == Hash(d[j].key)
    {
      assert d[j] == c[if j < i then j else j + 1];
    }
  }

  // The entry at place i leaves its chain; the result is the bucket's new head.
  method UnlinkEntry(head: HashEntry?, entry: HashEntry, ghost c: seq<HashEntry>, ghost items: Chain, ghost i: nat)
    returns (newHead: HashEntry?)
    requires BucketOk(head, c, items) && i < |c| && entry == c[i]
    modifies c
    ensures BucketOk(newHead, Drop(c, i), Drop(items, i))
  {
    assert entry.prev == PrevIn(c, i) && entry.next == NextIn(c, i);
    if entry.prev != null {
      entry.prev.next := entry.next;
      newHead := head;
    } else {
      newHead := entry.next;
    }
    if entry.next != null {
      entry.next.prev := entry.prev;
    }
    assert Skips(c, i);
    SkippedLinks(c, i);
    DroppedHolds(c, items, i);
  }

  // A new entry in front of a chain.
  method PushFront(head: HashEntry?, ghost c: seq<HashEntry>, ghost items: Chain, hash: nat, key: Key, value: Value)
    returns (e: HashEntry)
    requires BucketOk(head, c, items) && hash == Hash(key)
    modifies c
    ensures fresh(e) && BucketOk(e, [e] + c, [Item(key, value)] + items)
  {
    e := new HashEntry(hash, key, value, head);
    if e.next != null {
      e.next.prev := e;
    }
    ghost var d := [e] + c;
    forall i: nat | i < |d|
      ensures d[i].next == NextIn(d, i) && d[i].prev == PrevIn(d, i)
    {
      if i > 0 {
        assert old(c[i - 1].next) == NextIn(c, i - 1) && old(c[i - 1].prev) == PrevIn(c, i - 1);
        assert d[i] == c[i - 1];
      }
    }
    forall i | 0 <= i < |d|
      ensures var x := ([Item(key, value)] + items)[i];
        d[i].key == x.key && d[i].value == x.value && d[i].hash == Hash(d[i].key)
    {
      if i > 0 {
        assert d[i] == c[i - 1];
      }
    }
  }

  lemma SetEffect(chains: seq<Chain>, key: Key, value: Value, granted: bool)
    requires ChainsOk(chains)
    ensures var b := Bucket(chains, key);
      var i := IndexIn(chains[b], key);
      var r := Table.Set(chains, key, value, granted).0;
      && ChainsOk(r)
      && Size(r) == Size(chains) + if i == |chains[b]| && granted && key != [] then 1 else 0
  {
    SetRefinesMap(chains, key, value, granted);
    LookupIsModel(chains, key);
    LookupIsModel(Table.Set(chains, key, value, granted).0, key);
    PutSize(Model(chains), key, value);
  }

  lemma PutSize(m: map<Key, Value>, key: Key, value: Value)
    ensures |m[key := value]| == |m| + if key in m then 0 else 1
  {
    assert m[key := value].Keys == m.Keys + {key};
  }
}
