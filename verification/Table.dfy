// Chained hashing as a function on values: src/klibc/kmem/hashtable.c
module Table {
  import opened Bits

  type Byte = b: nat | b < 256
  type Key = seq<Byte>
  type Value = nat  // a pointer; 0 is NULL

  const FNV1PRIME: nat := 0x100_0000_01b3
  const FNV1OFFSET: nat := 0xcbf2_9ce4_8422_2325
  const WORD: nat := 0x1_0000_0000_0000_0000

  // One step of fnv1ahash: xor with the byte, then a 64-bit product.
  function Mix(h: nat, b: Byte): nat {
    Xor(h, b) * FNV1PRIME % WORD
  }

  function Hash(key: Key): nat {
    if key == [] then FNV1OFFSET else Mix(Hash(key[..|key| - 1]), key[|key| - 1])
  }

  lemma MixIs(h: nat, b: Byte, x: nat)
    requires x == Xor(h, b)
    ensures Mix(h, b) == x * FNV1PRIME % WORD
  {
  }

  lemma HashGrows(key: Key, b: Byte)
    ensures Hash(key + [b]) == Mix(Hash(key), b) && Hash([]) == FNV1OFFSET
  {
    assert (key + [b])[..|key|] == key;
  }

  // One more byte b, for a hash with the low byte r.
  lemma HashStep(key: Key, high: nat, r: nat, b: Byte, x: nat)
    requires Hash(key) == high + r && high % 256 == 0 && r < 256 && x == Xor(r, b)
    ensures Hash(key + [b]) == (high + x) * FNV1PRIME % WORD
  {
    hide Hash, Xor, Mix;
    HashGrows(key, b);
    XorLowByte(high, r, b);
    MixIs(high + r, b, high + x);
  }

  lemma XorLowByte(high: nat, r: nat, b: nat)
    requires high % 256 == 0 && r < 256 && b < 256
    ensures Xor(high + r, b) == high + Xor(r, b)
  {
    hide Xor, Shl;
    assert Pow2(8) == 256;
    ShlByte(high / 256);
    XorLow(high / 256, r, b, 8);
  }

  // Each byte goes in bit by bit with an exclusive or, before the product.
  lemma HashOfMore(key: Key, b: Byte, x: nat)
    requires forall k: nat :: Bit(x, k) <==> Bit(Hash(key), k) != Bit(b, k)
    ensures Hash(key + [b]) == x * FNV1PRIME % WORD && Hash([]) == FNV1OFFSET
  {
    HashGrows(key, b);
    hide Bit, Xor;
    forall k: nat
      ensures Bit(x, k) <==> Bit(Xor(Hash(key), b), k)
    {
      XorBit(Hash(key), b, k);
    }
    SameBits(x, Xor(Hash(key), b));
  }

  // The published value of 64-bit FNV-1a for "a".
  lemma PublishedHash()
    ensures Hash([0x61]) == 0xaf63_dc4c_8601_ec8c
  {
    hide Hash, Xor, Mix;
    HashGrows([], 0x61);
    SmallXor();
    HashStep([], 0xcbf2_9ce4_8422_2300, 0x25, 0x61, 0x44);
    assert [] + [0x61] == [0x61];
  }

  lemma SmallXor()
    ensures Xor(0x25, 0x61) == 0x44
  {
    hide Xor;
    XorZeroes();
    XorHalves(0x25, 0x61);
    XorHalves(0x12, 0x30);
    XorHalves(0x9, 0x18);
    XorHalves(0x4, 0xc);
    XorHalves(0x2, 0x6);
    XorHalves(0x1, 0x3);
    XorHalves(0x0, 0x1);
  }

  lemma XorZeroes()
    ensures Xor(0, 0) == 0
  {
  }

  method Fnv1aHash(key: Key) returns (h: nat)
    ensures h == Hash(key)
  {
    h := FNV1OFFSET;
    for i := 0 to |key|
      invariant h == Hash(key[..i])
    {
      assert key[..i + 1][..i] == key[..i];
      h := Mix(h, key[i]);
    }
    assert key[..|key|] == key;
  }

  // ----- chains

  datatype Item = Item(key: Key, value: Value)

  type Chain = seq<Item>

  // Index of the entry with this key, or |c|.
  function IndexIn(c: Chain, key: Key): (i: nat)
    ensures i <= |c|
    ensures i < |c| ==> c[i].key == key
    ensures forall j :: 0 <= j < i ==> c[j].key != key
  {
    if c == [] || c[0].key == key then 0 else 1 + IndexIn(c[1..], key)
  }

  ghost predicate UniqueKeys(c: Chain) {
    forall i, j :: 0 <= i < j < |c| ==> c[i].key != c[j].key
  }

  ghost predicate Placed(c: Chain, b: nat, n: nat)
    requires n > 0
  {
    forall i :: 0 <= i < |c| ==> Hash(c[i].key) % n == b
  }

  ghost predicate ChainsOk(chains: seq<Chain>) {
    |chains| > 0 && forall b :: 0 <= b < |chains| ==> UniqueKeys(chains[b]) && Placed(chains[b], b, |chains|)
  }

  function Bucket(chains: seq<Chain>, key: Key): (b: nat)
    requires |chains| > 0
    ensures b < |chains|
  {
    Hash(key) % |chains|
  }

  // ----- the map a table stands for

  ghost function ChainMap(c: Chain): map<Key, Value> {
    if c == [] then map[] else ChainMap(c[1..])[c[0].key := c[0].value]
  }

  ghost function Model(chains: seq<Chain>): map<Key, Value> {
    if chains == [] then map[] else Model(chains[..|chains| - 1]) + ChainMap(chains[|chains| - 1])
  }

  function Size(chains: seq<Chain>): nat {
    if chains == [] then 0 else Size(chains[..|chains| - 1]) + |chains[|chains| - 1]|
  }

  // ----- operations on chains

  function Lookup(chains: seq<Chain>, key: Key): (bool, Value)
    requires |chains| > 0
  {
    var c := chains[Bucket(chains, key)];
    var i := IndexIn(c, key);
    if i < |c| then (true, c[i].value) else (false, 0)
  }

  // hashtable_set; granted tells whether the entry and its key copy could be
  // allocated. An empty key never can: kmalloc(0) is NULL.
  function Set(chains: seq<Chain>, key: Key, value: Value, granted: bool): (seq<Chain>, bool)
    requires |chains| > 0
  {
    var b := Bucket(chains, key);
    var i := IndexIn(chains[b], key);
    if i < |chains[b]| then (chains[b := chains[b][i := Item(key, value)]], true)
    else if !granted || key == [] then (chains, false)
    else (chains[b := [Item(key, value)] + chains[b]], true)
  }

  // hashtable_remove
  function Remove(chains: seq<Chain>, key: Key): (seq<Chain>, bool)
    requires |chains| > 0
  {
    var b := Bucket(chains, key);
    var i := IndexIn(chains[b], key);
    if i < |chains[b]| then (chains[b := chains[b][..i] + chains[b][i + 1..]], true)
    else (chains, false)
  }

  // ----- a chain and its map

  lemma {:induction false} ChainMapFacts(c: Chain, key: Key)
    requires UniqueKeys(c)
    ensures key in ChainMap(c) <==> IndexIn(c, key) < |c|
    ensures key in ChainMap(c) ==> ChainMap(c)[key] == c[IndexIn(c, key)].value
    ensures |ChainMap(c)| == |c|
  {
    if c != [] {
      assert UniqueKeys(c[1..]);
      ChainMapFacts(c[1..], key);
      ChainMapFacts(c[1..], c[0].key);
      assert forall j :: 0 <= j < |c[1..]| ==> c[1..][j].key != c[0].key;
    }
  }

  ghost predicate PartOk(chains: seq<Chain>, n: nat) {
    |chains| <= n && n > 0 &&
    forall b :: 0 <= b < |chains| ==> UniqueKeys(chains[b]) && Placed(chains[b], b, n)
  }

  lemma ModelParts(chains: seq<Chain>, n: nat)
    requires PartOk(chains, n) && chains != []
    ensures var last := |chains| - 1;
      && PartOk(chains[..last], n) && UniqueKeys(chains[last]) && Placed(chains[last], last, n)
      && Model(chains) == Model(chains[..last]) + ChainMap(chains[last])
  {
  }

  // A key on a chain hashes to its bucket.
  lemma ChainPlaces(c: Chain, b: nat, n: nat, key: Key)
    requires n > 0 && Placed(c, b, n)
    ensures IndexIn(c, key) < |c| ==> Hash(key) % n == b
  {
  }

  lemma {:induction false} ModelFacts(chains: seq<Chain>, n: nat, key: Key)
    requires PartOk(chains, n)
    ensures var b := Hash(key) % n;
      && (key in Model(chains) <==> b < |chains| && IndexIn(chains[b], key) < |chains[b]|)
      && (key in Model(chains) ==> Model(chains)[key] == chains[b][IndexIn(chains[b], key)].value)
  {
    if chains != [] {
      var last := |chains| - 1;
      ModelParts(chains, n);
      ModelFacts(chains[..last], n, key);
      ChainMapFacts(chains[last], key);
      hide PartOk, UniqueKeys, IndexIn;
      ChainPlaces(chains[last], last, n, key);
    }
  }

  lemma {:induction false} ModelSize(chains: seq<Chain>, n: nat)
    requires PartOk(chains, n)
    ensures |Model(chains)| == Size(chains)
  {
    if chains != [] {
      var last := |chains| - 1;
      var init := chains[..last];
      var m, c := Model(init), ChainMap(chains[last]);
      assert PartOk(init, n);
      ModelSize(init, n);
      assert UniqueKeys(chains[last]) && Placed(chains[last], last, n);
      ChainMapFacts(chains[last], []);
      forall k | k in m
        ensures k !in c
      {
        ModelFacts(init, n, k);
        ChainMapFacts(chains[last], k);
      }
      DisjointUnionSize(m, c);
    }
  }

  lemma DisjointUnionSize(m: map<Key, Value>, c: map<Key, Value>)
    requires forall k :: k in m ==> k !in c
    ensures |m + c| == |m| + |c|
  {
    assert (m + c).Keys == m.Keys + c.Keys;
    assert m.Keys !! c.Keys;
    assert |m.Keys + c.Keys| == |m.Keys| + |c.Keys|;
  }

  // The table agrees with its map on every key, found or not.
  lemma LookupIsModel(chains: seq<Chain>, key: Key)
    requires ChainsOk(chains)
    ensures Lookup(chains, key).0 <==> key in Model(chains)
    ensures key in Model(chains) ==> Lookup(chains, key).1 == Model(chains)[key]
    ensures |Model(chains)| == Size(chains)
  {
    ModelFacts(chains, |chains|, key);
    ModelSize(chains, |chains|);
  }

  lemma SameLookups(chains: seq<Chain>, m: map<Key, Value>)
    requires ChainsOk(chains)
    requires forall k :: Lookup(chains, k).0 <==> k in m
    requires forall k :: k in m ==> Lookup(chains, k).1 == m[k]
    ensures Model(chains) == m
  {
    forall k
      ensures k in Model(chains) <==> k in m
      ensures k in m ==> Model(chains)[k] == m[k]
    {
      LookupIsModel(chains, k);
    }
  }

  lemma {:induction false} IndexOfKey(c: Chain, i: nat)
    requires UniqueKeys(c) && i < |c|
    ensures IndexIn(c, c[i].key) == i
  {
    assert forall j :: 0 <= j < i ==> c[j].key != c[i].key;
  }

  lemma IndexUnchanged(c: Chain, d: Chain, key: Key)
    requires UniqueKeys(c) && UniqueKeys(d)
    requires forall x :: x in c && x.key == key ==> x in d
    requires forall x :: x in d && x.key == key ==> x in c
    ensures IndexIn(c, key) < |c| <==> IndexIn(d, key) < |d|
    ensures IndexIn(c, key) < |c| ==> c[IndexIn(c, key)] == d[IndexIn(d, key)]
  {
    var i, j := IndexIn(c, key), IndexIn(d, key);
    if i < |c| {
      assert c[i] in d;
      var l :| 0 <= l < |d| && d[l] == c[i];
      IndexOfKey(d, l);
    }
    if j < |d| {
      assert d[j] in c;
      var l :| 0 <= l < |c| && c[l] == d[j];
      IndexOfKey(c, l);
    }
  }

  // Chain b is replaced by d, which differs only in items with the given key.
  ghost predicate Differs(chains: seq<Chain>, d: Chain, key: Key)
    requires |chains| > 0
  {
    var b := Bucket(chains, key);
    && UniqueKeys(d) && Placed(d, b, |chains|)
    && forall x: Item :: x.key != key ==> (x in chains[b] <==> x in d)
  }

  lemma OtherKeys(chains: seq<Chain>, d: Chain, key: Key, k: Key)
    requires ChainsOk(chains) && Differs(chains, d, key) && k != key
    ensures Lookup(chains[Bucket(chains, key) := d], k) == Lookup(chains, k)
  {
    var b := Bucket(chains, key);
    if Bucket(chains, k) == b {
      assert UniqueKeys(chains[b]);
      IndexUnchanged(chains[b], d, k);
    }
  }

  lemma ReplacedOk(chains: seq<Chain>, d: Chain, key: Key)
    requires ChainsOk(chains) && Differs(chains, d, key)
    ensures ChainsOk(chains[Bucket(chains, key) := d])
  {
    var r := chains[Bucket(chains, key) := d];
    forall b | 0 <= b < |r|
      ensures UniqueKeys(r[b]) && Placed(r[b], b, |r|)
    {
      assert UniqueKeys(chains[b]) && Placed(chains[b], b, |chains|);
    }
  }

  // Such a replacement is a map update or removal at the key.
  lemma ReplacedModel(chains: seq<Chain>, d: Chain, key: Key)
    requires ChainsOk(chains) && Differs(chains, d, key)
    ensures var i := IndexIn(d, key);
      Model(chains[Bucket(chains, key) := d]) ==
      if i < |d| then Model(chains)[key := d[i].value] else Model(chains) - {key}
  {
    var r := chains[Bucket(chains, key) := d];
    var i := IndexIn(d, key);
    var m := if i < |d| then Model(chains)[key := d[i].value] else Model(chains) - {key};
    ReplacedOk(chains, d, key);
    forall k
      ensures Lookup(r, k).0 <==> k in m
      ensures k in m ==> Lookup(r, k).1 == m[k]
    {
      LookupIsModel(chains, k);
      if k != key {
        OtherKeys(chains, d, key, k);
      }
    }
    SameLookups(r, m);
  }

  // hashtable_set is a map update, and fails exactly when the key is new and the
  // entry cannot be allocated; then nothing changes.
  lemma SetRefinesMap(chains: seq<Chain>, key: Key, value: Value, granted: bool)
    requires ChainsOk(chains)
    ensures var (r, ok) := Set(chains, key, value, granted);
      && ChainsOk(r) && |r| == |chains|
      && (ok <==> key in Model(chains) || (granted && key != []))
      && Model(r) == (if ok then Model(chains)[key := value] else Model(chains))
  {
    var (r, ok) := Set(chains, key, value, granted);
    var b := Bucket(chains, key);
    LookupIsModel(chains, key);
    if ok {
      assert UniqueKeys(chains[b]) && Placed(chains[b], b, |chains|);
      SetChain(chains[b], r[b], key, value, b, |chains|);
      assert r == chains[b := r[b]];
      ReplacedOk(chains, r[b], key);
      ReplacedModel(chains, r[b], key);
    }
  }

  lemma SetChain(c: Chain, d: Chain, key: Key, value: Value, b: nat, n: nat)
    requires n > 0 && UniqueKeys(c) && Placed(c, b, n) && Hash(key) % n == b
    requires var i := IndexIn(c, key);
      d == if i < |c| then c[i := Item(key, value)] else [Item(key, value)] + c
    ensures UniqueKeys(d) && Placed(d, b, n)
    ensures IndexIn(d, key) < |d| && d[IndexIn(d, key)] == Item(key, value)
    ensures forall x: Item :: x.key != key ==> (x in c <==> x in d)
  {
    var i := IndexIn(c, key);
    if i < |c| {
      ReplaceInChain(c, i, value);
      IndexOfKey(d, i);
    } else {
      ConsChain(c, Item(key, value));
    }
  }

  lemma ReplaceInChain(c: Chain, i: nat, value: Value)
    requires UniqueKeys(c) && i < |c|
    ensures var d := c[i := Item(c[i].key, value)];
      UniqueKeys(d) && forall x: Item :: x.key != c[i].key ==> (x in c <==> x in d)
  {
    var d := c[i := Item(c[i].key, value)];
    assert forall j :: 0 <= j < |d| ==> d[j].key == c[j].key;
    forall x: Item | x.key != c[i].key && x in c
      ensures x in d
    {
      var j :| 0 <= j < |c| && c[j] == x;
      assert d[j] == x;
    }
    forall x: Item | x.key != c[i].key && x in d
      ensures x in c
    {
      var j :| 0 <= j < |d| && d[j] == x;
      assert c[j] == x;
    }
  }

  lemma ConsChain(c: Chain, x: Item)
    requires UniqueKeys(c) && IndexIn(c, x.key) == |c|
    ensures UniqueKeys([x] + c)
  {
    var d := [x] + c;
    assert forall j :: 1 <= j < |d| ==> d[j] == c[j - 1];
  }

  // hashtable_remove takes exactly one key out of the map, and reports whether
  // it was there.
  lemma RemoveRefinesMap(chains: seq<Chain>, key: Key)
    requires ChainsOk(chains)
    ensures var (r, ok) := Remove(chains, key);
      && ChainsOk(r) && |r| == |chains|
      && (ok <==> key in Model(chains))
      && Model(r) == Model(chains) - {key}
  {
    var (r, ok) := Remove(chains, key);
    var b := Bucket(chains, key);
    LookupIsModel(chains, key);
    if ok {
      assert UniqueKeys(chains[b]) && Placed(chains[b], b, |chains|);
      RemoveChain(chains[b], IndexIn(chains[b], key), b, |chains|);
      assert r == chains[b := r[b]];
      ReplacedOk(chains, r[b], key);
      ReplacedModel(chains, r[b], key);
    }
  }

  lemma RemoveSize(chains: seq<Chain>, key: Key)
    requires ChainsOk(chains)
    ensures Size(Remove(chains, key).0) == Size(chains) - (if Remove(chains, key).1 then 1 else 0)
  {
    RemoveRefinesMap(chains, key);
    LookupIsModel(chains, key);
    LookupIsModel(Remove(chains, key).0, key);
    var m := Model(chains);
    if key in m {
      assert (m - {key}).Keys == m.Keys - {key};
      assert |m.Keys - {key}| == |m.Keys| - 1;
    }
  }

  lemma RemoveChain(c: Chain, i: nat, b: nat, n: nat)
    requires n > 0 && UniqueKeys(c) && Placed(c, b, n) && i < |c|
    ensures var d := c[..i] + c[i + 1..];
      && UniqueKeys(d) && Placed(d, b, n) && IndexIn(d, c[i].key) == |d|
      && forall x: Item :: x.key != c[i].key ==> (x in c <==> x in d)
  {
    var d := c[..i] + c[i + 1..];
    forall j, l | 0 <= j < l < |d|
      ensures d[j].key != d[l].key
    {
      assert d[j] == c[if j < i then j else j + 1] && d[l] == c[if l < i then l else l + 1];
    }
    forall j | 0 <= j < |d|
      ensures d[j].key != c[i].key && Hash(d[j].key) % n == b
    {
      assert d[j] == c[if j < i then j else j + 1];
    }
    forall x: Item | x.key != c[i].key
      ensures x in c <==> x in d
    {
      if x in c {
        var j :| 0 <= j < |c| && c[j] == x;
        assert d[if j < i then j else j - 1] == x;
      }
    }
  }

  // Removing the key just set gives back the map when the key was new.
  lemma RemoveUndoesSet(chains: seq<Chain>, key: Key, value: Value)
    requires ChainsOk(chains) && key != []
    ensures Model(Remove(Set(chains, key, value, true).0, key).0) == Model(chains) <==> key !in Model(chains)
  {
    SetRefinesMap(chains, key, value, true);
    RemoveRefinesMap(Set(chains, key, value, true).0, key);
    PutThenDrop(Model(chains), key, value);
  }

  lemma PutThenDrop(m: map<Key, Value>, key: Key, value: Value)
    ensures m[key := value] - {key} == m <==> key !in m
  {
    assert key !in m[key := value] - {key};
    assert m[key := value] - {key} == m - {key};
    if key !in m {
      assert m - {key} == m;
    }
  }

  // hashtable_init
  function Empty(n: nat): (r: seq<Chain>)
    ensures |r| == n
  {
    seq(n, _ => [])
  }

  lemma {:induction false} EmptyIsEmpty(n: nat)
    ensures n > 0 ==> ChainsOk(Empty(n))
    ensures Model(Empty(n)) == map[] && Size(Empty(n)) == 0
  {
    if n > 0 {
      EmptyIsEmpty(n - 1);
      assert Empty(n)[..n - 1] == Empty(n - 1);
    }
  }
}
