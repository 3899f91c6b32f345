// The slab allocator as it runs, on slab headers and object words in memory:
// src/klibc/kmem/slab.c
module SlabCache {
  import opened Bits
  import opened Links
  import opened Lists
  import opened Slab

  // slab_t without its back pointer and magic; 0 is NULL.
  datatype Header = Header(next: nat, freeCount: nat, total: nat, freeList: nat)

  // The next fields link the slabs of q in order.
  ghost predicate Listed(headers: map<nat, Header>, q: seq<nat>) {
    && (forall i :: 0 <= i < |q| ==> q[i] in headers)
    && (forall i {:trigger NextOf(q, i)} :: 0 <= i < |q| ==> headers[q[i]].next == NextOf(q, i))
  }

  ghost predicate HeaderOk(headers: map<nat, Header>, words: map<nat, nat>, g: Geometry, p: nat, c: seq<nat>) {
    && p in headers
    && headers[p].freeCount == |c| && headers[p].total == g.count && headers[p].freeList == Head(c)
    && Linked(words, c)
  }

  // Memory holds the lists and chains of s.
  ghost predicate Backed(headers: map<nat, Header>, words: map<nat, nat>, s: State) {
    && headers.Keys == s.chains.Keys
    && Listed(headers, s.partial) && Listed(headers, s.full)
    && forall p :: p in s.chains ==> HeaderOk(headers, words, s.g, p, s.chains[p])
  }

  class SlabCache {
    const k: nat              // align == Pow2(k)
    const objectSize: nat
    const objectsPerSlab: nat
    var partial: nat
    var full: nat
    var empty: nat
    var headers: map<nat, Header>   // the slab headers in mapped pages
    var words: map<nat, nat>        // the first word of every free object
    ghost var s: State

    // The cache's fields are those of an accepted geometry.
    ghost predicate Sized()
      reads this
    {
      && GeometryOk(s.g) && 3 <= k <= 12
      && s.g.size == objectSize && s.g.count == objectsPerSlab
      && s.g.first == AlignUp(AlignUp(SLAB_HEADER, 3), k)
      && objectsPerSlab == Quotient(PAGE - s.g.first, objectSize)
    }

    ghost predicate Valid()
      reads this
    {
      Inv(s) && Sized() && Stored()
    }

    // Pointers and memory represent s.
    ghost predicate Stored()
      reads this
    {
      empty == 0 && partial == Head(s.partial) && full == Head(s.full) && Backed(headers, words, s)
    }

    // slab_cache_create, once kmalloc has given the cache. Without an object to a
    // slab the source returns NULL, as it does for size 0; sizes that wrap it
    // divides by (AlignUpWraps). Alignments below a word are raised to one.
    constructor (requested: nat, align: nat, shift: nat)
      requires 3 <= shift <= 12 && (if align < 8 then 8 else align) == Pow2(shift)
      requires requested <= WORD - Pow2(shift)
      ensures objectsPerSlab == if requested == 0 then 0 else MakeGeometry(requested, shift).count
      ensures objectsPerSlab > 0 ==> Valid() && s == EmptyCache(MakeGeometry(requested, shift))
    {
      k := shift;
      partial, full, empty := 0, 0, 0;
      headers, words := map[], map[];
      if requested == 0 {
        objectSize, objectsPerSlab := 0, 0;
        s := EmptyCache(Geometry(0, 0, 0));
      } else {
        AcceptedGeometry(requested, shift);
        AlignUpWraps(requested, shift);
        FirstFitsPage(shift);
        objectSize := AlignUpWord(requested, shift);
        objectsPerSlab := Quotient(PAGE - AlignUp(AlignUp(SLAB_HEADER, 3), shift), AlignUpWord(requested, shift));
        s := EmptyCache(MakeGeometry(requested, shift));
      }
    }

    // slab_init on the page pmm_alloc_page gave: the first words of the objects
    // are chained, the last object first.
    method InitSlab(page: nat)
      requires Sized() && page % PAGE == 0 && page > 0
      modifies `headers, `words
      ensures headers == old(headers)[page := Header(0, s.g.count, s.g.count, Head(FreshChain(s.g, page, s.g.count)))]
      ensures Linked(words, FreshChain(s.g, page, s.g.count))
      ensures SameElsewhere(old(words), words, page)
    {
      var first := AlignUp(AlignUp(SLAB_HEADER, 3), k);
      var objects := Quotient(PAGE - first, objectSize);
      var freeList := ThreadObjects(page, page + first, objects, s.g);
      headers := headers[page := Header(0, objects, objects, freeList)];
    }

    // The loop of slab_init.
    method ThreadObjects(page: nat, firstSlot: nat, objects: nat, ghost g: Geometry) returns (previous: nat)
      requires GeometryOk(g) && objectSize == g.size && objects == g.count
      requires page % PAGE == 0 && firstSlot == page + g.first
      modifies `words
      ensures previous == Head(FreshChain(g, page, g.count))
      ensures Linked(words, FreshChain(g, page, g.count)) && SameElsewhere(old(words), words, page)
    {
      var slot := firstSlot;
      previous := 0;
      for i := 0 to objects
        invariant slot == ObjectAt(g, page, i)
        invariant previous == Head(FreshChain(g, page, i))
        invariant Linked(words, FreshChain(g, page, i))
        invariant SameElsewhere(old(words), words, page)
      {
        ThreadObject(old(words), words, g, page, i);
        words := words[slot := previous];
        previous := slot;
        slot := slot + objectSize;
      }
    }

    // slab_pop_object on a slab with a free object.
    method PopObject(slab: nat) returns (obj: nat)
      requires slab in s.chains && s.chains[slab] != []
      requires HeaderOk(headers, words, s.g, slab, s.chains[slab])
      modifies `headers
      ensures obj == s.chains[slab][0] && HeaderOk(headers, words, s.g, slab, s.chains[slab][1..])
      ensures headers == old(headers)[slab := old(headers)[slab].(freeList := NextOf(s.chains[slab], 0),
                                                                   freeCount := |s.chains[slab]| - 1)]
    {
      assert HeaderOk(headers, words, s.g, slab, s.chains[slab]);
      obj := headers[slab].freeList;
      headers := headers[slab := headers[slab].(freeList := words[obj])];
      headers := headers[slab := headers[slab].(freeCount := headers[slab].freeCount - 1)];
      ThreadedTail(words, s.chains[slab]);
    }

    // slab_push_object: obj comes in front of the free chain c.
    method PushObject(slab: nat, obj: nat, ghost c: seq<nat>)
      requires HeaderOk(headers, words, s.g, slab, c) && obj !in c
      modifies `headers, `words
      ensures HeaderOk(headers, words, s.g, slab, [obj] + c)
      ensures words == old(words)[obj := Head(c)]
      ensures headers == old(headers)[slab := old(headers)[slab].(freeList := obj, freeCount := |c| + 1)]
    {
      words := words[obj := headers[slab].freeList];
      headers := headers[slab := headers[slab].(freeList := obj)];
      headers := headers[slab := headers[slab].(freeCount := headers[slab].freeCount + 1)];
      LinkedFrame(old(words), words, c);
      ThreadedCons(words, c, obj);
    }

    // The pointer-to-pointer loop that takes slab out of a list; the result is
    // the new list head.
    method Unlink(head: nat, slab: nat, ghost q: seq<nat>) returns (newHead: nat)
      requires Listed(headers, q) && NoDup(q) && head == Head(q) && slab in q && 0 !in q
      modifies `headers
      ensures newHead == Head(Without(q, slab)) && Listed(headers, Without(q, slab))
      ensures OnlyNext(old(headers), headers)
      ensures forall p :: p in headers && (p == slab || p !in q) ==> headers[p] == old(headers)[p]
    {
      if head == slab {
        ListedTail(headers, q);
        return headers[slab].next;
      }
      var previous := head;
      ghost var j := 1;
      assert q == [q[0]] + q[1..];
      while headers[previous].next != slab
        invariant 1 <= j < |q| && previous == q[j - 1]
        invariant slab in q[j..]
        decreases |q| - j
      {
        assert headers[previous].next == NextOf(q, j - 1);
        assert q[j..] == [q[j]] + q[j + 1..];
        previous := headers[previous].next;
        j := j + 1;
      }
      assert headers[previous].next == NextOf(q, j - 1);
      ListedUnlink(headers, q, j);
      headers := headers[previous := headers[previous].(next := headers[slab].next)];
      return head;
    }

    // The branch of slab_alloc that takes a page from pmm_alloc_page.
    method AddPage(page: nat)
      requires Valid() && s.partial == [] && page % PAGE == 0 && page > 0 && page !in s.chains
      modifies `headers, `words, `partial, `s
      ensures Stored() && s == AddSlab(old(s), page)
    {
      hide HeaderOk, Linked, FreshChain, SameElsewhere, NoDup;
      ghost var h, w := headers, words;
      InitSlab(page);
      BackedAdd(h, w, words, s, page);
      ghost var linked := headers;
      headers := headers[page := headers[page].(next := partial)];
      assert headers == linked;
      partial := page;
      s := AddSlab(s, page);
    }

    // The move of an exhausted slab from partial to full.
    method MoveToFull(slab: nat)
      requires Stored() && ListsOk(s) && s.partial != [] && slab == s.partial[0]
      modifies `headers, `partial, `full, `s
      ensures Stored() && s == Filled(old(s))
    {
      hide NoDup, HeaderOk, Linked, Without;
      ghost var h := headers;
      ListedTail(h, s.partial);
      partial := Unlink(partial, slab, s.partial);
      FillMemory(h, headers, words, s);
      headers := headers[slab := headers[slab].(next := full)];
      full := slab;
      s := Filled(s);
    }

    // What slab_alloc does once it has a partial slab.
    method TakeObject(slab: nat) returns (obj: nat)
      requires Stored() && CanPop(s) && slab == s.partial[0]
      modifies `headers, `partial, `full, `s
      ensures Stored() && (s, Object(obj)) == Pop(old(s))
    {
      BackedPop(headers, words, s);
      obj := PopObject(slab);
      s := Shortened(s);
      if headers[slab].freeCount == 0 {
        MoveToFull(slab);
      }
    }

    // slab_alloc; page is what pmm_alloc_page would give, 0 for none.
    method SlabAlloc(page: nat) returns (r: Result)
      requires Valid() && (page != 0 ==> page % PAGE == 0 && page !in s.chains)
      modifies this
      ensures Valid() && (s, r) == Alloc(old(s), page)
    {
      AllocSteps(s, page);
      var slab := partial;
      if slab == 0 {
        slab := empty;
      }
      if slab == 0 {
        if page == 0 {
          return Fallback;
        }
        AddPage(page);
        slab := page;
      }
      var obj := TakeObject(slab);
      return Object(obj);
    }

    // The move of a slab that was full to the front of partial.
    method MoveToPartial(slab: nat)
      requires Stored() && CanUnfill(s, slab)
      modifies `headers, `partial, `full, `s
      ensures Stored() && s == Unfilled(old(s), slab)
    {
      hide NoDup, HeaderOk, Linked, Without;
      ghost var h := headers;
      full := Unlink(full, slab, s.full);
      UnfillMemory(h, headers, words, s, slab);
      headers := headers[slab := headers[slab].(next := partial)];
      partial := slab;
      s := Unfilled(s, slab);
    }

    // Takes a slab out of partial.
    method UnlinkPartial(slab: nat)
      requires Stored() && CanDrop(s, slab)
      modifies `headers, `partial, `s
      ensures Stored() && s == old(s).(partial := Without(old(s).partial, slab))
    {
      hide NoDup, HeaderOk, Linked, Without;
      ghost var h := headers;
      partial := Unlink(partial, slab, s.partial);
      ListedFrame(h, headers, s.full);
      BackedRelinked(h, headers, words, s, Without(s.partial, slab), s.full);
      s := s.(partial := Without(s.partial, slab));
    }

    // A wholly free slab is unlinked and its page unmapped.
    method DropSlab(slab: nat)
      requires Stored() && CanDrop(s, slab)
      modifies `headers, `partial, `s
      ensures Stored() && s == Dropped(old(s), slab)
    {
      hide HeaderOk, Linked, Listed, Without;
      WithoutFacts(s.partial, slab);
      UnlinkPartial(slab);
      Unmapped(headers, words, s, slab);
      headers := headers - {slab};
      s := s.(chains := s.chains - {slab});
    }

    // slab_free; an object in no slab goes to kfree, which foreign reports.
    method SlabFree(obj: nat) returns (foreign: bool)
      requires Valid() && (IsLive(s, obj) || SlabOf(obj) !in s.chains)
      modifies this
      ensures Valid() && s == Free(old(s), obj)
      ensures foreign <==> SlabOf(obj) !in old(s).chains
    {
      var slab := SlabOf(obj);
      if slab !in headers {
        return true;
      }
      FreeSteps(s, obj);
      BackedPush(headers, words, s, obj);
      GiveBack(slab, obj);
      return false;
    }

    // slab_free once the slab is known.
    method GiveBack(slab: nat, obj: nat)
      requires Stored() && slab == SlabOf(obj) && CanGiveBack(s, obj) && obj !in s.chains[slab]
      requires slab in headers && headers[slab].freeCount == |s.chains[slab]| && headers[slab].total == s.g.count
      requires Backed(headers[slab := headers[slab].(freeList := obj, freeCount := headers[slab].freeCount + 1)],
                      words[obj := headers[slab].freeList], Pushed(s, obj))
      modifies `headers, `words, `partial, `full, `s
      ensures Stored() && s == Free(old(s), obj)
    {
      var wasFull := headers[slab].freeCount == 0;
      assert HeaderOk(headers, words, s.g, slab, s.chains[slab]);
      PushObject(slab, obj, s.chains[slab]);
      s := Pushed(s, obj);
      if wasFull {
        MoveToPartial(slab);
      } else if headers[slab].freeCount == headers[slab].total {
        DropSlab(slab);
      }
    }
  }

  // A chain without its head is threaded by the same words.
  lemma ThreadedTail(words: map<nat, nat>, c: seq<nat>)
    requires c != [] && Linked(words, c)
    ensures Linked(words, c[1..]) && Head(c[1..]) == NextOf(c, 0)
  {
    LinkedTail(words, c);
  }

  lemma ListedTail(headers: map<nat, Header>, q: seq<nat>)
    requires q != [] && Listed(headers, q)
    ensures Listed(headers, q[1..]) && Head(q[1..]) == headers[q[0]].next
    ensures Without(q, q[0]) == q[1..]
  {
    var t := q[1..];
    assert headers[q[0]].next == NextOf(q, 0);
    forall i | 0 <= i < |t|
      ensures t[i] in headers && headers[t[i]].next == NextOf(t, i)
    {
      assert t[i] == q[i + 1] && NextOf(t, i) == NextOf(q, i + 1);
    }
  }

  lemma ListedUnlink(headers: map<nat, Header>, q: seq<nat>, j: nat)
    requires Listed(headers, q) && NoDup(q) && 0 < j < |q|
    ensures var r := Without(q, q[j]);
      && Listed(headers[q[j - 1] := headers[q[j - 1]].(next := headers[q[j]].next)], r)
      && Head(r) == Head(q)
  {
    WithoutAt(q, j);
    var r := q[..j] + q[j + 1..];
    var h1 := headers[q[j - 1] := headers[q[j - 1]].(next := headers[q[j]].next)];
    forall i | 0 <= i < |r|
      ensures r[i] in h1 && h1[r[i]].next == NextOf(r, i)
    {
      if i < j - 1 {
        assert r[i] == q[i] && q[i] != q[j - 1] && NextOf(r, i) == NextOf(q, i);
      } else if i == j - 1 {
        assert r[i] == q[i] && NextOf(r, i) == NextOf(q, j);
      } else {
        assert r[i] == q[i + 1] && q[i + 1] != q[j - 1] && NextOf(r, i) == NextOf(q, i + 1);
      }
    }
  }

  // Words outside a page are as before.
  ghost predicate SameElsewhere(w0: map<nat, nat>, w: map<nat, nat>, page: nat) {
    forall a :: a in w0 && SlabOf(a) != page ==> a in w && w[a] == w0[a]
  }

  // Threading one more object keeps the chain behind it.
  lemma ThreadObject(w0: map<nat, nat>, words: map<nat, nat>, g: Geometry, page: nat, i: nat)
    requires GeometryOk(g) && page % PAGE == 0 && i < g.count
    requires Linked(words, FreshChain(g, page, i)) && SameElsewhere(w0, words, page)
    ensures ObjectAt(g, page, i) + g.size == ObjectAt(g, page, i + 1)
    ensures ObjectAt(g, page, i) == Head(FreshChain(g, page, i + 1))
    ensures var w := words[ObjectAt(g, page, i) := Head(FreshChain(g, page, i))];
      Linked(w, FreshChain(g, page, i + 1)) && SameElsewhere(w0, w, page)
  {
    var c, d := FreshChain(g, page, i), FreshChain(g, page, i + 1);
    var w := words[ObjectAt(g, page, i) := Head(c)];
    assert d == [ObjectAt(g, page, i)] + c;
    assert (i + 1) * g.size == i * g.size + g.size;
    ObjectInPage(g, page, i);
    forall j | 0 <= j < |d|
      ensures d[j] in w && w[d[j]] == NextOf(d, j)
    {
      if j > 0 {
        FreshChainAt(g, page, i, j - 1);
        ObjectsDisjoint(g, page, i, page, i - j);
        assert d[j] == c[j - 1] && NextOf(d, j) == NextOf(c, j - 1);
      }
    }
  }

  lemma HeadIsSlab(s: State)
    requires Inv(s)
    ensures s.partial != [] ==> s.partial[0] > 0 && s.partial[0] in s.chains && s.chains[s.partial[0]] != []
    ensures 0 !in s.partial && 0 !in s.full
    ensures NoDup(s.partial) && NoDup(s.full)
  {
    SplitNoDup(s.partial, s.full);
    if s.partial != [] {
      assert s.partial[0] in s.partial + s.full;
    }
    assert 0 in s.partial + s.full ==> 0 in s.chains;
  }

  // Chains of other slabs live in other pages.
  lemma OtherChains(s: State, w0: map<nat, nat>, w: map<nat, nat>, page: nat, p: nat)
    requires Inv(s) && p in s.chains && p != page
    requires Linked(w0, s.chains[p]) && SameElsewhere(w0, w, page)
    ensures Linked(w, s.chains[p])
  {
    var c := s.chains[p];
    forall i | 0 <= i < |c|
      ensures c[i] in w && w[c[i]] == NextOf(c, i)
    {
      assert c[i] in c;
      ObjectInSlab(s.g, p, c[i]);
    }
  }

  lemma ListedFrame(h: map<nat, Header>, h1: map<nat, Header>, q: seq<nat>)
    requires Listed(h, q)
    requires forall p :: p in q && p in h ==> p in h1 && h1[p].next == h[p].next
    ensures Listed(h1, q)
  {
    forall i | 0 <= i < |q|
      ensures q[i] in h1 && h1[q[i]].next == NextOf(q, i)
    {
      assert q[i] in q && q[i] in h;
    }
  }

  // Relinking lists does not touch what HeaderOk reads.
  ghost predicate OnlyNext(h: map<nat, Header>, h1: map<nat, Header>) {
    h1.Keys == h.Keys && forall p :: p in h ==> h1[p] == h[p].(next := h1[p].next)
  }

  lemma BackedRelinked(h: map<nat, Header>, h1: map<nat, Header>, w: map<nat, nat>, s: State,
                       partial: seq<nat>, full: seq<nat>)
    requires Backed(h, w, s) && OnlyNext(h, h1)
    requires Listed(h1, partial) && Listed(h1, full)
    ensures Backed(h1, w, s.(partial := partial, full := full))
  {
    forall p | p in s.chains
      ensures HeaderOk(h1, w, s.g, p, s.chains[p])
    {
      assert HeaderOk(h, w, s.g, p, s.chains[p]);
    }
  }

  // One slab gets another chain; lists stay as they are.
  lemma BackedReplaced(h: map<nat, Header>, w: map<nat, nat>, w1: map<nat, nat>, s: State,
                       p: nat, hp: Header, c: seq<nat>)
    requires Backed(h, w, s) && p in s.chains && p in h && hp.next == h[p].next
    requires HeaderOk(h[p := hp], w1, s.g, p, c)
    requires forall x :: x in s.chains && x != p ==> Linked(w1, s.chains[x])
    ensures Backed(h[p := hp], w1, s.(chains := s.chains[p := c]))
  {
    var h1 := h[p := hp];
    var s1 := s.(chains := s.chains[p := c]);
    ListedFrame(h, h1, s.partial);
    ListedFrame(h, h1, s.full);
    forall x | x in s1.chains
      ensures HeaderOk(h1, w1, s.g, x, s1.chains[x])
    {
      if x != p {
        assert HeaderOk(h, w, s.g, x, s.chains[x]);
      }
    }
  }

  lemma BackedAdd(h: map<nat, Header>, w0: map<nat, nat>, w: map<nat, nat>, s: State, page: nat)
    requires Inv(s) && Backed(h, w0, s) && s.partial == [] && page !in s.chains
    requires page % PAGE == 0 && page > 0
    requires Linked(w, FreshChain(s.g, page, s.g.count)) && SameElsewhere(w0, w, page)
    ensures var n := s.g.count;
      Backed(h[page := Header(0, n, n, Head(FreshChain(s.g, page, n)))], w, AddSlab(s, page))
  {
    hide NoDup, GeometryOk, FreshChain, SameElsewhere, ChainOk, Linked;
    var n := s.g.count;
    var h1 := h[page := Header(0, n, n, Head(FreshChain(s.g, page, n)))];
    var s1 := AddSlab(s, page);
    assert page !in s.full by {
      assert page in s.full ==> page in s.partial + s.full;
    }
    ListedFrame(h, h1, s.full);
    forall p | p in s1.chains
      ensures HeaderOk(h1, w, s.g, p, s1.chains[p])
    {
      if p != page {
        assert HeaderOk(h, w0, s.g, p, s.chains[p]);
        OtherChains(s, w0, w, page, p);
      }
    }
  }

  // Popping the first partial slab's chain, before the slab changes lists.
  lemma BackedPop(h: map<nat, Header>, w: map<nat, nat>, s: State)
    requires CanPop(s) && Backed(h, w, s)
    ensures var p := s.partial[0];
      var c := s.chains[p];
      && p in h && HeaderOk(h, w, s.g, p, c)
      && Backed(h[p := h[p].(freeList := NextOf(c, 0), freeCount := |c| - 1)], w, Shortened(s))
  {
    var p := s.partial[0];
    var c := s.chains[p];
    assert HeaderOk(h, w, s.g, p, c);
    ThreadedTail(w, c);
    forall x | x in s.chains
      ensures Linked(w, s.chains[x])
    {
      assert HeaderOk(h, w, s.g, x, s.chains[x]);
    }
    BackedReplaced(h, w, w, s, p, h[p].(freeList := NextOf(c, 0), freeCount := |c| - 1), c[1..]);
  }

  // Moving the slab at the head of one list to the front of the other one.
  lemma ListedPush(h: map<nat, Header>, q: seq<nat>, p: nat)
    requires Listed(h, q) && p in h && p !in q
    ensures Listed(h[p := h[p].(next := Head(q))], [p] + q)
  {
    var h1 := h[p := h[p].(next := Head(q))];
    var r := [p] + q;
    forall i | 0 <= i < |r|
      ensures r[i] in h1 && h1[r[i]].next == NextOf(r, i)
    {
      if i > 0 {
        assert r[i] == q[i - 1] && NextOf(r, i) == NextOf(q, i - 1);
        assert q[i - 1] in q;
      }
    }
  }

  ghost predicate ListsOk(s: State) {
    NoDup(s.partial) && 0 !in s.partial && forall x :: x in s.full ==> x !in s.partial
  }

  // The two steps of Pop: the chain gets shorter, and an empty one moves.
  ghost function Shortened(s: State): State
    requires s.partial != [] && s.partial[0] in s.chains && s.chains[s.partial[0]] != []
  {
    s.(chains := s.chains[s.partial[0] := s.chains[s.partial[0]][1..]])
  }

  ghost function Filled(s: State): State
    requires s.partial != []
  {
    s.(partial := s.partial[1..], full := [s.partial[0]] + s.full)
  }

  ghost predicate CanPop(s: State) {
    ListsOk(s) && s.partial != [] && s.partial[0] in s.chains && s.chains[s.partial[0]] != []
  }

  lemma PopReady(s: State)
    requires Inv(s) && s.partial != []
    ensures CanPop(s) && Inv(Pop(s).0)
  {
    PopFacts(s);
    HeadIsSlab(s);
    SplitNoDup(s.partial, s.full);
  }

  lemma AllocSteps(s: State, page: nat)
    requires Inv(s) && (page != 0 ==> page % PAGE == 0 && page !in s.chains)
    ensures s.partial != [] ==> CanPop(s) && s.partial[0] > 0
    ensures s.partial == [] && page != 0 ==> CanPop(AddSlab(s, page))
    ensures Inv(Alloc(s, page).0) && Alloc(s, page).0.g == s.g
  {
    if s.partial != [] {
      PopReady(s);
      PopFacts(s);
      HeadIsSlab(s);
    } else if page != 0 {
      AddSlabKeepsInv(s, page);
      PopReady(AddSlab(s, page));
      PopFacts(AddSlab(s, page));
    }
  }

  // Memory after Unlink, h1, and after the push on the full list.
  lemma FillMemory(h: map<nat, Header>, h1: map<nat, Header>, w: map<nat, nat>, s: State)
    requires Backed(h, w, s) && ListsOk(s) && s.partial != [] && s.partial[0] in h
    requires Listed(h1, s.partial[1..]) && OnlyNext(h, h1)
    requires forall p :: p in h1 && (p == s.partial[0] || p !in s.partial) ==> h1[p] == h[p]
    ensures Backed(h1[s.partial[0] := h1[s.partial[0]].(next := Head(s.full))], w, Filled(s))
  {
    hide HeaderOk, Linked;
    var p := s.partial[0];
    var h2 := h1[p := h1[p].(next := Head(s.full))];
    assert p !in s.full && p !in s.partial[1..];
    ListedFrame(h, h1, s.full);
    ListedPush(h1, s.full, p);
    ListedFrame(h1, h2, s.partial[1..]);
    BackedRelinked(h, h2, w, s, s.partial[1..], [p] + s.full);
  }

  // The steps of Free: the chain gets longer, then a slab may change lists.
  ghost function Pushed(s: State, a: nat): State
    requires SlabOf(a) in s.chains
  {
    s.(chains := s.chains[SlabOf(a) := [a] + s.chains[SlabOf(a)]])
  }

  ghost function Unfilled(s: State, p: nat): State {
    s.(full := Without(s.full, p), partial := [p] + s.partial)
  }

  ghost function Dropped(s: State, p: nat): State {
    s.(partial := Without(s.partial, p), chains := s.chains - {p})
  }

  ghost predicate CanUnfill(s: State, p: nat) {
    NoDup(s.full) && 0 !in s.full && p in s.full && forall x :: x in s.full ==> x !in s.partial
  }

  ghost predicate CanDrop(s: State, p: nat) {
    NoDup(s.partial) && 0 !in s.partial && p in s.partial && forall x :: x in s.full ==> x !in s.partial
  }

  // What slab_free can rely on, list by list.
  ghost predicate CanGiveBack(s: State, a: nat) {
    var p := SlabOf(a);
    p in s.chains &&
    var s1 := Pushed(s, a);
    if s.chains[p] == [] then CanUnfill(s1, p) && Free(s, a) == Unfilled(s1, p)
    else if |s1.chains[p]| == s.g.count then CanDrop(s1, p) && Free(s, a) == Dropped(s1, p)
    else Free(s, a) == s1
  }

  lemma FreeSteps(s: State, a: nat)
    requires Inv(s) && IsLive(s, a)
    ensures CanGiveBack(s, a) && Inv(Free(s, a)) && Free(s, a).g == s.g
  {
    var p := SlabOf(a);
    ConsOk(s, a);
    ChainBound(s.g, p, [a] + s.chains[p]);
    HeadIsSlab(s);
    SplitNoDup(s.partial, s.full);
    assert Pushed(s, a).chains - {p} == s.chains - {p};
    if s.chains[p] == [] {
      UnfillKeepsInv(s, a);
    } else {
      LengthenKeepsInv(s, a);
      if |s.chains[p]| + 1 == s.g.count {
        DropKeepsInv(s, p);
      }
    }
  }

  lemma BackedPush(h: map<nat, Header>, w: map<nat, nat>, s: State, a: nat)
    requires Inv(s) && Backed(h, w, s) && IsLive(s, a)
    ensures var p := SlabOf(a);
      && p in h && h[p].freeCount == |s.chains[p]| && h[p].total == s.g.count
      && Backed(h[p := h[p].(freeList := a, freeCount := h[p].freeCount + 1)], w[a := h[p].freeList], Pushed(s, a))
  {
    var p := SlabOf(a);
    var c := s.chains[p];
    assert HeaderOk(h, w, s.g, p, c);
    var w1 := w[a := Head(c)];
    forall x | x in s.chains
      ensures Linked(w1, s.chains[x])
    {
      assert HeaderOk(h, w, s.g, x, s.chains[x]);
      if a in s.chains[x] {
        ObjectInSlab(s.g, x, a);
      }
      LinkedFrame(w, w1, s.chains[x]);
    }
    ThreadedCons(w1, c, a);
    BackedReplaced(h, w, w1, s, p, h[p].(freeList := a, freeCount := h[p].freeCount + 1), [a] + c);
  }

  lemma ThreadedCons(w: map<nat, nat>, c: seq<nat>, a: nat)
    requires Linked(w, c) && a in w && w[a] == Head(c)
    ensures Linked(w, [a] + c)
  {
    var d := [a] + c;
    forall i | 0 <= i < |d|
      ensures d[i] in w && w[d[i]] == NextOf(d, i)
    {
      if i > 0 {
        assert d[i] == c[i - 1] && NextOf(d, i) == NextOf(c, i - 1);
      }
    }
  }

  lemma UnfillMemory(h: map<nat, Header>, h1: map<nat, Header>, w: map<nat, nat>, s: State, p: nat)
    requires Backed(h, w, s) && CanUnfill(s, p) && p in h
    requires Listed(h1, Without(s.full, p)) && OnlyNext(h, h1)
    requires forall x :: x in h1 && (x == p || x !in s.full) ==> h1[x] == h[x]
    ensures Backed(h1[p := h1[p].(next := Head(s.partial))], w, Unfilled(s, p))
  {
    hide HeaderOk, Linked, Without;
    var h2 := h1[p := h1[p].(next := Head(s.partial))];
    var f := Without(s.full, p);
    WithoutFacts(s.full, p);
    ListedFrame(h, h1, s.partial);
    ListedPush(h1, s.partial, p);
    ListedFrame(h1, h2, f);
    BackedRelinked(h, h2, w, s, [p] + s.partial, f);
  }

  // A page that is on no list can be taken away.
  lemma Unmapped(h: map<nat, Header>, w: map<nat, nat>, s: State, p: nat)
    requires Backed(h, w, s) && p !in s.partial && p !in s.full
    ensures Backed(h - {p}, w, s.(chains := s.chains - {p}))
  {
    ListedFrame(h, h - {p}, s.partial);
    ListedFrame(h, h - {p}, s.full);
    assert (h - {p}).Keys == (s.chains - {p}).Keys;
    forall x | x in s.chains - {p}
      ensures HeaderOk(h - {p}, w, s.g, x, (s.chains - {p})[x])
    {
      assert HeaderOk(h, w, s.g, x, s.chains[x]);
    }
  }
}
