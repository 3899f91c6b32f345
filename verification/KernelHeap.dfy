// The kernel heap as it runs, on block headers in memory:
// src/klibc/kmem/kheap.c
module KernelHeap {
  import opened Heap

  // block_header_t; addresses are numbers and 0 is NULL.
  datatype Header = Header(size: nat, free: bool, next: nat)

  type Memory = map<nat, Header>

  function NextAddr(blocks: seq<Block>, i: nat): nat {
    if i + 1 < |blocks| then blocks[i + 1].addr else 0
  }

  // Memory holds the header of every block, linked in list order.
  ghost predicate Linked(mem: Memory, blocks: seq<Block>) {
    forall i :: 0 <= i < |blocks| ==>
      blocks[i].addr in mem && mem[blocks[i].addr] == Header(blocks[i].size, blocks[i].free, NextAddr(blocks, i))
  }

  // The headers as init_kheap leaves them.
  function BootMemory(): Memory {
    map[HEAP_START := Header(PAGE - HEADER, true, 0)]
  }

  // Memory without the headers that have a byte from lo up to hi.
  function Without(mem: Memory, lo: nat, hi: nat): Memory {
    map a | a in mem && (hi <= lo || a + HEADER <= lo || hi <= a) :: mem[a]
  }

  // A header stored at a takes the place of those it overlaps.
  function Store(mem: Memory, a: nat, h: Header): Memory {
    Without(mem, a, a + HEADER)[a := h]
  }

  // vmm_map on k pages from base on: they get new frames, whatever they held.
  function Remapped(mem: Memory, base: nat, k: nat): Memory {
    Without(mem, base, base + k * PAGE)
  }

  // The stores of request_more_memory. It maps page by page before it knows
  // whether all pages can be had.
  function Requested(mem: Memory, base: nat, pages: nat, size: nat): Memory {
    var span := GrowthSpan(size);
    if size >= WORD - HEADER then mem
    else if pages < span / PAGE then Remapped(mem, base, pages)
    else Store(Remapped(mem, base, span / PAGE), base, Header((span + WORD - HEADER) % WORD, false, 0))
  }

  // Then kheap_alloc lets the last block it walked to name the new one; next is
  // the last word of a header, which may no longer be known as one.
  function Hooked(mem: Memory, last: nat, base: nat): Memory {
    if last in mem then mem[last := mem[last].(next := base)] else Without(mem, last + 16, last + HEADER)
  }

  // What kheap_alloc does to memory when no free block fits.
  function AfterGrowth(mem: Memory, s: State, size: nat): Memory
    requires s.blocks != []
  {
    var m := Requested(mem, s.top, s.pages, size);
    if Grow(s, size).1 == 0 then m else Hooked(m, s.blocks[|s.blocks| - 1].addr, s.top)
  }

  // One turn of the walk of kheap_alloc: it returns a block, or gives up at the
  // last one, or goes on.
  datatype FindTurn = Hit | Miss | Next(current: nat)

  function FindAt(mem: Memory, current: nat, size: nat): FindTurn
    requires current in mem
  {
    if mem[current].free && mem[current].size >= size then Hit
    else if mem[current].next == 0 then Miss
    else Next(mem[current].next)
  }

  // One turn of the loop of kheap_free: the headers and the block it stands at.
  function MergeAt(mem: Memory, current: nat): (Memory, nat)
    requires current in mem && (mem[current].next != 0 ==> mem[current].next in mem)
  {
    var h := mem[current];
    if h.free && h.next != 0 && mem[h.next].free then
      var m := mem[current := h.(size := h.size + HEADER + mem[h.next].size)];
      (m[current := m[current].(next := m[h.next].next)], current)
    else (mem, h.next)
  }

  class KernelHeap {
    var mem: Memory
    var freeList: nat       // free_list
    var heapCurrent: nat    // heap_current
    var pages: nat          // pages pmm_alloc_page can still hand out
    ghost var blocks: seq<Block>

    ghost function Abs(): State
      reads this
    {
      State(blocks, heapCurrent, pages)
    }

    // Memory describes a sound list. heap_current lies at a page, but need not be
    // the end of the list.
    ghost predicate Valid()
      reads this
    {
      Sound(Abs()) && Linked(mem, blocks) && freeList == HEAP_START && heapCurrent % PAGE == 0
    }

    // init_kheap; without a page free_list stays NULL. heap_current is not
    // advanced past the page.
    constructor (available: nat)
      ensures heapCurrent == HEAP_START
      ensures available == 0 ==> freeList == 0 && mem == map[]
      ensures available > 0 ==> Valid() && Abs() == AfterInit(available - 1) && mem == BootMemory()
    {
      heapCurrent := HEAP_START;
      if available > 0 {
        pages := available - 1;
        freeList := HEAP_START;
        mem := map[HEAP_START := Header(PAGE - HEADER, true, 0)];
        blocks := AfterInit(available - 1).blocks;
        AfterInitSound(available - 1);
      } else {
        pages, freeList, mem, blocks := 0, 0, map[], [];
      }
    }

    // split_block on block i, before kheap_alloc marks the block used.
    method SplitBlock(block: nat, size: nat, ghost i: nat)
      requires Valid() && i < |blocks| && blocks[i].addr == block
      requires blocks[i].free && blocks[i].size >= size && size % 8 == 0
      modifies `mem, `blocks
      ensures Linked(mem, blocks) && blocks == Split(old(blocks), i, size)
    {
      hide Tiled, SizesAligned, Linked;
      SizeFits(Abs(), i);
      HeaderOf(mem, blocks, End(blocks), i);
      if mem[block].size <= size + HEADER {
        assert blocks == blocks[..i] + [blocks[i]] + blocks[i + 1..];
        return;
      }
      LinkSplit(mem, blocks, End(blocks), i, size);
      var newBlock := block + HEADER + size;
      mem := Store(mem, newBlock, Header(mem[block].size - size - HEADER, true, mem[block].next));
      mem := mem[block := mem[block].(size := size, next := newBlock)];
      blocks := Split(blocks, i, size);
    }

    // request_more_memory, whatever heap_current is; the new block is not linked
    // to the list.
    method RequestMoreMemory(size: nat) returns (ptr: nat)
      requires size < WORD && heapCurrent % PAGE == 0
      modifies `mem, `heapCurrent, `pages
      ensures var (s1, p) := Grow(old(Abs()), size);
        ptr == p && heapCurrent == s1.top && pages == s1.pages && heapCurrent % PAGE == 0
      ensures mem == Requested(old(mem), old(heapCurrent), old(pages), size)
    {
      hide Without, Store;
      if size > WORD - 1 - HEADER {
        return 0;
      }
      var totalSize := (size + HEADER + (PAGE - 1)) % WORD / PAGE * PAGE;
      WholePages(size);
      var allocBase := heapCurrent;
      var offset := 0;
      ghost var k := 0;
      RemapNone(mem, allocBase);
      while offset < totalSize
        invariant offset == k * PAGE && k <= totalSize / PAGE
        invariant pages == old(pages) - k && mem == Remapped(old(mem), allocBase, k)
        invariant unchanged(`heapCurrent)
      {
        if pages == 0 {
          return 0;
        }
        pages := pages - 1;
        RemapNext(old(mem), allocBase, k);
        mem := Remapped(mem, allocBase + offset, 1);
        k := k + 1;
        offset := offset + PAGE;
      }
      heapCurrent := heapCurrent + totalSize;
      mem := Store(mem, allocBase, Header((totalSize + WORD - HEADER) % WORD, false, 0));
      return allocBase + HEADER;
    }

    // The first-fit hit of kheap_alloc: split, then mark used.
    method TakeBlock(current: nat, size: nat, ghost i: nat)
      requires Valid() && i < |blocks| && blocks[i].addr == current
      requires blocks[i].free && blocks[i].size >= size && size % 8 == 0
      modifies `mem, `blocks
      ensures Valid()
      ensures (Abs(), current + HEADER) == TakeAt(old(Abs()), i, size)
    {
      FitKeepsSound(Abs(), size, i);
      SplitTiled(blocks, End(blocks), i, size);
      MarkSplit(blocks, i, size);
      SplitBlock(current, size, i);
      LinkMark(mem, blocks, End(old(blocks)), i, false);
      mem := mem[current := mem[current].(free := false)];
      blocks := blocks[i := blocks[i].(free := false)];
    }

    // The miss of kheap_alloc: grow and hook the new block to the last one. What
    // memory describes then, GrowthFollows and GrowthRestarts say.
    method AppendBlock(current: nat, size: nat) returns (ptr: nat)
      requires Valid() && size < WORD && current == blocks[|blocks| - 1].addr
      modifies `mem, `heapCurrent, `pages, `blocks
      ensures var (s1, p) := Grow(old(Abs()), size);
        ptr == p && heapCurrent == s1.top && pages == s1.pages && heapCurrent % PAGE == 0
      ensures mem == AfterGrowth(old(mem), old(Abs()), size)
      ensures Follows(old(Abs()), size) ==> Linked(mem, blocks) && Abs() == Grow(old(Abs()), size).0
      ensures Restarts(old(Abs()), size) ==>
        Linked(mem, blocks) && Abs() == Restarted(old(Abs()), GrowthSpan(size) / PAGE)
    {
      hide Sound, Tiled, Linked, Without, Store, Hooked, Requested;
      ghost var s := Abs();
      ghost var m := mem;
      ptr := RequestMoreMemory(size);
      if ptr != 0 {
        mem := Hooked(mem, current, ptr - HEADER);
      }
      if Follows(s, size) {
        GrowthFollows(m, s, size);
        blocks := Grow(s, size).0.blocks;
      } else if Restarts(s, size) {
        GrowthRestarts(m, s, size);
        blocks := Restarted(s, GrowthSpan(size) / PAGE).blocks;
      }
    }

    // The walk of kheap_alloc: to the first free block that is large enough,
    // otherwise to the last block.
    method FindBlock(size: nat) returns (current: nat, fits: bool, ghost i: nat)
      requires Valid()
      ensures i < |blocks| && current == blocks[i].addr
      ensures fits <==> FirstFit(blocks, size) < |blocks|
      ensures i == if fits then FirstFit(blocks, size) else |blocks| - 1
    {
      current := freeList;
      i := 0;
      while true
        invariant i < |blocks| && current == blocks[i].addr
        invariant FirstFit(blocks, size) == i + FirstFit(blocks[i..], size)
        decreases |blocks| - i
      {
        HeaderOf(mem, blocks, End(blocks), i);
        FirstFitStep(blocks, i, size);
        if mem[current].free && mem[current].size >= size {
          return current, true, i;
        }
        if mem[current].next == 0 {
          return current, false, i;
        }
        assert FindAt(mem, current, size) == Next(mem[current].next);
        current := mem[current].next;
        i := i + 1;
      }
    }

    // kheap_alloc, for every size and every heap_current: what Alloc says, unless
    // it comes to map a page while heap_current is not the end of the last block.
    method KheapAlloc(request: nat) returns (ptr: nat)
      requires Valid() && request < WORD
      modifies this
      ensures freeList == old(freeList) && ptr == Alloc(old(Abs()), request).1
      ensures heapCurrent == Alloc(old(Abs()), request).0.top && pages == Alloc(old(Abs()), request).0.pages
      ensures AllocFollows(old(Abs()), request) ==> Linked(mem, blocks) && Abs() == Alloc(old(Abs()), request).0
      ensures AllocKeeps(old(Abs()), request) ==> Valid()
      ensures !AllocFollows(old(Abs()), request) ==> mem == AfterGrowth(old(mem), old(Abs()), RoundUp16(request))
      ensures AllocRestarts(old(Abs()), request) ==>
        Valid() && Abs() == Restarted(old(Abs()), GrowthSpan(RoundUp16(request)) / PAGE)
    {
      hide Sound, Linked, Alloc, Grows;
      if request == 0 {
        ZeroRequest(Abs());
        return 0;
      }
      ptr := Serve(request);
    }

    // kheap_alloc for a nonzero size.
    method Serve(request: nat) returns (ptr: nat)
      requires Valid() && 0 < request < WORD
      modifies this
      ensures freeList == old(freeList) && ptr == Alloc(old(Abs()), request).1
      ensures heapCurrent == Alloc(old(Abs()), request).0.top && pages == Alloc(old(Abs()), request).0.pages
      ensures AllocFollows(old(Abs()), request) ==> Linked(mem, blocks) && Abs() == Alloc(old(Abs()), request).0
      ensures AllocKeeps(old(Abs()), request) ==> Valid()
      ensures !AllocFollows(old(Abs()), request) ==> mem == AfterGrowth(old(mem), old(Abs()), RoundUp16(request))
      ensures AllocRestarts(old(Abs()), request) ==>
        Valid() && Abs() == Restarted(old(Abs()), GrowthSpan(RoundUp16(request)) / PAGE)
    {
      hide Sound, Linked, FirstFit, Alloc, Grow, TakeAt, RoundUp16, GrowthSpan, AfterGrowth, Follows, Restarts;
      hide AllocFollows, AllocKeeps, AllocRestarts;
      ghost var s := Abs();
      AllocCases(s, request);
      var size := RoundUp16(request);
      ghost var i;
      var current, fits;
      current, fits, i := FindBlock(size);
      if fits {
        TakeBlock(current, size, i);
        return current + HEADER;
      }
      ptr := AppendBlock(current, size);
      if AllocRestarts(s, request) {
        RestartSound(s, request);
      }
    }

    // kheap_free
    method KheapFree(ptr: nat)
      requires Valid() && (ptr == 0 || IsPayload(blocks, ptr))
      modifies this
      ensures ptr == 0 ==> unchanged(this)
      ensures Valid() && Abs() == Free(old(Abs()), ptr)
    {
      if ptr != 0 {
        Release(ptr);
      }
    }

    // kheap_free on the address of an object.
    method Release(ptr: nat)
      requires Valid() && ptr != 0 && IsPayload(blocks, ptr)
      modifies this
      ensures Valid() && Abs() == Free(old(Abs()), ptr)
    {
      hide Tiled, SizesAligned, Linked, Coalesce, MarkFree;
      ghost var k :| 0 <= k < |blocks| && blocks[k].addr + HEADER == ptr;
      HeaderOf(mem, blocks, End(blocks), k);
      MarkFreeFacts(Abs(), ptr, k);
      SoundWith(Abs(), MarkFree(blocks, ptr));
      LinkMark(mem, blocks, End(blocks), k, true);
      mem := FreeMark(mem, ptr - HEADER);
      blocks := MarkFree(blocks, ptr);
      MergePass();
    }

    // One turn of the loop of kheap_free: block i swallows a free neighbour, or
    // the loop goes on to the next block.
    method TakeTurn(current: nat, ghost i: nat) returns (at: nat)
      requires Valid() && i < |blocks| && current == AddrAt(blocks, i)
      modifies `mem, `blocks
      ensures Valid() && (mem, at) == MergeAt(old(mem), current)
      ensures if MergesAt(old(blocks), i)
              then blocks == Merge(old(blocks), i) && at == AddrAt(blocks, i)
              else blocks == old(blocks) && at == AddrAt(blocks, i + 1)
    {
      hide Sound, Linked, Merge;
      ghost var s := Abs();
      TurnIs(s, mem, i);
      if mem[current].free && mem[current].next != 0 && mem[mem[current].next].free {
        mem := mem[current := mem[current].(size := mem[current].size + HEADER + mem[mem[current].next].size)];
        mem := mem[current := mem[current].(next := mem[mem[current].next].next)];
        at := current;
      } else {
        at := mem[current].next;
      }
      if MergesAt(s.blocks, i) {
        MergeKeepsSound(s, i);
        blocks := Merge(blocks, i);
      }
    }

    // The loop of kheap_free.
    method MergePass()
      requires Valid()
      modifies `mem, `blocks
      ensures Valid() && blocks == Coalesce(old(blocks))
    {
      hide Sound, Linked, Coalesce, MergeAt, Merge;
      var current := freeList;
      ghost var i := 0;
      PassStarts(Abs());
      while current != 0
        invariant Valid() && i <= |blocks| && current == AddrAt(blocks, i)
        invariant Coalesce(old(blocks)) == blocks[..i] + Coalesce(blocks[i..])
        decreases |blocks| - i
      {
        CoalesceStep(blocks, i);
        ghost var merges := MergesAt(blocks, i);
        current := TakeTurn(current, i);
        if !merges {
          i := i + 1;
        }
      }
      PassEnds(Abs(), i);
    }
  }

  // Block i and the next one are both free.
  ghost predicate MergesAt(blocks: seq<Block>, i: nat) {
    i + 1 < |blocks| && blocks[i].free && blocks[i + 1].free
  }

  function AddrAt(blocks: seq<Block>, i: nat): nat {
    if i < |blocks| then blocks[i].addr else 0
  }

  lemma PassStarts(s: State)
    requires Sound(s)
    ensures s.blocks[..0] + Coalesce(s.blocks[0..]) == Coalesce(s.blocks) && AddrAt(s.blocks, 0) == HEAP_START
  {
    assert s.blocks[0..] == s.blocks;
  }

  lemma PassEnds(s: State, i: nat)
    requires Sound(s) && i <= |s.blocks| && AddrAt(s.blocks, i) == 0
    ensures i == |s.blocks| && s.blocks[..i] + Coalesce(s.blocks[i..]) == s.blocks
  {
    if i < |s.blocks| {
      SizeFits(s, i);
    }
    assert s.blocks[i..] == [];
  }

  // What a turn of the loop does at block i.
  lemma TurnIs(s: State, mem: Memory, i: nat)
    requires Sound(s) && Linked(mem, s.blocks) && i < |s.blocks|
    ensures var a := s.blocks[i].addr;
      && a in mem && (mem[a].next != 0 ==> mem[a].next in mem)
      && var (m, at) := MergeAt(mem, a);
         if MergesAt(s.blocks, i)
         then Linked(m, Merge(s.blocks, i)) && at == AddrAt(Merge(s.blocks, i), i)
         else m == mem && at == AddrAt(s.blocks, i + 1)
  {
    HeaderOf(mem, s.blocks, End(s.blocks), i);
    if MergesAt(s.blocks, i) {
      LinkMerge(mem, s.blocks, End(s.blocks), i);
    }
  }

  // What a pointer to block i shows.
  lemma HeaderOf(mem: Memory, blocks: seq<Block>, top: nat, i: nat)
    requires Linked(mem, blocks) && Tiled(blocks, HEAP_START, top) && i < |blocks|
    ensures blocks[i].addr in mem && blocks[i].addr != 0
    ensures mem[blocks[i].addr] == Header(blocks[i].size, blocks[i].free, NextAddr(blocks, i))
    ensures NextAddr(blocks, i) != 0 <==> i + 1 < |blocks|
    ensures i + 1 < |blocks| ==> blocks[i + 1].addr in mem
    ensures i + 1 < |blocks| ==> mem[blocks[i + 1].addr].free == blocks[i + 1].free
  {
    TiledInside(blocks, HEAP_START, top, i);
    if i + 1 < |blocks| {
      TiledInside(blocks, HEAP_START, top, i + 1);
    }
  }

  lemma CoalesceStep(blocks: seq<Block>, i: nat)
    requires i < |blocks|
    ensures if MergesAt(blocks, i)
            then |Merge(blocks, i)| == |blocks| - 1 &&
                 blocks[..i] + Coalesce(blocks[i..]) == Merge(blocks, i)[..i] + Coalesce(Merge(blocks, i)[i..])
            else blocks[..i] + Coalesce(blocks[i..]) == blocks[..i + 1] + Coalesce(blocks[i + 1..])
  {
    var rest := blocks[i..];
    assert rest[1..] == blocks[i + 1..];
    if MergesAt(blocks, i) {
      var m := Merge(blocks, i);
      assert m[i..] == [m[i]] + rest[2..];
      assert m[..i] == blocks[..i];
    } else {
      assert blocks[..i + 1] == blocks[..i] + [blocks[i]];
      assert Coalesce(rest) == [blocks[i]] + Coalesce(rest[1..]);
    }
  }

  // request_more_memory refuses the size, or there is no page for it.
  ghost predicate Refuses(s: State, size: nat) {
    size >= WORD - HEADER || (s.pages == 0 && GrowthSpan(size) > 0)
  }

  // Growth of this size extends the list, or does nothing.
  ghost predicate Follows(s: State, size: nat) {
    s.top == End(s.blocks) || Refuses(s, size)
  }

  // Growth of this size maps the first page again, which holds all of several
  // blocks; there is room for it in the address space.
  ghost predicate Restarts(s: State, size: nat) {
    && s.top == HEAP_START && |s.blocks| > 1 && End(s.blocks) <= HEAP_START + PAGE && Grow(s, size).1 != 0
    && GrowthSpan(size) > 0 && HEAP_START + s.pages * PAGE <= WORD
  }

  // kheap_alloc does what Alloc says: it does not come to map a page, or
  // heap_current is the end of the last block.
  ghost predicate AllocFollows(s: State, request: nat) {
    !Grows(s, request) || s.top == End(s.blocks)
  }

  // And what it leaves is sound.
  ghost predicate AllocKeeps(s: State, request: nat) {
    AllocFollows(s, request) && request <= LIMIT && (!Grows(s, request) || Inv(s))
  }

  ghost predicate AllocRestarts(s: State, request: nat) {
    Grows(s, request) && Restarts(s, RoundUp16(request))
  }

  lemma ZeroRequest(s: State)
    ensures Alloc(s, 0) == (s, 0) && !Grows(s, 0)
  {
  }

  lemma AllocCases(s: State, size: nat)
    requires Sound(s) && 0 < size < WORD
    ensures var n := RoundUp16(size);
      var i := FirstFit(s.blocks, n);
      && n % 8 == 0 && n < WORD
      && (i == |s.blocks| ==> Alloc(s, size) == Grow(s, n))
      && (i < |s.blocks| ==> Alloc(s, size) == TakeAt(s, i, n) && AllocFollows(s, size) && !AllocRestarts(s, size))
      && (i == |s.blocks| ==> (AllocFollows(s, size) <==> Follows(s, n)))
      && (i == |s.blocks| ==> (AllocRestarts(s, size) ==> Restarts(s, n)))
      && (AllocKeeps(s, size) ==> AllocFollows(s, size) && Sound(Alloc(s, size).0))
  {
    hide Sound, Inv, Served, TakeAt, FirstFit, End;
    Roundings(size);
    if AllocKeeps(s, size) {
      KeepsSound(s, size);
    }
  }

  lemma KeepsSound(s: State, size: nat)
    requires Sound(s) && 0 < size < WORD && AllocKeeps(s, size)
    ensures Sound(Alloc(s, size).0)
  {
    hide Sound, Inv, Served, Alloc, Grows, RoundUp16;
    if FirstFit(s.blocks, RoundUp16(size)) < |s.blocks| || Inv(s) {
      AllocServes(s, size);
      if Alloc(s, size).1 != 0 {
        ServedSound(s, size);
      }
    } else {
      NothingHappens(s, size);
    }
  }

  lemma RestartSound(s: State, request: nat)
    requires AllocRestarts(s, request)
    ensures var k := GrowthSpan(RoundUp16(request)) / PAGE;
      0 < k <= s.pages && Sound(Restarted(s, k))
  {
    hide Sound, Inv, End;
    WholePages(RoundUp16(request));
    var k := GrowthSpan(RoundUp16(request)) / PAGE;
    RestartedInv(s, k);
    InvSound(Restarted(s, k));
  }

  lemma ServedSound(s: State, size: nat)
    requires Served(s, Alloc(s, size).0, size, Alloc(s, size).1)
    ensures Sound(Alloc(s, size).0)
  {
  }

  lemma LastHeader(mem: Memory, blocks: seq<Block>)
    requires Linked(mem, blocks) && blocks != []
    ensures blocks[|blocks| - 1].addr in mem
  {
  }

  lemma MarkSplit(blocks: seq<Block>, i: nat, size: nat)
    requires i < |blocks| && blocks[i].free && blocks[i].size >= size
    ensures var r := Split(blocks, i, size);
      && i < |r| && r[i].addr == blocks[i].addr
      && r[i := r[i].(free := false)] == blocks[..i] + Carve(blocks[i], size) + blocks[i + 1..]
  {
  }

  lemma FirstFitStep(blocks: seq<Block>, i: nat, size: nat)
    requires i < |blocks|
    ensures FirstFit(blocks[i..], size) ==
            if blocks[i].free && blocks[i].size >= size then 0 else 1 + FirstFit(blocks[i + 1..], size)
    ensures FirstFit(blocks[|blocks|..], size) == 0
  {
    assert blocks[i..][1..] == blocks[i + 1..];
  }

  lemma SplitTiled(blocks: seq<Block>, top: nat, i: nat, size: nat)
    requires Tiled(blocks, HEAP_START, top) && i < |blocks| && blocks[i].size >= size
    ensures Tiled(Split(blocks, i, size), HEAP_START, top)
  {
    var mid := Carve(blocks[i], size);
    CarveTiled(blocks[i], size);
    var mid' := mid[0 := mid[0].(free := blocks[i].free)];
    assert mid'[1..] == mid[1..];
    ReplaceTiled(blocks, HEAP_START, top, i, mid');
  }

  // Block i swallows block i + 1.
  ghost function Merge(blocks: seq<Block>, i: nat): seq<Block>
    requires i + 1 < |blocks|
  {
    blocks[..i] + [Block(blocks[i].addr, blocks[i].size + HEADER + blocks[i + 1].size, true)] + blocks[i + 2..]
  }

  lemma MergeKeepsSound(s: State, i: nat)
    requires Sound(s) && i + 1 < |s.blocks|
    ensures Sound(s.(blocks := Merge(s.blocks, i)))
  {
    MergeTiled(s.blocks, End(s.blocks), i);
    MergeAligned(s.blocks, i);
    SoundWith(s, Merge(s.blocks, i));
  }

  lemma MergeAligned(blocks: seq<Block>, i: nat)
    requires SizesAligned(blocks) && i + 1 < |blocks|
    ensures SizesAligned(Merge(blocks, i))
  {
    var m := Block(blocks[i].addr, blocks[i].size + HEADER + blocks[i + 1].size, true);
    assert blocks[i] in blocks && blocks[i + 1] in blocks;
    forall c | c in Merge(blocks, i)
      ensures c.size % 8 == 0
    {
      assert c in blocks || c == m;
    }
  }

  lemma MergeTiled(blocks: seq<Block>, top: nat, i: nat)
    requires Tiled(blocks, HEAP_START, top) && i + 1 < |blocks|
    ensures Tiled(Merge(blocks, i), HEAP_START, top)
  {
    hide Span;
    var m := Block(blocks[i].addr, blocks[i].size + HEADER + blocks[i + 1].size, true);
    var tail := [m] + blocks[i + 2..];
    TiledInside(blocks, HEAP_START, top, i);
    assert blocks[i..][1..][1..] == blocks[i + 2..] && tail[1..] == blocks[i + 2..];
    assert Tiled(tail, blocks[i].addr, top);
    hide Tiled;
    TiledSpan(blocks[..i], HEAP_START, blocks[i].addr);
    TiledConcat(blocks[..i], tail, HEAP_START, top);
    assert Merge(blocks, i) == blocks[..i] + tail;
  }

  lemma LinkMerge(mem: Memory, blocks: seq<Block>, top: nat, i: nat)
    requires Linked(mem, blocks) && Tiled(blocks, HEAP_START, top) && i + 1 < |blocks|
    requires blocks[i].free
    ensures var a, next := blocks[i].addr, blocks[i + 1].addr;
      var mem1 := mem[a := mem[a].(size := mem[a].size + HEADER + mem[next].size)];
      a != next && Linked(mem1[a := mem1[a].(next := mem1[next].next)], Merge(blocks, i))
  {
    var b, c := blocks[i], blocks[i + 1];
    var mem1 := mem[b.addr := Header(b.size + HEADER + c.size, true, mem[c.addr].next)];
    var r := Merge(blocks, i);
    DistinctAddresses(blocks, HEAP_START, top, i, i + 1);
    assert |r| == |blocks| - 1 && r[i].addr == b.addr;
    forall j | 0 <= j < |r|
      ensures r[j].addr in mem1 && mem1[r[j].addr] == Header(r[j].size, r[j].free, NextAddr(r, j))
    {
      if j < i {
        assert r[j] == blocks[j];
        DistinctAddresses(blocks, HEAP_START, top, j, i);
        assert NextAddr(r, j) == NextAddr(blocks, j);
      } else if j > i {
        assert r[j] == blocks[j + 1];
        DistinctAddresses(blocks, HEAP_START, top, j + 1, i);
        assert NextAddr(r, j) == NextAddr(blocks, j + 1);
      } else {
        assert NextAddr(r, j) == NextAddr(blocks, j + 1);
      }
    }
  }

  lemma LinkMark(mem: Memory, blocks: seq<Block>, top: nat, i: nat, free: bool)
    requires Linked(mem, blocks) && Tiled(blocks, HEAP_START, top) && i < |blocks|
    ensures Linked(mem[blocks[i].addr := mem[blocks[i].addr].(free := free)], blocks[i := blocks[i].(free := free)])
  {
    var mem1 := mem[blocks[i].addr := mem[blocks[i].addr].(free := free)];
    var r := blocks[i := blocks[i].(free := free)];
    forall j | 0 <= j < |r|
      ensures r[j].addr in mem1 && mem1[r[j].addr] == Header(r[j].size, r[j].free, NextAddr(r, j))
    {
      assert NextAddr(r, j) == NextAddr(blocks, j);
      if j != i {
        DistinctAddresses(blocks, HEAP_START, top, i, j);
      }
    }
  }

  lemma LinkAppend(mem: Memory, blocks: seq<Block>, top: nat, b: Block)
    requires Linked(mem, blocks) && Tiled(blocks, HEAP_START, top) && blocks != []
    requires b.addr == top && !b.free
    ensures var last := blocks[|blocks| - 1].addr;
      Linked(Hooked(Store(mem, b.addr, Header(b.size, false, 0)), last, b.addr), blocks + [b])
  {
    var last := blocks[|blocks| - 1].addr;
    BelowTop(mem, blocks, top, top + HEADER);
    var mem1 := Store(mem, b.addr, Header(b.size, false, 0));
    TiledInside(blocks, HEAP_START, top, |blocks| - 1);
    hide Without;
    var mem2 := Hooked(mem1, last, b.addr);
    var r := blocks + [b];
    forall j | 0 <= j < |r|
      ensures r[j].addr in mem2 && mem2[r[j].addr] == Header(r[j].size, r[j].free, NextAddr(r, j))
    {
      if j < |blocks| {
        TiledInside(blocks, HEAP_START, top, j);
        if j + 1 < |blocks| {
          DistinctAddresses(blocks, HEAP_START, top, j, |blocks| - 1);
        }
      }
    }
  }

  // Headers without a byte in lo..hi stay.
  lemma WithoutKeeps(mem: Memory, blocks: seq<Block>, lo: nat, hi: nat)
    requires Linked(mem, blocks)
    requires forall i :: 0 <= i < |blocks| ==> blocks[i].addr + HEADER <= lo || hi <= blocks[i].addr
    ensures Linked(Without(mem, lo, hi), blocks)
  {
  }

  lemma BelowTop(mem: Memory, blocks: seq<Block>, top: nat, hi: nat)
    requires Linked(mem, blocks) && Tiled(blocks, HEAP_START, top)
    ensures Linked(Without(mem, top, hi), blocks)
  {
    forall i | 0 <= i < |blocks|
      ensures blocks[i].addr + HEADER <= top
    {
      TiledInside(blocks, HEAP_START, top, i);
    }
    WithoutKeeps(mem, blocks, top, hi);
  }

  lemma RemapNone(mem: Memory, base: nat)
    ensures Remapped(mem, base, 0) == mem
  {
  }

  lemma RemapNext(mem: Memory, base: nat, k: nat)
    ensures Remapped(Remapped(mem, base, k), base + k * PAGE, 1) == Remapped(mem, base, k + 1)
  {
    WithoutBoth(mem, base, base + k * PAGE, base + k * PAGE + PAGE);
  }

  lemma WithoutBoth(mem: Memory, lo: nat, mid: nat, hi: nat)
    requires lo <= mid <= hi
    ensures Without(Without(mem, lo, mid), mid, hi) == Without(mem, lo, hi)
  {
  }

  // The list after split_block: the carved block is still free.
  ghost function Split(blocks: seq<Block>, i: nat, size: nat): seq<Block>
    requires i < |blocks| && blocks[i].size >= size
  {
    var mid := Carve(blocks[i], size);
    blocks[..i] + mid[0 := mid[0].(free := blocks[i].free)] + blocks[i + 1..]
  }

  lemma LinkSplit(mem: Memory, blocks: seq<Block>, top: nat, i: nat, size: nat)
    requires Linked(mem, blocks) && Tiled(blocks, HEAP_START, top) && i < |blocks|
    requires blocks[i].free && size + HEADER < blocks[i].size
    ensures var b := blocks[i];
      var addr := b.addr + HEADER + size;
      var mem1 := Store(mem, addr, Header(b.size - size - HEADER, true, mem[b.addr].next));
      b.addr in mem1 && Linked(mem1[b.addr := Header(size, true, addr)], Split(blocks, i, size))
  {
    var b := blocks[i];
    var addr := b.addr + HEADER + size;
    NoHeaderInside(blocks, HEAP_START, top, i, addr, addr + HEADER);
    WithoutKeeps(mem, blocks, addr, addr + HEADER);
    var mem1 := Store(mem, addr, Header(b.size - size - HEADER, true, mem[b.addr].next));
    var mem2 := mem1[b.addr := Header(size, true, addr)];
    var r := Split(blocks, i, size);
    assert |r| == |blocks| + 1 && r[i] == Block(b.addr, size, true);
    assert r[i + 1] == Block(addr, b.size - size - HEADER, true) && NextAddr(r, i + 1) == NextAddr(blocks, i);
    hide Without, Split, Carve;
    forall j | 0 <= j < |r|
      ensures r[j].addr in mem2 && mem2[r[j].addr] == Header(r[j].size, r[j].free, NextAddr(r, j))
    {
      if j < i {
        assert r[j] == blocks[j];
        DistinctAddresses(blocks, HEAP_START, top, j, i);
        assert NextAddr(r, j) == NextAddr(blocks, j);
      } else if j > i + 1 {
        assert r[j] == blocks[j - 1];
        DistinctAddresses(blocks, HEAP_START, top, j - 1, i);
        assert NextAddr(r, j) == NextAddr(blocks, j - 1);
      }
    }
  }

  lemma DistinctAddresses(blocks: seq<Block>, start: nat, top: nat, i: nat, j: nat)
    requires Tiled(blocks, start, top) && i < |blocks| && j < |blocks| && i != j
    ensures blocks[i].addr != blocks[j].addr
  {
    if blocks[i].addr == blocks[j].addr {
      SameAddressSameBlock(blocks, start, top, i, j);
    }
  }

  // No header has a byte in the payload of a block.
  lemma NoHeaderInside(blocks: seq<Block>, start: nat, top: nat, i: nat, lo: nat, hi: nat)
    requires Tiled(blocks, start, top) && i < |blocks|
    requires blocks[i].addr + HEADER <= lo < hi <= blocks[i].addr + HEADER + blocks[i].size
    ensures forall j :: 0 <= j < |blocks| ==> blocks[j].addr + HEADER <= lo || hi <= blocks[j].addr
  {
    forall j | 0 <= j < |blocks|
      ensures blocks[j].addr + HEADER <= lo || hi <= blocks[j].addr
    {
      if j < i {
        BlocksDisjoint(blocks, start, top, j, i);
      } else if i < j {
        BlocksDisjoint(blocks, start, top, i, j);
      }
    }
  }

  // ----- growth

  // Growth from the end of the list, and growth that is refused or finds no page,
  // leaves memory that describes what Grow says.
  lemma GrowthFollows(mem: Memory, s: State, size: nat)
    requires Sound(s) && Linked(mem, s.blocks) && Follows(s, size)
    ensures Linked(AfterGrowth(mem, s, size), Grow(s, size).0.blocks)
  {
    hide Tiled, Linked, Hooked, Store, Without;
    WholePages(size);
    if Refuses(s, size) {
      RemapNone(mem, s.top);
    } else {
      var k := NewFrames(s, size);
      BelowTop(mem, s.blocks, s.top, s.top + k * PAGE);
      if Grow(s, size).1 != 0 {
        LinkAppend(Remapped(mem, s.top, k), s.blocks, s.top, Grow(s, size).0.blocks[|s.blocks|]);
      }
    }
  }

  // How many pages request_more_memory maps, whether it then succeeds or not.
  function NewFrames(s: State, size: nat): nat {
    var k := GrowthSpan(size) / PAGE;
    if size >= WORD - HEADER then 0 else if s.pages < k then s.pages else k
  }

  // Memory links a tiled list that ends at top and still has the given blocks.
  ghost predicate Describes(mem: Memory, blocks: seq<Block>, top: nat) {
    exists r :: Linked(mem, r) && Tiled(r, HEAP_START, top) && Has(r, blocks)
  }

  ghost predicate Has(r: seq<Block>, blocks: seq<Block>) {
    forall b :: b in blocks ==> b in r
  }

  // After a growth that returns a pointer, memory still describes the old blocks in
  // a list that ends at the new heap_current if and only if the old heap_current
  // was the end of the last block.
  lemma GrowthNeedsTop(mem: Memory, s: State, size: nat)
    requires Sound(s) && Linked(mem, s.blocks) && s.top > 0 && s.top % PAGE == 0
    requires Grow(s, size).1 != 0 && GrowthSpan(size) > 0
    ensures Describes(AfterGrowth(mem, s, size), s.blocks, Grow(s, size).0.top) <==> s.top == End(s.blocks)
  {
    hide Tiled, Sound, Linked, AfterGrowth, GrowthSpan;
    if s.top == End(s.blocks) {
      GrowthFollows(mem, s, size);
      GrowthTiles(s, size);
    } else {
      GrowthLeads(mem, s, size, Grow(s, size).0.top);
    }
  }

  lemma GrowthTiles(s: State, size: nat)
    requires Sound(s) && s.top == End(s.blocks) && Grow(s, size).1 != 0 && GrowthSpan(size) > 0
    ensures var r := Grow(s, size).0;
      Tiled(r.blocks, HEAP_START, r.top) && Has(r.blocks, s.blocks)
  {
    WholePages(size);
    var span := GrowthSpan(size);
    AppendTiled(s.blocks, span);
    assert (span + WORD - HEADER) % WORD == span - HEADER;
  }

  // The last header is gone or names heap_current, so no list goes on past it.
  lemma GrowthLeads(mem: Memory, s: State, size: nat, top: nat)
    requires Sound(s) && Linked(mem, s.blocks) && 0 < s.top != End(s.blocks) && Grow(s, size).1 != 0
    ensures !Describes(AfterGrowth(mem, s, size), s.blocks, top)
  {
    var last := s.blocks[|s.blocks| - 1];
    var m := AfterGrowth(mem, s, size);
    LastEnds(s);
    hide Sound, Tiled, End, Requested;
    if Describes(m, s.blocks, top) {
      var r: seq<Block> :| Linked(m, r) && Tiled(r, HEAP_START, top) && Has(r, s.blocks);
      assert last in s.blocks;
      NextNamesEnd(m, r, top, last);
    }
  }

  lemma NextNamesEnd(mem: Memory, r: seq<Block>, top: nat, b: Block)
    requires Linked(mem, r) && Tiled(r, HEAP_START, top) && b in r
    ensures b.addr in mem && (mem[b.addr].next == 0 || mem[b.addr].next == b.addr + HEADER + b.size)
  {
    hide Tiled;
    var j :| 0 <= j < |r| && r[j] == b;
    NextIsEnd(r, top, j);
  }

  // In a tiled list the next header lies right behind the block.
  lemma NextIsEnd(r: seq<Block>, top: nat, j: nat)
    requires Tiled(r, HEAP_START, top) && j < |r|
    ensures NextAddr(r, j) == 0 || NextAddr(r, j) == r[j].addr + HEADER + r[j].size
  {
    if j + 1 < |r| {
      TiledInside(r, HEAP_START, top, j);
      assert r[j + 1..][0] == r[j + 1];
    }
  }

  lemma LastEnds(s: State)
    requires Sound(s)
    ensures var b := s.blocks[|s.blocks| - 1]; b.addr + HEADER + b.size == End(s.blocks)
  {
    TiledInside(s.blocks, HEAP_START, End(s.blocks), |s.blocks| - 1);
    assert s.blocks[|s.blocks|..] == [];
  }

  // No block, header or payload, has a byte in the k pages from base on.
  ghost predicate Clear(blocks: seq<Block>, base: nat, k: nat) {
    forall i :: 0 <= i < |blocks| ==>
      k == 0 || blocks[i].addr + HEADER + blocks[i].size <= base || base + k * PAGE <= blocks[i].addr
  }

  // Memory still describes the old blocks, and none of them lost a byte.
  ghost predicate Survives(mem: Memory, s: State, k: nat) {
    (exists top: nat :: Describes(mem, s.blocks, top)) && Clear(s.blocks, s.top, k)
  }

  // With heap_current below the end of the list, a request that no free block fits
  // leaves the list and its payloads as they are if and only if the size check
  // refuses it or there is no page: one page that can be had is enough to lose
  // them, also when kmalloc then returns NULL.
  lemma GrowthBelowEnd(mem: Memory, s: State, request: nat)
    requires Sound(s) && Linked(mem, s.blocks) && s.top % PAGE == 0 && HEAP_START <= s.top < End(s.blocks)
    requires 0 < request < WORD && FirstFit(s.blocks, RoundUp16(request)) == |s.blocks|
    ensures var n := RoundUp16(request);
      Survives(AfterGrowth(mem, s, n), s, NewFrames(s, n)) <==> !Grows(s, request)
  {
    assert s.blocks != [];
    hide Sound, Linked, AfterGrowth, RoundUp16, FirstFit, End;
    var n := RoundUp16(request);
    WholePages(n);
    if Refuses(s, n) {
      NothingLost(mem, s, n);
    } else if NewFrames(s, n) > 0 {
      TopInside(s, NewFrames(s, n));
    } else {
      forall top: nat
        ensures !Describes(AfterGrowth(mem, s, n), s.blocks, top)
      {
        GrowthLeads(mem, s, n, top);
      }
    }
  }

  lemma NothingLost(mem: Memory, s: State, size: nat)
    requires Sound(s) && Linked(mem, s.blocks) && Refuses(s, size)
    ensures NewFrames(s, size) == 0 && Survives(AfterGrowth(mem, s, size), s, 0)
  {
    hide Linked;
    WholePages(size);
    GrowthFollows(mem, s, size);
    assert Describes(AfterGrowth(mem, s, size), s.blocks, End(s.blocks));
  }

  // Some block has the byte at heap_current.
  lemma TopInside(s: State, k: nat)
    requires Sound(s) && HEAP_START <= s.top < End(s.blocks) && k > 0
    ensures !Clear(s.blocks, s.top, k)
  {
    var i := BlockAt(s.blocks, HEAP_START, End(s.blocks), s.top);
  }

  lemma {:induction false} BlockAt(blocks: seq<Block>, start: nat, top: nat, x: nat) returns (i: nat)
    requires Tiled(blocks, start, top) && start <= x < top
    ensures i < |blocks| && blocks[i].addr <= x < blocks[i].addr + HEADER + blocks[i].size
  {
    if x < start + HEADER + blocks[0].size {
      i := 0;
    } else {
      i := BlockAt(blocks[1..], start + HEADER + blocks[0].size, top, x);
      i := i + 1;
    }
  }

  // At boot position already the headers are lost.
  lemma GrowthFromBoot(mem: Memory, s: State, request: nat)
    requires Sound(s) && Linked(mem, s.blocks) && s.top == HEAP_START
    requires 0 < request < WORD && FirstFit(s.blocks, RoundUp16(request)) == |s.blocks|
    ensures var n := RoundUp16(request);
      (exists top: nat :: Describes(AfterGrowth(mem, s, n), s.blocks, top)) <==> !Grows(s, request)
  {
    assert s.blocks != [];
    hide Sound, Linked, AfterGrowth, RoundUp16, FirstFit, End;
    var n := RoundUp16(request);
    WholePages(n);
    if Refuses(s, n) {
      NothingLost(mem, s, n);
    } else {
      StartBelowEnd(s);
      forall top: nat
        ensures !Describes(AfterGrowth(mem, s, n), s.blocks, top)
      {
        if Grow(s, n).1 == 0 {
          FirstHeaderGone(mem, s, n, top);
        } else {
          GrowthLeads(mem, s, n, top);
        }
      }
    }
  }

  lemma StartBelowEnd(s: State)
    requires Sound(s)
    ensures HEAP_START < End(s.blocks)
  {
  }

  // Growth that runs out of pages has taken the frame of the first header.
  lemma FirstHeaderGone(mem: Memory, s: State, size: nat, top: nat)
    requires Sound(s) && s.top == HEAP_START && Grow(s, size).1 == 0 && !Refuses(s, size)
    ensures HEAP_START !in AfterGrowth(mem, s, size)
    ensures !Describes(AfterGrowth(mem, s, size), s.blocks, top)
  {
    WholePages(size);
    var m := AfterGrowth(mem, s, size);
    assert HEAP_START !in m;
    assert s.blocks[0] in s.blocks;
  }

  // Memory links some list from HEAP_START on.
  ghost predicate HoldsList(mem: Memory, top: nat) {
    exists r :: r != [] && Linked(mem, r) && Tiled(r, HEAP_START, top)
  }

  // A first growth that returns a pointer writes its header over the first one. Of
  // several blocks in the first page nothing is left, and the heap is the new block
  // alone; a single block is made to name itself, and memory describes no list.
  lemma GrowthRestarts(mem: Memory, s: State, size: nat)
    requires Sound(s) && Linked(mem, s.blocks) && s.top == HEAP_START && End(s.blocks) <= HEAP_START + PAGE
    requires Grow(s, size).1 != 0 && GrowthSpan(size) > 0
    ensures var m := AfterGrowth(mem, s, size);
      var h := Header(GrowthSpan(size) - HEADER, false, if |s.blocks| == 1 then HEAP_START else 0);
      && HEAP_START in m && m[HEAP_START] == h
      && 0 < GrowthSpan(size) / PAGE <= s.pages
      && (|s.blocks| > 1 ==> Linked(m, Restarted(s, GrowthSpan(size) / PAGE).blocks))
      && ((exists top: nat :: HoldsList(m, top)) <==> |s.blocks| > 1)
  {
    WholePages(size);
    var k := GrowthSpan(size) / PAGE;
    FirstHeaderAfter(mem, s, size);
    var m := AfterGrowth(mem, s, size);
    hide AfterGrowth, Sound, End;
    if |s.blocks| > 1 {
      var r := Restarted(s, k).blocks;
      assert Linked(m, r);
      assert r[1..] == [];
      assert Tiled(r, HEAP_START, HEAP_START + GrowthSpan(size));
      assert HoldsList(m, HEAP_START + GrowthSpan(size));
    } else {
      forall top: nat
        ensures !HoldsList(m, top)
      {
        SelfLoopHoldsNone(m, top);
      }
    }
  }

  lemma FirstHeaderAfter(mem: Memory, s: State, size: nat)
    requires Sound(s) && Linked(mem, s.blocks) && s.top == HEAP_START && End(s.blocks) <= HEAP_START + PAGE
    requires Grow(s, size).1 != 0 && GrowthSpan(size) > 0
    ensures var m := AfterGrowth(mem, s, size);
      var h := Header(GrowthSpan(size) - HEADER, false, if |s.blocks| == 1 then HEAP_START else 0);
      HEAP_START in m && m[HEAP_START] == h
  {
    WholePages(size);
    var span := GrowthSpan(size);
    assert (span + WORD - HEADER) % WORD == span - HEADER;
    var n := |s.blocks| - 1;
    TiledInside(s.blocks, HEAP_START, End(s.blocks), n);
    if n > 0 {
      BlocksDisjoint(s.blocks, HEAP_START, End(s.blocks), 0, n);
    }
  }

  lemma SelfLoopHoldsNone(mem: Memory, top: nat)
    requires HEAP_START in mem && mem[HEAP_START].next == HEAP_START
    ensures !HoldsList(mem, top)
  {
    if HoldsList(mem, top) {
      var r: seq<Block> :| r != [] && Linked(mem, r) && Tiled(r, HEAP_START, top);
      NextNamesEnd(mem, r, top, r[0]);
    }
  }

  // The loop of kheap_alloc ends within k turns.
  ghost predicate FindEnds(mem: Memory, current: nat, size: nat, k: nat)
    decreases k
  {
    && k > 0 && current in mem
    && match FindAt(mem, current, size)
       case Next(c) => FindEnds(mem, c, size, k - 1)
       case _ => true
  }

  // The loop of kheap_free ends within k turns.
  ghost predicate MergeEnds(mem: Memory, current: nat, k: nat)
    decreases k
  {
    || current == 0
    || (k > 0 && current in mem && (mem[current].next != 0 ==> mem[current].next in mem) &&
        var (m, c) := MergeAt(mem, current); MergeEnds(m, c, k - 1))
  }

  // The store of kheap_free before its loop.
  function FreeMark(mem: Memory, a: nat): Memory
    requires a in mem
  {
    mem[a := mem[a].(free := true)]
  }

  // A used header that names itself holds every later kmalloc for ever.
  lemma {:induction false} FindHangs(mem: Memory, a: nat, size: nat, k: nat)
    requires a != 0 && a in mem && !mem[a].free && mem[a].next == a
    ensures !FindEnds(mem, a, size, k)
    decreases k
  {
    if k > 0 {
      FindHangs(mem, a, size, k - 1);
    }
  }

  // Any header that names itself holds every later kfree for ever, also when it
  // is the one being freed.
  lemma {:induction false} MergeHangs(mem: Memory, a: nat, k: nat)
    requires a != 0 && a in mem && mem[a].next == a
    ensures !MergeEnds(mem, a, k)
    decreases k
  {
    if k > 0 {
      MergeHangs(MergeAt(mem, a).0, a, k - 1);
    }
  }

  // On a heap that describes a list both loops end.
  lemma {:induction false} FindEndsOnLists(mem: Memory, s: State, size: nat, i: nat)
    requires Sound(s) && Linked(mem, s.blocks) && i < |s.blocks|
    ensures FindEnds(mem, s.blocks[i].addr, size, |s.blocks| - i)
    decreases |s.blocks| - i
  {
    HeaderOf(mem, s.blocks, End(s.blocks), i);
    if i + 1 < |s.blocks| {
      FindEndsOnLists(mem, s, size, i + 1);
    }
  }

  // Boot, and one request beyond the first page: kmalloc returns, and no later
  // kmalloc or kfree does.
  method FirstGrowth(available: nat, request: nat) returns (heap: KernelHeap, ptr: nat)
    requires PAGE - HEADER < request <= LIMIT && GrowthSpan(RoundUp16(request)) / PAGE < available
    ensures fresh(heap) && ptr == HEAP_START + HEADER && heap.freeList == HEAP_START
    ensures forall size, k: nat :: !FindEnds(heap.mem, heap.freeList, size, k)
    ensures forall a, k: nat {:trigger MergeEnds(FreeMark(heap.mem, a), heap.freeList, k)} :: a in heap.mem ==>
      !MergeEnds(FreeMark(heap.mem, a), heap.freeList, k)
  {
    hide AfterGrowth, RoundUp16, GrowthSpan, Sound, Linked;
    heap := new KernelHeap(available);
    BootMiss(available - 1, request);
    ghost var s := heap.Abs();
    GrowthRestarts(heap.mem, s, RoundUp16(request));
    ptr := heap.KheapAlloc(request);
    forall size, k: nat
      ensures !FindEnds(heap.mem, HEAP_START, size, k)
    {
      FindHangs(heap.mem, HEAP_START, size, k);
    }
    forall a, k: nat {:trigger MergeEnds(FreeMark(heap.mem, a), heap.freeList, k)} | a in heap.mem
      ensures !MergeEnds(FreeMark(heap.mem, a), heap.freeList, k)
    {
      MergeHangs(FreeMark(heap.mem, a), HEAP_START, k);
    }
  }

  lemma BootMiss(pages: nat, request: nat)
    requires PAGE - HEADER < request <= LIMIT
    ensures var s := AfterInit(pages);
      var n := RoundUp16(request);
      && Sound(s) && End(s.blocks) == HEAP_START + PAGE && GrowthSpan(n) > 0
      && Alloc(s, request) == Grow(s, n)
      && (Grow(s, n).1 != 0 <==> GrowthSpan(n) / PAGE <= pages)
      && (Grow(s, n).1 != 0 ==> Grow(s, n).1 == HEAP_START + HEADER)
      && (Refuses(s, n) <==> pages == 0)
      && (pages > 0 ==> !AllocFollows(s, request))
  {
    Roundings(request);
    AfterInitSound(pages);
    var s := AfterInit(pages);
    assert FirstFit(s.blocks[1..], RoundUp16(request)) == 0;
    assert FirstFit(s.blocks, RoundUp16(request)) == 1;
  }

  // Boot, and a request for more pages than there are: kmalloc returns NULL, and
  // the only header of the heap is gone.
  method FailedGrowth(available: nat, request: nat) returns (heap: KernelHeap, ptr: nat)
    requires PAGE - HEADER < request <= LIMIT && 1 < available <= GrowthSpan(RoundUp16(request)) / PAGE
    ensures fresh(heap) && ptr == 0 && heap.freeList == HEAP_START && HEAP_START !in heap.mem
    ensures forall top: nat :: !HoldsList(heap.mem, top)
  {
    hide AfterGrowth, RoundUp16, GrowthSpan, Sound, Linked, HoldsList;
    heap := new KernelHeap(available);
    BootMiss(available - 1, request);
    FirstHeaderGone(heap.mem, heap.Abs(), RoundUp16(request), 0);
    ptr := heap.KheapAlloc(request);
    forall top: nat
      ensures !HoldsList(heap.mem, top)
    {
      NoFirstHeader(heap.mem, top);
    }
  }

  lemma NoFirstHeader(mem: Memory, top: nat)
    requires HEAP_START !in mem
    ensures !HoldsList(mem, top)
  {
  }

  // Boot, a small request and then one beyond the first page: both get the same
  // pointer. No later call hangs, and the heap holds the second block alone.
  method TwoRequests(available: nat, small: nat, large: nat) returns (heap: KernelHeap, p: nat, q: nat)
    requires 0 < small <= PAGE - 2 * HEADER - 16 && PAGE - HEADER < large <= LIMIT
    requires GrowthSpan(RoundUp16(large)) / PAGE < available && HEAP_START + available * PAGE <= WORD
    ensures fresh(heap) && p == q == HEAP_START + HEADER
    ensures heap.Valid() && Inv(heap.Abs()) && |heap.blocks| == 1
  {
    hide RoundUp16, GrowthSpan, Sound, Inv, Linked, Alloc, Restarts;
    heap := new KernelHeap(available);
    SmallThenLarge(available - 1, small, large);
    p := heap.KheapAlloc(small);
    RestartedInv(heap.Abs(), GrowthSpan(RoundUp16(large)) / PAGE);
    q := heap.KheapAlloc(large);
  }

  lemma SmallThenLarge(pages: nat, small: nat, large: nat)
    requires 0 < small <= PAGE - 2 * HEADER - 16 && PAGE - HEADER < large <= LIMIT
    requires GrowthSpan(RoundUp16(large)) / PAGE <= pages && HEAP_START + (pages + 1) * PAGE <= WORD
    ensures var s := AfterInit(pages);
      var (s1, p) := Alloc(s, small);
      && AllocKeeps(s, small) && p == HEAP_START + HEADER && s1.pages == pages
      && AllocRestarts(s1, large) && Alloc(s1, large).1 == HEAP_START + HEADER
      && 0 < GrowthSpan(RoundUp16(large)) / PAGE
  {
    Roundings(small);
    Roundings(large);
    AfterInitSound(pages);
    var s := AfterInit(pages);
    var s1 := Alloc(s, small).0;
    assert FirstFit(s.blocks, RoundUp16(small)) == 0;
    FitServes(s, small, 0);
    assert s1.blocks[1..][1..] == [];
    assert FirstFit(s1.blocks[1..], RoundUp16(large)) == 1;
  }
}
