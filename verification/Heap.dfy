// The kernel heap as a function on block lists: src/klibc/kmem/kheap.c
module Heap {
  const HEAP_START: nat := 0xFFFF_8000_1000_0000
  const HEADER: nat := 24  // sizeof(block_header_t)
  const PAGE: nat := 4096
  const WORD: nat := 0x1_0000_0000_0000_0000  // SIZE_MAX + 1

  datatype Block = Block(addr: nat, size: nat, free: bool)

  // The list from free_list, heap_current, and how many pages can still be had.
  datatype State = State(blocks: seq<Block>, top: nat, pages: nat)

  // ----- operations; a zero pointer is NULL

  // (size + 15) & ~15 and the page rounding of request_more_memory, in size_t.
  function RoundUp16(size: nat): nat {
    (size + 15) % WORD / 16 * 16
  }

  function GrowthSpan(size: nat): nat {
    (size + HEADER + (PAGE - 1)) % WORD / PAGE * PAGE
  }

  // The first free block that is large enough, or |blocks|.
  function FirstFit(blocks: seq<Block>, size: nat): (i: nat)
    ensures i <= |blocks|
    ensures forall j :: 0 <= j < i ==> !(blocks[j].free && blocks[j].size >= size)
    ensures i < |blocks| ==> blocks[i].free && blocks[i].size >= size
  {
    if blocks == [] || (blocks[0].free && blocks[0].size >= size) then 0 else 1 + FirstFit(blocks[1..], size)
  }

  // split_block on a block that is then marked used.
  function Carve(b: Block, size: nat): seq<Block>
    requires b.size >= size
  {
    if b.size <= size + HEADER then [b.(free := false)]
    else [Block(b.addr, size, false), Block(b.addr + HEADER + size, b.size - size - HEADER, true)]
  }

  function TakeAt(s: State, i: nat, size: nat): (State, nat)
    requires i < |s.blocks| && s.blocks[i].size >= size
  {
    (s.(blocks := s.blocks[..i] + Carve(s.blocks[i], size) + s.blocks[i + 1..]), s.blocks[i].addr + HEADER)
  }

  function Grow(s: State, size: nat): (State, nat) {
    var span := GrowthSpan(size);
    if size >= WORD - HEADER then (s, 0)
    else if s.pages < span / PAGE then (s.(pages := 0), 0)
    else (State(s.blocks + [Block(s.top, (span + WORD - HEADER) % WORD, false)], s.top + span, s.pages - span / PAGE),
          s.top + HEADER)
  }

  // kheap_alloc
  function Alloc(s: State, size: nat): (State, nat) {
    if size == 0 then (s, 0)
    else
      var n := RoundUp16(size);
      var i := FirstFit(s.blocks, n);
      if i < |s.blocks| then TakeAt(s, i, n) else Grow(s, n)
  }

  // The merging pass of kheap_free.
  function Coalesce(blocks: seq<Block>): (r: seq<Block>)
    ensures |r| <= |blocks|
    decreases |blocks|
  {
    if |blocks| < 2 then blocks
    else if blocks[0].free && blocks[1].free then
      Coalesce([Block(blocks[0].addr, blocks[0].size + HEADER + blocks[1].size, true)] + blocks[2..])
    else [blocks[0]] + Coalesce(blocks[1..])
  }

  ghost predicate IsPayload(blocks: seq<Block>, ptr: nat) {
    exists i :: 0 <= i < |blocks| && blocks[i].addr + HEADER == ptr
  }

  ghost function MarkFree(blocks: seq<Block>, ptr: nat): seq<Block>
  {
    seq(|blocks|, i requires 0 <= i < |blocks| =>
      if blocks[i].addr + HEADER == ptr then blocks[i].(free := true) else blocks[i])
  }

  // kheap_free
  ghost function Free(s: State, ptr: nat): State {
    if ptr == 0 then s else s.(blocks := Coalesce(MarkFree(s.blocks, ptr)))
  }

  // ----- the invariant

  ghost function Span(blocks: seq<Block>): nat {
    if blocks == [] then 0 else HEADER + blocks[0].size + Span(blocks[1..])
  }

  // The blocks lie one after another from start to top, with no gap or overlap.
  ghost predicate Tiled(blocks: seq<Block>, start: nat, top: nat) {
    if blocks == [] then start == top
    else blocks[0].addr == start && Tiled(blocks[1..], start + HEADER + blocks[0].size, top)
  }

  ghost predicate SizesAligned(blocks: seq<Block>) {
    forall b :: b in blocks ==> b.size % 8 == 0
  }

  // No two neighbours are both free.
  ghost predicate Canonical(blocks: seq<Block>) {
    forall i :: 0 <= i < |blocks| - 1 ==> !(blocks[i].free && blocks[i + 1].free)
  }

  // Where the last block of a tiled list ends.
  ghost function End(blocks: seq<Block>): nat {
    HEAP_START + Span(blocks)
  }

  // A nonempty list of blocks without gap or overlap.
  ghost predicate Sound(s: State) {
    && s.blocks != [] && Tiled(s.blocks, HEAP_START, End(s.blocks)) && SizesAligned(s.blocks)
    && End(s.blocks) <= WORD
  }

  // The entry hypothesis on growth: the last block ends at heap_current, which
  // lies at a page, and there is room below the top of the address space for
  // every page that can still be had.
  ghost predicate Inv(s: State) {
    Sound(s) && s.top == End(s.blocks) && s.top % PAGE == 0 && s.top + s.pages * PAGE <= WORD
  }

  ghost function Live(blocks: seq<Block>): set<Block> {
    set b | b in blocks && !b.free
  }

  // ----- tiling

  lemma {:induction false} SpanConcat(a: seq<Block>, b: seq<Block>)
    ensures Span(a + b) == Span(a) + Span(b)
  {
    if a == [] {
      assert a + b == b;
    } else {
      assert (a + b)[1..] == a[1..] + b;
      SpanConcat(a[1..], b);
    }
  }

  lemma {:induction false} TiledConcat(a: seq<Block>, b: seq<Block>, start: nat, top: nat)
    ensures Tiled(a + b, start, top) <==>
            Tiled(a, start, start + Span(a)) && Tiled(b, start + Span(a), top)
  {
    if a == [] {
      assert a + b == b;
    } else {
      assert (a + b)[1..] == a[1..] + b;
      TiledConcat(a[1..], b, start + HEADER + a[0].size, top);
    }
  }

  // Sizes plus headers add up to the span of the heap.
  lemma {:induction false} TiledSpan(blocks: seq<Block>, start: nat, top: nat)
    requires Tiled(blocks, start, top)
    ensures start + Span(blocks) == top
  {
    if blocks != [] {
      TiledSpan(blocks[1..], start + HEADER + blocks[0].size, top);
    }
  }

  lemma {:induction false} TiledInside(blocks: seq<Block>, start: nat, top: nat, i: nat)
    requires Tiled(blocks, start, top) && i < |blocks|
    ensures start <= blocks[i].addr && blocks[i].addr + HEADER + blocks[i].size <= top
    ensures Tiled(blocks[..i], start, blocks[i].addr)
    ensures Tiled(blocks[i..], blocks[i].addr, top)
    ensures Tiled(blocks[i + 1..], blocks[i].addr + HEADER + blocks[i].size, top)
  {
    TiledSpan(blocks, start, top);
    assert blocks == blocks[..i] + blocks[i..];
    TiledConcat(blocks[..i], blocks[i..], start, top);
    SpanConcat(blocks[..i], blocks[i..]);
    assert blocks[i..][1..] == blocks[i + 1..];
  }

  // Two blocks of a tiled list do not overlap, headers included.
  lemma BlocksDisjoint(blocks: seq<Block>, start: nat, top: nat, i: nat, j: nat)
    requires Tiled(blocks, start, top) && i < j < |blocks|
    ensures blocks[i].addr + HEADER + blocks[i].size <= blocks[j].addr
  {
    TiledInside(blocks, start, top, i);
    TiledInside(blocks[i + 1..], blocks[i].addr + HEADER + blocks[i].size, top, j - i - 1);
  }

  lemma {:induction false} AddressesAligned(blocks: seq<Block>, start: nat, top: nat, i: nat)
    requires Tiled(blocks, start, top) && SizesAligned(blocks) && start % 8 == 0 && i < |blocks|
    ensures blocks[i].addr % 8 == 0
  {
    if i > 0 {
      assert blocks[0].size % 8 == 0;
      AddressesAligned(blocks[1..], start + HEADER + blocks[0].size, top, i - 1);
    }
  }

  lemma ReplaceTiled(blocks: seq<Block>, start: nat, top: nat, i: nat, mid: seq<Block>)
    requires Tiled(blocks, start, top) && i < |blocks|
    requires Tiled(mid, blocks[i].addr, blocks[i].addr + HEADER + blocks[i].size)
    ensures Tiled(blocks[..i] + mid + blocks[i + 1..], start, top)
  {
    TiledInside(blocks, start, top, i);
    TiledSpan(mid, blocks[i].addr, blocks[i].addr + HEADER + blocks[i].size);
    TiledSpan(blocks[..i], start, blocks[i].addr);
    TiledConcat(mid, blocks[i + 1..], blocks[i].addr, top);
    TiledConcat(blocks[..i], mid + blocks[i + 1..], start, top);
    assert blocks[..i] + (mid + blocks[i + 1..]) == blocks[..i] + mid + blocks[i + 1..];
  }

  lemma CarveTiled(b: Block, size: nat)
    requires b.size >= size
    ensures Tiled(Carve(b, size), b.addr, b.addr + HEADER + b.size)
  {
    var c := Carve(b, size);
    if b.size > size + HEADER {
      assert c[1..] == [c[1]];
    }
  }

  lemma {:induction false} CoalesceTiled(blocks: seq<Block>, start: nat, top: nat)
    requires Tiled(blocks, start, top)
    ensures Tiled(Coalesce(blocks), start, top)
    ensures blocks != [] ==> Coalesce(blocks) != []
    decreases |blocks|
  {
    if |blocks| < 2 {
    } else if blocks[0].free && blocks[1].free {
      var m := Block(blocks[0].addr, blocks[0].size + HEADER + blocks[1].size, true);
      var merged := [m] + blocks[2..];
      assert merged[1..] == blocks[1..][1..];
      CoalesceTiled(merged, start, top);
    } else {
      CoalesceTiled(blocks[1..], start + HEADER + blocks[0].size, top);
      assert ([blocks[0]] + Coalesce(blocks[1..]))[1..] == Coalesce(blocks[1..]);
    }
  }

  lemma AlignedSum(a: nat, b: nat)
    requires a % 8 == 0 && b % 8 == 0
    ensures (a + HEADER + b) % 8 == 0
  {
  }

  lemma {:induction false} CoalesceAligned(blocks: seq<Block>)
    requires SizesAligned(blocks)
    ensures SizesAligned(Coalesce(blocks))
    decreases |blocks|
  {
    if |blocks| >= 2 {
      assert blocks[0] in blocks && blocks[1] in blocks;
      if blocks[0].free && blocks[1].free {
        var m := Block(blocks[0].addr, blocks[0].size + HEADER + blocks[1].size, true);
        AlignedSum(blocks[0].size, blocks[1].size);
        forall b | b in [m] + blocks[2..]
          ensures b.size % 8 == 0
        {
          assert b == m || b in blocks;
        }
        hide SizesAligned;
        CoalesceAligned([m] + blocks[2..]);
      } else {
        CoalesceAligned(blocks[1..]);
      }
    }
  }

  // ----- kmalloc

  // Above this request size the size_t roundings wrap.
  const LIMIT: nat := WORD - 4128

  lemma Roundings(size: nat)
    requires 0 < size < WORD
    ensures RoundUp16(size) % 16 == 0 && RoundUp16(size) < WORD
    ensures size <= LIMIT ==> size <= RoundUp16(size) < size + 16
    ensures size <= LIMIT ==>
      var span := GrowthSpan(RoundUp16(size));
      && span % PAGE == 0 && RoundUp16(size) + HEADER <= span < RoundUp16(size) + HEADER + PAGE
      && span < WORD && RoundUp16(size) < WORD - HEADER
    ensures LIMIT < size && RoundUp16(size) >= size && RoundUp16(size) < WORD - HEADER ==>
      GrowthSpan(RoundUp16(size)) == 0
  {
  }

  lemma SizeFits(s: State, i: nat)
    requires Sound(s) && i < |s.blocks|
    ensures s.blocks[i].size + HEADER < WORD && s.blocks[i].size % 8 == 0
    ensures s.blocks[i].addr % 8 == 0 && s.blocks[i].addr >= HEAP_START
  {
    TiledInside(s.blocks, HEAP_START, End(s.blocks), i);
    AddressesAligned(s.blocks, HEAP_START, End(s.blocks), i);
    assert s.blocks[i] in s.blocks;
  }

  // What a served request has to give: the heap stays tiled, one live block is
  // added that holds the request at an aligned address, all others are untouched.
  ghost predicate Served(s: State, s1: State, size: nat, ptr: nat) {
    && Sound(s1)
    && exists b: Block ::
         && b.addr + HEADER == ptr && b.size >= size && ptr % 8 == 0
         && b !in Live(s.blocks) && Live(s1.blocks) == Live(s.blocks) + {b}
  }

  lemma LiveReplace(blocks: seq<Block>, i: nat, mid: seq<Block>)
    requires i < |blocks| && blocks[i].free
    ensures Live(blocks[..i] + mid + blocks[i + 1..]) == Live(blocks) + Live(mid)
  {
    var r := blocks[..i] + mid + blocks[i + 1..];
    forall b | b in Live(r)
      ensures b in Live(blocks) + Live(mid)
    {
    }
    forall b | b in Live(blocks)
      ensures b in r
    {
      var j :| 0 <= j < |blocks| && blocks[j] == b;
      if j < i {
        assert r[j] == b;
      } else {
        assert r[j + |mid| - 1] == b;
      }
    }
  }

  lemma ServedBy(s: State, s1: State, size: nat, ptr: nat, b: Block)
    requires Sound(s1)
    requires b.addr + HEADER == ptr && b.size >= size && ptr % 8 == 0
    requires b !in Live(s.blocks) && Live(s1.blocks) == Live(s.blocks) + {b}
    ensures Served(s, s1, size, ptr)
  {
  }

  // Another tiling of the same stretch is as sound.
  lemma SoundWith(s: State, blocks: seq<Block>)
    requires Sound(s) && blocks != [] && Tiled(blocks, HEAP_START, End(s.blocks)) && SizesAligned(blocks)
    ensures Sound(s.(blocks := blocks)) && End(blocks) == End(s.blocks)
  {
    hide Tiled, Span, SizesAligned;
    TiledSpan(blocks, HEAP_START, End(s.blocks));
  }

  lemma FitKeepsSound(s: State, n: nat, i: nat)
    requires Sound(s) && n % 8 == 0 && i < |s.blocks| && s.blocks[i].size >= n
    ensures var r := s.blocks[..i] + Carve(s.blocks[i], n) + s.blocks[i + 1..];
      Sound(s.(blocks := r)) && End(r) == End(s.blocks)
  {
    SizeFits(s, i);
    var mid := Carve(s.blocks[i], n);
    CarveTiled(s.blocks[i], n);
    ReplaceTiled(s.blocks, HEAP_START, End(s.blocks), i, mid);
    var r := s.blocks[..i] + mid + s.blocks[i + 1..];
    forall c | c in r
      ensures c.size % 8 == 0
    {
      assert c in s.blocks || c in mid;
    }
    SoundWith(s, r);
  }

  // The block carved out of a free one is no live block.
  lemma CarvedIsNew(s: State, i: nat, n: nat)
    requires Sound(s) && i < |s.blocks| && s.blocks[i].free && s.blocks[i].size >= n
    ensures Carve(s.blocks[i], n)[0] !in Live(s.blocks)
    ensures Live(Carve(s.blocks[i], n)) == {Carve(s.blocks[i], n)[0]}
  {
    var b := Carve(s.blocks[i], n)[0];
    if b in Live(s.blocks) {
      var j :| 0 <= j < |s.blocks| && s.blocks[j] == b;
      hide Tiled;
      SameAddressSameBlock(s.blocks, HEAP_START, End(s.blocks), i, j);
    }
  }

  lemma PayloadAligned(addr: nat)
    requires addr % 8 == 0
    ensures (addr + HEADER) % 8 == 0
  {
  }

  lemma FitServes(s: State, size: nat, i: nat)
    requires Sound(s) && 0 < size <= LIMIT && i == FirstFit(s.blocks, RoundUp16(size)) < |s.blocks|
    ensures Served(s, Alloc(s, size).0, size, Alloc(s, size).1)
    ensures End(Alloc(s, size).0.blocks) == End(s.blocks)
  {
    hide Sound, Live, RoundUp16, End, Tiled;
    var n := RoundUp16(size);
    Roundings(size);
    SizeFits(s, i);
    PayloadAligned(s.blocks[i].addr);
    FitKeepsSound(s, n, i);
    CarvedIsNew(s, i, n);
    var mid := Carve(s.blocks[i], n);
    LiveReplace(s.blocks, i, mid);
    var (s1, ptr) := Alloc(s, size);
    ServedBy(s, s1, size, ptr, mid[0]);
  }

  // A request served from a free block takes the first that is large enough. Its
  // rest is split off exactly when a header and at least one byte fit behind the
  // request, so less than 40 bytes are wasted; no other block changes.
  lemma FitIsTight(s: State, size: nat)
    requires Sound(s) && 0 < size <= LIMIT && FirstFit(s.blocks, RoundUp16(size)) < |s.blocks|
    ensures var (s1, ptr) := Alloc(s, size);
      var i := FirstFit(s.blocks, RoundUp16(size));
      var rest := |s.blocks| - i - 1;
      && i < |s1.blocks| && ptr == s.blocks[i].addr + HEADER && s1.top == s.top && s1.pages == s.pages
      && s1.blocks[i].addr == s.blocks[i].addr && !s1.blocks[i].free
      && size <= s1.blocks[i].size < size + 16 + HEADER
      && rest <= |s1.blocks| - i - 1 <= rest + 1
      && (|s1.blocks| - i - 1 == rest <==> s.blocks[i].size <= RoundUp16(size) + HEADER)
      && s1.blocks[..i] == s.blocks[..i] && s1.blocks[|s1.blocks| - rest..] == s.blocks[i + 1..]
      && (|s1.blocks| - i - 1 > rest ==>
           s1.blocks[i].size == RoundUp16(size) && s1.blocks[i + 1].free && s1.blocks[i + 1].size > 0)
  {
    Roundings(size);
    var n := RoundUp16(size);
    var i := FirstFit(s.blocks, n);
    var mid := Carve(s.blocks[i], n);
    var s1 := Alloc(s, size).0;
    assert mid[0].size <= n + HEADER;
    assert s1.blocks[i] == mid[0];
    assert s1.blocks[..i] == s.blocks[..i];
    assert s1.blocks[i + |mid|..] == s.blocks[i + 1..];
  }

  lemma WholePages(size: nat)
    ensures GrowthSpan(size) % PAGE == 0 && GrowthSpan(size) / PAGE * PAGE == GrowthSpan(size) < WORD
  {
  }

  // Growth adds the fewest pages that hold the request and its header, as one used
  // block at heap_current, and changes nothing else.
  lemma GrowthIsTight(s: State, size: nat)
    requires 0 < size <= LIMIT && FirstFit(s.blocks, RoundUp16(size)) == |s.blocks| && Alloc(s, size).1 != 0
    ensures var (s1, ptr) := Alloc(s, size);
      var k := s.pages - s1.pages;
      && 0 < k && (k - 1) * PAGE < RoundUp16(size) + HEADER <= k * PAGE
      && s1.top == s.top + k * PAGE && ptr == s.top + HEADER
      && s1.blocks == s.blocks + [Block(s.top, k * PAGE - HEADER, false)]
      && size <= RoundUp16(size) < size + 16
  {
    hide RoundUp16, FirstFit;
    Roundings(size);
    WholePages(RoundUp16(size));
    hide GrowthSpan;
    var span := GrowthSpan(RoundUp16(size));
    PagesOf(span);
    assert (span + WORD - HEADER) % WORD == span - HEADER;
  }

  lemma PagesOf(span: nat)
    requires span >= HEADER && span / PAGE * PAGE == span
    ensures span / PAGE > 0 && (span / PAGE - 1) * PAGE == span - PAGE
  {
  }

  lemma SameAddressSameBlock(blocks: seq<Block>, start: nat, top: nat, i: nat, j: nat)
    requires Tiled(blocks, start, top) && i < |blocks| && j < |blocks|
    requires blocks[i].addr == blocks[j].addr
    ensures i == j
  {
    if i < j {
      BlocksDisjoint(blocks, start, top, i, j);
    } else if j < i {
      BlocksDisjoint(blocks, start, top, j, i);
    }
  }

  lemma AppendTiled(blocks: seq<Block>, span: nat)
    requires Tiled(blocks, HEAP_START, End(blocks)) && HEADER <= span
    ensures var r := blocks + [Block(End(blocks), span - HEADER, false)];
      Tiled(r, HEAP_START, End(blocks) + span) && End(r) == End(blocks) + span
  {
    var b := Block(End(blocks), span - HEADER, false);
    assert [b][1..] == [];
    assert Tiled([b], End(blocks), End(blocks) + span);
    TiledConcat(blocks, [b], HEAP_START, End(blocks) + span);
    hide Tiled;
    TiledSpan(blocks + [b], HEAP_START, End(blocks) + span);
  }

  // A block at the end of the list is new.
  lemma EndIsNew(blocks: seq<Block>, b: Block)
    requires Tiled(blocks, HEAP_START, End(blocks)) && b.addr == End(blocks)
    ensures b !in blocks
  {
    if b in blocks {
      var j :| 0 <= j < |blocks| && blocks[j] == b;
      TiledInside(blocks, HEAP_START, End(blocks), j);
    }
  }

  lemma PagesAhead(base: nat, k: nat)
    requires base % PAGE == 0
    ensures (base + k * PAGE) % PAGE == 0
  {
  }

  lemma SpanAligned(k: nat)
    requires k > 0
    ensures (k * PAGE - HEADER) % 8 == 0 && k * PAGE >= PAGE
  {
    var m := 512 * k - 3;
    assert k * PAGE - HEADER == 8 * m;
  }

  lemma AppendSpan(s: State, span: nat, pages: nat)
    requires Inv(s) && span >= PAGE && (span - HEADER) % 8 == 0 && (s.top + span) % PAGE == 0
    requires s.top + span + pages * PAGE <= WORD
    ensures var b := Block(s.top, span - HEADER, false);
      && Inv(State(s.blocks + [b], s.top + span, pages))
      && b !in Live(s.blocks) && s.top % 8 == 0
  {
    hide Tiled, End, SizesAligned;
    var b := Block(s.top, span - HEADER, false);
    AppendTiled(s.blocks, span);
    AppendAligned(s.blocks, b);
    EndIsNew(s.blocks, b);
    TopAligned(s.blocks, HEAP_START, s.top);
  }

  lemma AppendKeepsInv(s: State, k: nat)
    requires Inv(s) && 0 < k <= s.pages
    ensures var b := Block(s.top, k * PAGE - HEADER, false);
      && Inv(State(s.blocks + [b], s.top + k * PAGE, s.pages - k))
      && b !in Live(s.blocks) && s.top % 8 == 0
  {
    var span := k * PAGE;
    PagesAhead(s.top, k);
    SpanAligned(k);
    AppendSpan(s, span, s.pages - k);
  }

  lemma AppendAligned(blocks: seq<Block>, b: Block)
    requires SizesAligned(blocks) && b.size % 8 == 0
    ensures SizesAligned(blocks + [b])
  {
  }

  lemma InvSound(s: State)
    requires Inv(s)
    ensures Sound(s)
  {
  }

  lemma GrowServes(s: State, size: nat)
    requires Inv(s) && 0 < size <= LIMIT && FirstFit(s.blocks, RoundUp16(size)) == |s.blocks|
    requires Alloc(s, size).1 != 0
    ensures Served(s, Alloc(s, size).0, size, Alloc(s, size).1) && Inv(Alloc(s, size).0)
  {
    hide Inv, Sound, RoundUp16, GrowthSpan, FirstFit, Served;
    var n := RoundUp16(size);
    Roundings(size);
    WholePages(n);
    var span := GrowthSpan(n);
    AppendKeepsInv(s, span / PAGE);
    InvSound(Alloc(s, size).0);
    var (s1, ptr) := Alloc(s, size);
    var b := Block(s.top, span - HEADER, false);
    assert s1.blocks == s.blocks + [b];
    assert Live(s1.blocks) == Live(s.blocks) + {b};
    ServedBy(s, s1, size, ptr, b);
  }

  lemma {:induction false} TopAligned(blocks: seq<Block>, start: nat, top: nat)
    requires Tiled(blocks, start, top) && SizesAligned(blocks) && start % 8 == 0
    ensures top % 8 == 0
  {
    if blocks != [] {
      assert blocks[0].size % 8 == 0;
      TopAligned(blocks[1..], start + HEADER + blocks[0].size, top);
    }
  }

  // Every request within the limit that gets a pointer is served, and it gets
  // one unless no free block fits and too few pages are left; those pages are then
  // taken all the same. Only a request that makes the heap grow needs heap_current
  // to be the end of the last block.
  lemma AllocServes(s: State, size: nat)
    requires Sound(s) && 0 < size <= LIMIT
    requires FirstFit(s.blocks, RoundUp16(size)) < |s.blocks| || Inv(s)
    ensures var (s1, ptr) := Alloc(s, size);
      var n := RoundUp16(size);
      && (ptr != 0 ==> Served(s, s1, size, ptr))
      && (ptr == 0 ==> Sound(s1) && s1.blocks == s.blocks && s1.top == s.top && s1.pages == 0)
      && (ptr == 0 <==> FirstFit(s.blocks, n) == |s.blocks| && s.pages < GrowthSpan(n) / PAGE)
    ensures Inv(s) ==> Inv(Alloc(s, size).0)
  {
    Roundings(size);
    if FirstFit(s.blocks, RoundUp16(size)) < |s.blocks| {
      FitServes(s, size, FirstFit(s.blocks, RoundUp16(size)));
    } else if Alloc(s, size).1 != 0 {
      GrowServes(s, size);
    }
  }

  // Beyond the limit no pointer that kmalloc returns is any good: the request is
  // served exactly when it is within the limit.
  lemma ServedExactlyWithinLimit(s: State, size: nat)
    requires Inv(s) && 0 < size < WORD && Alloc(s, size).1 != 0
    ensures Served(s, Alloc(s, size).0, size, Alloc(s, size).1) <==> size <= LIMIT
  {
    if size <= LIMIT {
      AllocServes(s, size);
    } else if Served(s, Alloc(s, size).0, size, Alloc(s, size).1) {
      var s1 := Alloc(s, size).0;
      var b: Block :| b.size >= size && b in Live(s1.blocks);
      var j :| 0 <= j < |s1.blocks| && s1.blocks[j] == b;
      TiledInside(s1.blocks, HEAP_START, End(s1.blocks), j);
    }
  }

  // ----- kfree

  lemma LiveCons(b: Block, rest: seq<Block>)
    ensures Live([b] + rest) == Live(rest) + if b.free then {} else {b}
  {
  }

  lemma {:induction false} CoalesceLive(blocks: seq<Block>)
    ensures Live(Coalesce(blocks)) == Live(blocks)
    decreases |blocks|
  {
    if |blocks| < 2 {
    } else if blocks[0].free && blocks[1].free {
      var m := Block(blocks[0].addr, blocks[0].size + HEADER + blocks[1].size, true);
      var merged := [m] + blocks[2..];
      CoalesceLive(merged);
      assert blocks == [blocks[0], blocks[1]] + blocks[2..];
      assert Live(merged) == Live(blocks);
    } else {
      CoalesceLive(blocks[1..]);
      LiveCons(blocks[0], blocks[1..]);
      LiveCons(blocks[0], Coalesce(blocks[1..]));
      assert blocks == [blocks[0]] + blocks[1..];
    }
  }

  lemma {:induction false} CoalesceHead(blocks: seq<Block>)
    requires blocks != []
    ensures Coalesce(blocks) != [] && Coalesce(blocks)[0].free == blocks[0].free
    decreases |blocks|
  {
    if |blocks| >= 2 && blocks[0].free && blocks[1].free {
      CoalesceHead([Block(blocks[0].addr, blocks[0].size + HEADER + blocks[1].size, true)] + blocks[2..]);
    }
  }

  lemma {:induction false} CoalesceCanonical(blocks: seq<Block>)
    ensures Canonical(Coalesce(blocks))
    decreases |blocks|
  {
    if |blocks| < 2 {
    } else if blocks[0].free && blocks[1].free {
      CoalesceCanonical([Block(blocks[0].addr, blocks[0].size + HEADER + blocks[1].size, true)] + blocks[2..]);
    } else {
      CoalesceCanonical(blocks[1..]);
      CoalesceHead(blocks[1..]);
    }
  }

  lemma MarkFreeFacts(s: State, ptr: nat, i: nat)
    requires Sound(s) && i < |s.blocks| && s.blocks[i].addr + HEADER == ptr
    ensures MarkFree(s.blocks, ptr) == s.blocks[i := s.blocks[i].(free := true)]
    ensures Tiled(MarkFree(s.blocks, ptr), HEAP_START, End(s.blocks)) && SizesAligned(MarkFree(s.blocks, ptr))
    ensures Live(MarkFree(s.blocks, ptr)) == Live(s.blocks) - {s.blocks[i]}
  {
    var b := s.blocks[i];
    var marked := MarkFree(s.blocks, ptr);
    forall j | 0 <= j < |s.blocks| && j != i
      ensures s.blocks[j].addr != b.addr
    {
      if s.blocks[j].addr == b.addr {
        SameAddressSameBlock(s.blocks, HEAP_START, End(s.blocks), i, j);
      }
    }
    var mid := [b.(free := true)];
    assert Tiled(mid, b.addr, b.addr + HEADER + b.size);
    ReplaceTiled(s.blocks, HEAP_START, End(s.blocks), i, mid);
    assert marked == s.blocks[..i] + mid + s.blocks[i + 1..];
    forall c | c in marked
      ensures c.size % 8 == 0
    {
      assert c in s.blocks || c in mid;
    }
    assert Live(marked) == Live(s.blocks) - {b} by {
      forall c | c in Live(s.blocks) - {b}
        ensures c in marked
      {
        var j :| 0 <= j < |s.blocks| && s.blocks[j] == c;
        assert marked[j] == c;
      }
      forall c | c in Live(marked)
        ensures c in Live(s.blocks) - {b}
      {
        var j :| 0 <= j < |marked| && marked[j] == c;
        assert j != i && s.blocks[j] == c;
      }
    }
  }

  // kfree keeps the heap tiled, drops exactly the named block from the live
  // ones, and leaves no two free neighbours, whatever it started from.
  lemma FreeFacts(s: State, ptr: nat, i: nat)
    requires Sound(s) && i < |s.blocks| && s.blocks[i].addr + HEADER == ptr
    ensures Sound(Free(s, ptr)) && Canonical(Free(s, ptr).blocks)
    ensures Live(Free(s, ptr).blocks) == Live(s.blocks) - {s.blocks[i]}
    ensures End(Free(s, ptr).blocks) == End(s.blocks)
  {
    MarkFreeFacts(s, ptr, i);
    var marked := MarkFree(s.blocks, ptr);
    CoalesceTiled(marked, HEAP_START, End(s.blocks));
    CoalesceAligned(marked);
    CoalesceLive(marked);
    CoalesceCanonical(marked);
    SoundWith(s, Coalesce(marked));
  }

  // ----- canonical form and undo

  lemma AllocKeepsCanonical(s: State, size: nat)
    requires Canonical(s.blocks)
    ensures Canonical(Alloc(s, size).0.blocks)
  {
    var n := RoundUp16(size);
    var i := FirstFit(s.blocks, n);
    if size > 0 && i < |s.blocks| {
      var mid := Carve(s.blocks[i], n);
      var r := s.blocks[..i] + mid + s.blocks[i + 1..];
      forall j | 0 <= j < |r| - 1
        ensures !(r[j].free && r[j + 1].free)
      {
        if j + 1 < i {
          assert r[j] == s.blocks[j] && r[j + 1] == s.blocks[j + 1];
        } else if j + 1 == i {
          assert r[j + 1] == mid[0];
        } else if j == i {
          assert r[j] == mid[0];
        } else if j == i + |mid| - 1 {
          assert r[j + 1] == s.blocks[i + 1];
        } else {
          assert r[j] == s.blocks[j - |mid| + 1] && r[j + 1] == s.blocks[j - |mid| + 2];
        }
      }
    }
  }

  lemma {:induction false} CoalesceNothing(blocks: seq<Block>)
    requires Canonical(blocks)
    ensures Coalesce(blocks) == blocks
    decreases |blocks|
  {
    if |blocks| >= 2 {
      assert Canonical(blocks[1..]) by {
        forall j | 0 <= j < |blocks[1..]| - 1
          ensures !(blocks[1..][j].free && blocks[1..][j + 1].free)
        {
          assert !(blocks[j + 1].free && blocks[j + 2].free);
        }
      }
      assert !(blocks[0].free && blocks[0 + 1].free);
      CoalesceNothing(blocks[1..]);
    }
  }

  lemma {:induction false} CoalesceAfter(a: seq<Block>, b: seq<Block>)
    requires b != [] && Canonical(a + [b[0]])
    ensures Coalesce(a + b) == a + Coalesce(b)
    decreases |a|
  {
    if a == [] {
      assert a + b == b;
    } else {
      var t := a[1..];
      assert (a + b)[1..] == t + b;
      assert a + [b[0]] == [a[0]] + (t + [b[0]]);
      assert Canonical(t + [b[0]]) by {
        forall j | 0 <= j < |t|
          ensures !((t + [b[0]])[j].free && (t + [b[0]])[j + 1].free)
        {
          assert (t + [b[0]])[j] == (a + [b[0]])[j + 1];
          assert (t + [b[0]])[j + 1] == (a + [b[0]])[j + 2];
        }
      }
      assert !((a + [b[0]])[0].free && (a + [b[0]])[0 + 1].free);
      assert (a + b)[1] == (a + [b[0]])[1];
      CoalesceAfter(t, b);
      assert [a[0]] + (t + Coalesce(b)) == a + Coalesce(b);
    }
  }

  lemma CanonicalPart(blocks: seq<Block>, lo: nat, hi: nat)
    requires Canonical(blocks) && lo <= hi <= |blocks|
    ensures Canonical(blocks[lo..hi])
  {
    var part := blocks[lo..hi];
    forall j | 0 <= j < |part| - 1
      ensures !(part[j].free && part[j + 1].free)
    {
      assert !(blocks[lo + j].free && blocks[lo + j + 1].free);
    }
  }

  // A carved block marked free again merges back with what was cut off it.
  lemma UncarveBlock(b: Block, n: nat, rest: seq<Block>)
    requires b.free && b.size >= n && Canonical([b] + rest)
    ensures var mid := Carve(b, n);
      Coalesce(mid[0 := mid[0].(free := true)] + rest) == [b] + rest
  {
    var mid := Carve(b, n);
    var tail := mid[0 := mid[0].(free := true)] + rest;
    CoalesceNothing([b] + rest);
    if |mid| == 2 {
      assert tail[2..] == rest;
    } else {
      assert tail == [b] + rest;
    }
  }

  lemma UncarveRestores(blocks: seq<Block>, i: nat, n: nat)
    requires Canonical(blocks) && i < |blocks| && blocks[i].free && blocks[i].size >= n
    ensures var mid := Carve(blocks[i], n);
      Coalesce(blocks[..i] + mid[0 := mid[0].(free := true)] + blocks[i + 1..]) == blocks
  {
    var mid := Carve(blocks[i], n);
    var back := mid[0 := mid[0].(free := true)];
    var rest := blocks[i + 1..];
    var tail := back + rest;
    CanonicalPart(blocks, i, |blocks|);
    assert blocks[i..] == [blocks[i]] + rest;
    UncarveBlock(blocks[i], n, rest);
    var head := blocks[..i] + [tail[0]];
    forall j | 0 <= j < |head| - 1
      ensures !(head[j].free && head[j + 1].free)
    {
      assert !(blocks[j].free && blocks[j + 1].free);
    }
    CoalesceAfter(blocks[..i], tail);
    hide Canonical, Coalesce, Carve;
    assert blocks[..i] + back + rest == blocks[..i] + tail;
    assert blocks == blocks[..i] + blocks[i..];
  }

  // kfree marks exactly the block that was carved out.
  lemma MarkedBack(s: State, i: nat, n: nat)
    requires Sound(s) && n % 8 == 0 && i < |s.blocks| && s.blocks[i].free && s.blocks[i].size >= n
    ensures var mid := Carve(s.blocks[i], n);
      MarkFree(s.blocks[..i] + mid + s.blocks[i + 1..], s.blocks[i].addr + HEADER) ==
      s.blocks[..i] + mid[0 := mid[0].(free := true)] + s.blocks[i + 1..]
  {
    var mid := Carve(s.blocks[i], n);
    var s1 := s.(blocks := s.blocks[..i] + mid + s.blocks[i + 1..]);
    FitKeepsSound(s, n, i);
    assert s1.blocks[i] == mid[0];
    hide Sound, Live, MarkFree;
    MarkFreeFacts(s1, s.blocks[i].addr + HEADER, i);
  }

  lemma ReleaseUndoesTake(s: State, i: nat, n: nat)
    requires Sound(s) && n % 8 == 0 && i < |s.blocks| && s.blocks[i].free && s.blocks[i].size >= n
    ensures var (s1, ptr) := TakeAt(s, i, n);
      Free(s1, ptr) == s <==> Canonical(s.blocks)
  {
    hide Sound, MarkFree, Canonical, Coalesce;
    MarkedBack(s, i, n);
    if Canonical(s.blocks) {
      UncarveRestores(s.blocks, i, n);
    }
    CoalesceCanonical(MarkFree(TakeAt(s, i, n).0.blocks, TakeAt(s, i, n).1));
  }

  // kfree(kmalloc(size)) gives back exactly the old heap, when the request was
  // served from a free block, if and only if the old list was canonical.
  lemma FreeUndoesAlloc(s: State, size: nat)
    requires Sound(s) && 0 < size <= LIMIT && FirstFit(s.blocks, RoundUp16(size)) < |s.blocks|
    ensures var (s1, ptr) := Alloc(s, size);
      Free(s1, ptr) == s <==> Canonical(s.blocks)
  {
    hide Sound, Free, Canonical, RoundUp16, TakeAt, FirstFit, Grow;
    Roundings(size);
    ReleaseUndoesTake(s, FirstFit(s.blocks, RoundUp16(size)), RoundUp16(size));
  }

  // ----- runs

  datatype Op = Malloc(size: nat) | Release(ptr: nat)

  ghost predicate OpOk(s: State, op: Op) {
    match op
    case Malloc(size) => size <= LIMIT
    case Release(ptr) => ptr == 0 || IsPayload(s.blocks, ptr)
  }

  ghost function Step(s: State, op: Op): State {
    match op
    case Malloc(size) => Alloc(s, size).0
    case Release(ptr) => Free(s, ptr)
  }

  ghost predicate RunOk(s: State, ops: seq<Op>)
    decreases ops
  {
    ops != [] ==> OpOk(s, ops[0]) && RunOk(Step(s, ops[0]), ops[1..])
  }

  ghost function Run(s: State, ops: seq<Op>): State
    decreases ops
  {
    if ops == [] then s else Run(Step(s, ops[0]), ops[1..])
  }

  lemma ReleaseKeepsSound(s: State, ptr: nat)
    requires Sound(s) && Canonical(s.blocks) && (ptr == 0 || IsPayload(s.blocks, ptr))
    ensures var s1 := Free(s, ptr);
      Sound(s1) && Canonical(s1.blocks) && End(s1.blocks) == End(s.blocks) && s1.top == s.top && s1.pages == s.pages
  {
    if ptr != 0 {
      var i :| 0 <= i < |s.blocks| && s.blocks[i].addr + HEADER == ptr;
      FreeFacts(s, ptr, i);
    }
  }

  // Over every run the heap stays tiled up to heap_current and canonical, so live
  // payloads are pairwise disjoint and no free space is ever split in two neighbours.
  lemma {:induction false} RunKeepsInv(s: State, ops: seq<Op>)
    requires Inv(s) && Canonical(s.blocks) && RunOk(s, ops)
    ensures var s1 := Run(s, ops);
      Inv(s1) && Canonical(s1.blocks) && HEAP_START + Span(s1.blocks) == s1.top
    decreases ops
  {
    if ops != [] {
      match ops[0] {
        case Malloc(size) =>
          AllocKeepsCanonical(s, size);
          if size > 0 {
            AllocServes(s, size);
          }
        case Release(ptr) =>
          ReleaseKeepsSound(s, ptr);
      }
      RunKeepsInv(Step(s, ops[0]), ops[1..]);
    }
  }

  // kmalloc comes to map a page at heap_current, also when it then runs out of
  // pages: no free block fits, the size check passes and a page can be had. When
  // the roundings wrap no page is needed, and a header is stored all the same.
  ghost predicate Grows(s: State, size: nat) {
    var n := RoundUp16(size);
    && size > 0 && FirstFit(s.blocks, n) == |s.blocks| && n < WORD - HEADER
    && (s.pages > 0 || GrowthSpan(n) == 0)
  }

  ghost predicate NeverGrows(s: State, ops: seq<Op>)
    decreases ops
  {
    ops != [] ==> !(ops[0].Malloc? && Grows(s, ops[0].size)) && NeverGrows(Step(s, ops[0]), ops[1..])
  }

  // A request that neither fits nor comes to map a page changes nothing.
  lemma NothingHappens(s: State, size: nat)
    requires 0 < size < WORD && FirstFit(s.blocks, RoundUp16(size)) == |s.blocks| && !Grows(s, size)
    ensures Alloc(s, size) == (s, 0)
  {
    if RoundUp16(size) < WORD - HEADER {
      WholePages(RoundUp16(size));
    }
  }

  // A run that never comes to map a page needs no hypothesis on heap_current: the
  // list stays tiled to where it ended, canonical, and heap_current does not move.
  lemma {:induction false} RunWithoutGrowth(s: State, ops: seq<Op>)
    requires Sound(s) && Canonical(s.blocks) && RunOk(s, ops) && NeverGrows(s, ops)
    ensures var s1 := Run(s, ops);
      Sound(s1) && Canonical(s1.blocks) && End(s1.blocks) == End(s.blocks) && s1.top == s.top
    decreases ops
  {
    if ops != [] {
      match ops[0] {
        case Malloc(size) =>
          AllocKeepsCanonical(s, size);
          if size > 0 && FirstFit(s.blocks, RoundUp16(size)) < |s.blocks| {
            FitServes(s, size, FirstFit(s.blocks, RoundUp16(size)));
          } else if size > 0 {
            NothingHappens(s, size);
          }
        case Release(ptr) =>
          ReleaseKeepsSound(s, ptr);
      }
      RunWithoutGrowth(Step(s, ops[0]), ops[1..]);
    }
  }

  lemma LivePayloadsDisjoint(s: State, a: Block, b: Block)
    requires Sound(s) && a in Live(s.blocks) && b in Live(s.blocks) && a != b
    ensures a.addr + HEADER + a.size <= b.addr || b.addr + HEADER + b.size <= a.addr
    ensures HEAP_START <= a.addr && a.addr + HEADER + a.size <= End(s.blocks) && (a.addr + HEADER) % 8 == 0
  {
    hide Tiled, SizesAligned, Span;
    var i :| 0 <= i < |s.blocks| && s.blocks[i] == a;
    var j :| 0 <= j < |s.blocks| && s.blocks[j] == b;
    TiledInside(s.blocks, HEAP_START, End(s.blocks), i);
    SizeFits(s, i);
    if i < j {
      BlocksDisjoint(s.blocks, HEAP_START, End(s.blocks), i, j);
    } else {
      BlocksDisjoint(s.blocks, HEAP_START, End(s.blocks), j, i);
    }
  }

  // ----- init_kheap

  // What init_kheap leaves: one page is mapped and described by a free block,
  // but heap_current stays at the base of that page.
  function AfterInit(pages: nat): State {
    State([Block(HEAP_START, PAGE - HEADER, true)], HEAP_START, pages)
  }

  lemma AfterInitSound(pages: nat)
    ensures var s := AfterInit(pages);
      Sound(s) && Canonical(s.blocks) && End(s.blocks) == HEAP_START + PAGE && !Inv(s)
  {
    var s := AfterInit(pages);
    assert s.blocks[1..] == [];
    assert Span(s.blocks[1..]) == 0;
  }

  // From boot, as long as kmalloc does not come to map a page: the heap is the
  // first page, tiled and canonical.
  lemma BootRun(pages: nat, ops: seq<Op>)
    requires RunOk(AfterInit(pages), ops) && NeverGrows(AfterInit(pages), ops)
    ensures var s1 := Run(AfterInit(pages), ops);
      && Sound(s1) && Tiled(s1.blocks, HEAP_START, HEAP_START + PAGE) && Canonical(s1.blocks)
      && forall a, b :: a in Live(s1.blocks) && b in Live(s1.blocks) && a != b ==>
           a.addr + HEADER + a.size <= b.addr || b.addr + HEADER + b.size <= a.addr
  {
    AfterInitSound(pages);
    RunWithoutGrowth(AfterInit(pages), ops);
    var s1 := Run(AfterInit(pages), ops);
    forall a, b | a in Live(s1.blocks) && b in Live(s1.blocks) && a != b
      ensures a.addr + HEADER + a.size <= b.addr || b.addr + HEADER + b.size <= a.addr
    {
      LivePayloadsDisjoint(s1, a, b);
    }
  }

  // What the first growth from boot leaves when the first page had been split: one
  // used block, which takes the place of all blocks before it (GrowthRestarts in
  // KernelHeap).
  function Restarted(s: State, k: nat): State
    requires 0 < k <= s.pages
  {
    State([Block(HEAP_START, k * PAGE - HEADER, false)], HEAP_START + k * PAGE, s.pages - k)
  }

  // From there on heap_current is the end of the list, and the invariant holds
  // over every run.
  lemma RestartedRun(s: State, k: nat, ops: seq<Op>)
    requires 0 < k <= s.pages && HEAP_START + s.pages * PAGE <= WORD && RunOk(Restarted(s, k), ops)
    ensures Inv(Restarted(s, k)) && Inv(Run(Restarted(s, k), ops)) && Canonical(Run(Restarted(s, k), ops).blocks)
  {
    RestartedInv(s, k);
    RunKeepsInv(Restarted(s, k), ops);
  }

  lemma RestartedInv(s: State, k: nat)
    requires 0 < k <= s.pages && HEAP_START + s.pages * PAGE <= WORD
    ensures Inv(Restarted(s, k)) && Canonical(Restarted(s, k).blocks)
  {
    PagesAhead(HEAP_START, k);
    SpanAligned(k);
    OneBlockInv(k * PAGE, s.pages - k);
  }

  lemma OneBlockInv(span: nat, pages: nat)
    requires span >= PAGE && (span - HEADER) % 8 == 0 && (HEAP_START + span) % PAGE == 0
    requires HEAP_START + span + pages * PAGE <= WORD
    ensures var r := State([Block(HEAP_START, span - HEADER, false)], HEAP_START + span, pages);
      Inv(r) && Canonical(r.blocks)
  {
    var blocks := [Block(HEAP_START, span - HEADER, false)];
    assert blocks[1..] == [];
    assert Span(blocks[1..]) == 0;
  }
}
