// Physical page allocator: src/arch/x86_64/mem/pmm/pmm.c
//
// Physical addresses are natural numbers. The bitmap keeps the byte layout of
// the source: page i owns bit i % 8 of byte i / 8, and a set bit means "used".
module Pmm {
  const PAGE_SIZE: nat := 4096

  // 1 << k for a bit position inside a byte.
  function BitMask(k: nat): bv8
    requires k < 8
  {
    if k == 0 then 1 else if k == 1 then 2 else if k == 2 then 4 else if k == 3 then 8
    else if k == 4 then 16 else if k == 5 then 32 else if k == 6 then 64 else 128
  }

  lemma MaskIsShift(k: nat)
    requires k < 8
    ensures BitMask(k) == 1 << k
  {
  }

  predicate ByteTest(b: bv8, k: nat)
    requires k < 8
  {
    b & BitMask(k) != 0
  }

  // BIT_TEST
  predicate BitTest(bytes: seq<bv8>, i: nat)
    requires i / 8 < |bytes|
  {
    ByteTest(bytes[i / 8], i % 8)
  }

  function ByteSet(b: bv8, k: nat): bv8
    requires k < 8
  {
    b | BitMask(k)
  }

  function ByteClear(b: bv8, k: nat): bv8
    requires k < 8
  {
    b & !BitMask(k)
  }

  lemma ByteSetBit(b: bv8, k: nat, j: nat)
    requires k < 8 && j < 8
    ensures ByteTest(ByteSet(b, k), j) <==> j == k || ByteTest(b, j)
  {
  }

  lemma ByteClearBit(b: bv8, k: nat, j: nat)
    requires k < 8 && j < 8
    ensures ByteTest(ByteClear(b, k), j) <==> j != k && ByteTest(b, j)
  {
  }

  lemma SamePage(i: nat, j: nat)
    ensures i == j <==> i / 8 == j / 8 && i % 8 == j % 8
  {
  }

  // The pages marked used among the first n.
  ghost function UsedPages(bytes: seq<bv8>, n: nat): set<nat>
    requires n <= 8 * |bytes|
  {
    set i | 0 <= i < n && BitTest(bytes, i)
  }

  // The least free page, or n when every page is used.
  ghost predicate IsFirstFree(used: set<nat>, n: nat, i: nat) {
    i <= n && (i < n ==> i !in used) && forall j :: 0 <= j < i ==> j in used
  }

  lemma AllOnes(k: nat)
    requires k < 8
    ensures 0xFF & BitMask(k) != 0
  {
  }

  // BIT_SET on the bitmap.
  method SetBit(bitmap: array<bv8>, i: nat, n: nat)
    requires i / 8 < bitmap.Length && n <= 8 * bitmap.Length
    modifies bitmap
    ensures UsedPages(bitmap[..], n) == old(UsedPages(bitmap[..], n)) + if i < n then {i} else {}
  {
    ghost var before := bitmap[..];
    bitmap[i / 8] := ByteSet(bitmap[i / 8], i % 8);
    forall j | 0 <= j < n
      ensures BitTest(bitmap[..], j) <==> i == j || BitTest(before, j)
    {
      ByteSetBit(before[i / 8], i % 8, j % 8);
      SamePage(i, j);
    }
  }

  // BIT_CLEAR on the bitmap.
  method ClearBit(bitmap: array<bv8>, i: nat, n: nat)
    requires i / 8 < bitmap.Length && n <= 8 * bitmap.Length
    modifies bitmap
    ensures UsedPages(bitmap[..], n) == old(UsedPages(bitmap[..], n)) - {i}
  {
    ghost var before := bitmap[..];
    bitmap[i / 8] := ByteClear(bitmap[i / 8], i % 8);
    forall j | 0 <= j < n
      ensures BitTest(bitmap[..], j) <==> i != j && BitTest(before, j)
    {
      ByteClearBit(before[i / 8], i % 8, j % 8);
      SamePage(i, j);
    }
  }

  class PageAllocator {
    var bitmap: array<bv8>
    var managedBase: nat
    var totalPages: nat

    ghost predicate Valid()
      reads this
    {
      totalPages <= 8 * bitmap.Length
    }

    ghost function Used(): set<nat>
      requires Valid()
      reads this, bitmap
    {
      UsedPages(bitmap[..], totalPages)
    }

    // init_pmm on the biggest usable region: every bit is set, then the bits of
    // the pages behind the bitmap itself stay set and all others are cleared.
    constructor (base: nat, length: nat)
      ensures Valid() && fresh(bitmap)
      ensures managedBase == base && totalPages == length / PAGE_SIZE
      ensures bitmap.Length == (totalPages + 7) / 8
      // A page is reserved exactly when a byte of the bitmap lies in it.
      ensures forall i :: i in Used() <==> 0 <= i < totalPages && i * PAGE_SIZE < bitmap.Length
    {
      managedBase := base;
      totalPages := length / PAGE_SIZE;
      var size := (length / PAGE_SIZE + 7) / 8;
      bitmap := new bv8[size];
      new;
      for i := 0 to size
        invariant forall j :: 0 <= j < i ==> bitmap[j] == 0xFF
        modifies bitmap
      {
        bitmap[i] := 0xFF;
      }
      forall j | 0 <= j < totalPages
        ensures j in Used()
      {
        AllOnes(j % 8);
      }
      var usedPages := (size + PAGE_SIZE - 1) / PAGE_SIZE;
      for i := usedPages to totalPages
        invariant forall j :: j in Used() <==> 0 <= j < totalPages && (j < usedPages || i <= j)
        modifies bitmap
      {
        ghost var before := Used();
        ClearBit(bitmap, i, totalPages);
        assert Used() == before - {i};
      }
    }

    // pmm_alloc_page. A zero result is the source's failure value.
    method AllocPage() returns (physical: nat, ghost index: nat)
      requires Valid()
      modifies bitmap
      ensures Valid()
      ensures IsFirstFree(old(Used()), totalPages, index)
      ensures index < totalPages ==>
        physical == managedBase + index * PAGE_SIZE && Used() == old(Used()) + {index}
      ensures index == totalPages ==> physical == 0 && Used() == old(Used())
    {
      for i := 0 to totalPages
        invariant unchanged(bitmap)
        invariant forall j :: 0 <= j < i ==> j in old(Used())
      {
        if !BitTest(bitmap[..], i) {
          SetBit(bitmap, i, totalPages);
          return managedBase + i * PAGE_SIZE, i;
        }
      }
      return 0, totalPages;
    }

    // pmm_free_page. Addresses outside the managed region are ignored.
    method FreePage(physical: nat)
      requires Valid()
      modifies bitmap
      ensures Valid()
      ensures Used() == if physical < managedBase then old(Used())
                        else old(Used()) - {(physical - managedBase) / PAGE_SIZE}
    {
      if physical < managedBase {
        return;
      }
      var i := (physical - managedBase) / PAGE_SIZE;
      if i < totalPages {
        ClearBit(bitmap, i, totalPages);
      }
    }
  }
}
