// The slab allocator as a function on values: src/klibc/kmem/slab.c
module Slab {
  import opened Bits
  import opened Lists

  const PAGE: nat := 4096        // PAGE_SIZE_SLAB
  const SLAB_HEADER: nat := 40   // sizeof(slab_t)
  const WORD: nat := 0x1_0000_0000_0000_0000  // SIZE_MAX + 1

  // ----- geometry of a slab page

  // (v + (a - 1)) & ~(a - 1) for the power of two a == Pow2(k).
  function AlignUp(v: nat, k: nat): nat {
    Shr(v + (Pow2(k) - 1), k) * Pow2(k)
  }

  // The same in size_t.
  function AlignUpWord(v: nat, k: nat): nat {
    Shr(InWord(v + (Pow2(k) - 1)), k) * Pow2(k)
  }

  function InWord(x: nat): nat {
    x % WORD
  }

  // Rounding up a size is exact if and only if it does not wrap; a size above that
  // comes out as 0, by which slab_cache_create then divides.
  lemma AlignUpWraps(v: nat, k: nat)
    requires 0 < v < WORD && k <= 12
    ensures AlignUpWord(v, k) == AlignUp(v, k) <==> v <= WORD - Pow2(k)
    ensures v > WORD - Pow2(k) ==> AlignUpWord(v, k) == 0
  {
    var a := Pow2(k);
    PowInPage(k);
    AlignUpFacts(v, k);
    hide Pow2, AlignUp, AlignUpWord, InWord;
    RoundingWraps(v, a);
    if v > WORD - a {
      WrappedRounding(v, k);
    } else {
      SameRounding(v, k);
    }
  }

  lemma SameRounding(v: nat, k: nat)
    requires InWord(v + (Pow2(k) - 1)) == v + (Pow2(k) - 1)
    ensures AlignUpWord(v, k) == AlignUp(v, k)
  {
    hide Pow2, Shr, InWord;
  }

  lemma WrappedRounding(v: nat, k: nat)
    requires InWord(v + (Pow2(k) - 1)) < Pow2(k)
    ensures AlignUpWord(v, k) == 0
  {
    hide Pow2, InWord;
    ShrSmall(InWord(v + (Pow2(k) - 1)), k);
  }

  lemma PowInPage(k: nat)
    requires k <= 12
    ensures Pow2(k) <= PAGE
  {
    Pow2Add(k, 12 - k);
    AtLeast(Pow2(k), Pow2(12 - k));
    assert Pow2(12) == PAGE;
  }

  lemma RoundingWraps(v: nat, a: nat)
    requires 0 < v < WORD && 0 < a <= PAGE
    ensures InWord(v + (a - 1)) == if v <= WORD - a then v + (a - 1) else v + (a - 1) - WORD
  {
  }

  lemma ShrSmall(w: nat, k: nat)
    requires w < Pow2(k)
    ensures Shr(w, k) == 0
  {
    ShrIsDivision(w, k);
    DivModUnique(w, Pow2(k), 0, w);
  }

  // A size that does not wrap.
  lemma SizeFacts(v: nat, k: nat)
    requires 0 < v <= WORD - Pow2(k) && k <= 12
    ensures v <= AlignUpWord(v, k) < v + Pow2(k) && AlignUpWord(v, k) % Pow2(k) == 0
  {
    hide AlignUp, AlignUpWord;
    AlignUpWraps(v, k);
    AlignUpFacts(v, k);
  }

  lemma AlignUpFacts(v: nat, k: nat)
    ensures v <= AlignUp(v, k) < v + Pow2(k)
    ensures AlignUp(v, k) % Pow2(k) == 0
  {
    var a := Pow2(k);
    ShrIsDivision(v + (a - 1), k);
    FloorMultiple(v + (a - 1), a);
  }

  lemma FloorMultiple(x: nat, a: nat)
    requires a > 0
    ensures x / a * a <= x < x / a * a + a && x / a * a % a == 0
  {
    var q := x / a;
    assert x == a * q + x % a;
    assert q * a == a * q;
    DivModUnique(q * a, a, q, 0);
  }

  // What slab_cache_create stores: object size, offset of the first object and
  // objects per slab, for the requested size and the alignment Pow2(k).
  datatype Geometry = Geometry(size: nat, first: nat, count: nat)

  function Quotient(x: nat, d: nat): nat
    requires d > 0
  {
    x / d
  }

  function MakeGeometry(objectSize: nat, k: nat): Geometry
    requires 0 < objectSize <= WORD - Pow2(k) && 3 <= k <= 12
  {
    var size := AlignUpWord(objectSize, k);
    var first := AlignUp(AlignUp(SLAB_HEADER, 3), k);
    assert 0 < size && first <= PAGE by {
      SizeFacts(objectSize, k);
      FirstFitsPage(k);
    }
    Geometry(size, first, Quotient(PAGE - first, size))
  }

  lemma FirstFitsPage(k: nat)
    requires 3 <= k <= 12
    ensures SLAB_HEADER <= AlignUp(AlignUp(SLAB_HEADER, 3), k) <= PAGE
    ensures AlignUp(AlignUp(SLAB_HEADER, 3), k) < SLAB_HEADER + Pow2(k)
  {
    var eight := AlignUp(SLAB_HEADER, 3);
    assert Pow2(3) == 8;
    AlignUpFacts(SLAB_HEADER, 3);
    assert eight == SLAB_HEADER;
    AlignUpFacts(eight, k);
    Pow2Add(k, 12 - k);
    assert Pow2(12) == PAGE;
    MultiplesApart(AlignUp(eight, k), Pow2(k), Pow2(12 - k));
  }

  // A multiple of a above a * c is at least a above it.
  lemma MultiplesApart(x: nat, a: nat, c: nat)
    requires a > 0 && x % a == 0
    ensures x <= a * c || x >= a * c + a
  {
    var q := x / a;
    assert x == a * q;
    Distribute(a, q, c);
    Distribute(a, c, q);
    if q > c {
      AtLeast(a, q - c);
    } else if q < c {
      AtLeast(a, c - q);
    }
  }

  ghost predicate GeometryOk(g: Geometry) {
    && g.size >= 8 && g.count > 0 && SLAB_HEADER <= g.first
    && g.first + g.count * g.size <= PAGE
  }

  function ObjectAt(g: Geometry, page: nat, i: nat): nat {
    page + g.first + i * g.size
  }

  // slab_from_object: the address with its page offset masked off.
  function SlabOf(addr: nat): nat {
    addr / PAGE * PAGE
  }

  ghost predicate IsObject(g: Geometry, page: nat, a: nat) {
    exists i :: 0 <= i < g.count && a == ObjectAt(g, page, i)
  }

  lemma QuotientFits(x: nat, d: nat)
    requires d > 0
    ensures Quotient(x, d) * d <= x
    ensures Quotient(x, d) > 0 <==> d <= x
    ensures (Quotient(x, d) + 1) * d > x
  {
    assert (x / d + 1) * d == x / d * d + d;
  }

  // slab_cache_create accepts a size that does not wrap if and only if one object
  // fits behind the header. A slab then has as many objects as fit, so the
  // zero-object exit of slab_init is never taken.
  lemma AcceptedGeometry(objectSize: nat, k: nat)
    requires 0 < objectSize <= WORD - Pow2(k) && 3 <= k <= 12
    ensures var g := MakeGeometry(objectSize, k);
      && objectSize <= g.size < objectSize + Pow2(k) && g.size % Pow2(k) == 0 && g.first % Pow2(k) == 0
      && (g.count > 0 <==> g.first + g.size <= PAGE)
      && (g.count > 0 ==> GeometryOk(g))
      && g.first + (g.count + 1) * g.size > PAGE
      && SLAB_HEADER <= g.first < SLAB_HEADER + Pow2(k)
  {
    hide AlignUp, AlignUpWord, Quotient;
    var g := MakeGeometry(objectSize, k);
    SizeFacts(objectSize, k);
    AlignUpFacts(AlignUp(SLAB_HEADER, 3), k);
    FirstFitsPage(k);
    WordsFit(g.size, k);
    CountFits(g.first, g.size);
  }

  lemma WordsFit(size: nat, k: nat)
    requires k >= 3 && 0 < size && size % Pow2(k) == 0
    ensures size >= 8
  {
    Pow2Add(3, k - 3);
    assert Pow2(3) == 8;
    AtLeast(8, Pow2(k - 3));
    MultiplesApart(size, Pow2(k), 0);
  }

  lemma CountFits(first: nat, size: nat)
    requires first <= PAGE && size > 0
    ensures var count := Quotient(PAGE - first, size);
      && first + count * size <= PAGE < first + (count + 1) * size
      && (count > 0 <==> first + size <= PAGE)
  {
    hide Quotient;
    QuotientFits(PAGE - first, size);
  }

  lemma StepMonotone(size: nat, i: nat, j: nat)
    requires i < j
    ensures i * size + size <= j * size
  {
    Distribute(size, j, i);
    AtLeast(size, j - i);
  }

  // An object lies in its page behind the header, and masking recovers the page.
  lemma ObjectInPage(g: Geometry, page: nat, i: nat)
    requires GeometryOk(g) && page % PAGE == 0 && i < g.count
    ensures page + SLAB_HEADER <= ObjectAt(g, page, i)
    ensures ObjectAt(g, page, i) + g.size <= page + PAGE
    ensures SlabOf(ObjectAt(g, page, i)) == page
  {
    StepMonotone(g.size, i, g.count);
  }

  lemma PagesApart(page: nat, other: nat)
    requires page % PAGE == 0 && other % PAGE == 0 && page != other
    ensures page + PAGE <= other || other + PAGE <= page
  {
  }

  lemma ObjectsDisjoint(g: Geometry, page: nat, i: nat, other: nat, j: nat)
    requires GeometryOk(g) && page % PAGE == 0 && other % PAGE == 0 && i < g.count && j < g.count
    requires page != other || i != j
    ensures var a, b := ObjectAt(g, page, i), ObjectAt(g, other, j);
      a + g.size <= b || b + g.size <= a
  {
    hide GeometryOk, SlabOf;
    ObjectInPage(g, page, i);
    ObjectInPage(g, other, j);
    if page != other {
      PagesApart(page, other);
    } else {
      if i < j {
        StepMonotone(g.size, i, j);
      } else {
        StepMonotone(g.size, j, i);
      }
    }
  }

  lemma SumOfMultiples(a: nat, x: nat, y: nat)
    requires a > 0 && x % a == 0 && y % a == 0
    ensures (x + y) % a == 0
  {
    var p, q := x / a, y / a;
    assert x == a * p && y == a * q;
    assert a * (p + q) == a * p + a * q;
    DivModUnique(x + y, a, p + q, 0);
  }

  lemma ProductOfMultiple(a: nat, x: nat, i: nat)
    requires a > 0 && x % a == 0
    ensures (i * x) % a == 0
  {
    var p := x / a;
    assert x == a * p;
    assert i * (a * p) == a * (i * p);
    DivModUnique(i * x, a, i * p, 0);
  }

  lemma PageIsMultiple(k: nat, page: nat)
    requires k <= 12 && page % PAGE == 0
    ensures page % Pow2(k) == 0
  {
    var a := Pow2(k);
    Pow2Add(k, 12 - k);
    assert Pow2(12) == PAGE;
    DivModUnique(PAGE, a, Pow2(12 - k), 0);
    var n := page / PAGE;
    assert page == n * PAGE;
    ProductOfMultiple(a, PAGE, n);
  }

  lemma SumAligned(a: nat, page: nat, first: nat, size: nat, i: nat)
    requires a > 0 && page % a == 0 && first % a == 0 && size % a == 0
    ensures (page + first + i * size) % a == 0
  {
    SumOfMultiples(a, page, first);
    ProductOfMultiple(a, size, i);
    SumOfMultiples(a, page + first, i * size);
  }

  // Objects are aligned as asked for, for every power of two up to a page.
  lemma ObjectAligned(objectSize: nat, k: nat, page: nat, i: nat)
    requires 0 < objectSize <= WORD - Pow2(k) && 3 <= k <= 12 && page % PAGE == 0
    ensures ObjectAt(MakeGeometry(objectSize, k), page, i) % Pow2(k) == 0
  {
    AcceptedGeometry(objectSize, k);
    PageIsMultiple(k, page);
    var g := MakeGeometry(objectSize, k);
    SumAligned(Pow2(k), page, g.first, g.size, i);
  }

  // ----- the state of a cache

  // partial and full in list order; for every slab its free chain, head first.
  // The list empty is never filled by the code, so it is not part of the state.
  datatype State = State(g: Geometry, partial: seq<nat>, full: seq<nat>, chains: map<nat, seq<nat>>)

  // The chain is acyclic and holds objects of its slab only.
  ghost predicate ChainOk(g: Geometry, page: nat, chain: seq<nat>) {
    NoDup(chain) && forall a :: a in chain ==> IsObject(g, page, a)
  }

  ghost predicate Inv(s: State) {
    && GeometryOk(s.g)
    && NoDup(s.partial + s.full)
    && (forall p :: p in s.chains <==> p in s.partial + s.full)
    && (forall p :: p in s.chains ==> p % PAGE == 0 && p > 0 && ChainOk(s.g, p, s.chains[p]))
    && (forall p :: p in s.partial ==> s.chains[p] != [])
    && (forall p :: p in s.full ==> s.chains[p] == [])
  }

  // With two or more objects to a slab, no slab is wholly free.
  ghost predicate NoIdleSlab(s: State) {
    s.g.count >= 2 ==> forall p :: p in s.chains ==> |s.chains[p]| < s.g.count
  }

  // a is handed out: an object of some slab that is not on the slab's chain.
  ghost predicate IsLive(s: State, a: nat) {
    SlabOf(a) in s.chains && IsObject(s.g, SlabOf(a), a) && a !in s.chains[SlabOf(a)]
  }

  // ----- operations

  // slab_init threads the chain so that the last object is its head.
  function FreshChain(g: Geometry, page: nat, n: nat): (r: seq<nat>)
    ensures |r| == n
  {
    if n == 0 then [] else [ObjectAt(g, page, n - 1)] + FreshChain(g, page, n - 1)
  }

  datatype Result = Object(address: nat) | Fallback

  // A page from pmm_alloc_page is added as the only partial slab.
  ghost function AddSlab(s: State, page: nat): State {
    s.(partial := [page] + s.partial, chains := s.chains[page := FreshChain(s.g, page, s.g.count)])
  }

  // Takes the head object of the first partial slab.
  ghost function Pop(s: State): (State, Result) {
    if s.partial == [] || s.partial[0] !in s.chains || s.chains[s.partial[0]] == [] then (s, Fallback)
    else
      var p := s.partial[0];
      var rest := s.chains[p][1..];
      var s1 := s.(chains := s.chains[p := rest]);
      (if rest == [] then s1.(partial := s.partial[1..], full := [p] + s.full) else s1,
       Object(s.chains[p][0]))
  }

  // slab_alloc; page is what pmm_alloc_page would return, 0 for none.
  ghost function Alloc(s: State, page: nat): (State, Result) {
    if s.partial != [] then Pop(s)
    else if page == 0 then (s, Fallback)
    else Pop(AddSlab(s, page))
  }

  // slab_free on an object of a slab.
  ghost function Free(s: State, a: nat): State {
    var p := SlabOf(a);
    if p !in s.chains then s
    else
      var chain := [a] + s.chains[p];
      var s1 := s.(chains := s.chains[p := chain]);
      if s.chains[p] == [] then s1.(full := Without(s.full, p), partial := [p] + s.partial)
      else if |chain| == s.g.count then s.(partial := Without(s.partial, p), chains := s.chains - {p})
      else s1
  }

  // ----- slab_init and lists

  lemma {:induction false} FreshChainAt(g: Geometry, page: nat, n: nat, i: nat)
    requires i < n
    ensures FreshChain(g, page, n)[i] == ObjectAt(g, page, n - 1 - i)
  {
    if i > 0 {
      FreshChainAt(g, page, n - 1, i - 1);
    }
  }

  lemma FreshChainOk(g: Geometry, page: nat)
    requires GeometryOk(g) && page % PAGE == 0
    ensures ChainOk(g, page, FreshChain(g, page, g.count))
    ensures forall a :: IsObject(g, page, a) ==> a in FreshChain(g, page, g.count)
  {
    var c := FreshChain(g, page, g.count);
    forall i, j | 0 <= i < j < |c|
      ensures c[i] != c[j]
    {
      FreshChainAt(g, page, g.count, i);
      FreshChainAt(g, page, g.count, j);
      ObjectsDisjoint(g, page, g.count - 1 - i, page, g.count - 1 - j);
    }
    forall a | a in c
      ensures IsObject(g, page, a)
    {
      var i :| 0 <= i < |c| && c[i] == a;
      FreshChainAt(g, page, g.count, i);
    }
    forall a | IsObject(g, page, a)
      ensures a in c
    {
      var i :| 0 <= i < g.count && a == ObjectAt(g, page, i);
      FreshChainAt(g, page, g.count, g.count - 1 - i);
      assert c[g.count - 1 - i] == a;
    }
  }

  // From the head on each object lies one size below the one before it, and the
  // last one right behind the header.
  lemma FreshChainOrder(g: Geometry, page: nat, i: nat)
    requires GeometryOk(g) && i < g.count
    ensures var c := FreshChain(g, page, g.count);
      if i + 1 < g.count then c[i] == c[i + 1] + g.size else c[i] == page + g.first
  {
    hide FreshChain;
    FreshChainAt(g, page, g.count, i);
    if i + 1 < g.count {
      FreshChainAt(g, page, g.count, i + 1);
      Distribute(g.size, g.count - 1 - i, g.count - 2 - i);
    }
  }

  // ----- slab_alloc and slab_free keep the invariant

  lemma AddSlabKeepsInv(s: State, page: nat)
    requires Inv(s) && s.partial == [] && page % PAGE == 0 && page > 0 && page !in s.chains
    ensures Inv(AddSlab(s, page))
    ensures forall a :: IsLive(AddSlab(s, page), a) <==> IsLive(s, a)
  {
    FreshChainOk(s.g, page);
    var s1 := AddSlab(s, page);
    assert s1.partial + s1.full == [page] + (s.partial + s.full);
    forall p | p in s1.partial + s1.full
      ensures p in s1.chains
    {
      assert p == page || p in s.partial + s.full;
    }
  }

  lemma TailOk(g: Geometry, page: nat, chain: seq<nat>)
    requires chain != [] && ChainOk(g, page, chain)
    ensures ChainOk(g, page, chain[1..])
    ensures forall a :: a in chain[1..] <==> a in chain && a != chain[0]
  {
    forall a | a in chain[1..]
      ensures a != chain[0]
    {
      var i :| 0 <= i < |chain[1..]| && chain[1..][i] == a;
      assert chain[i + 1] == a;
    }
  }

  // Only the popped object becomes live.
  lemma PopLive(s: State, p: nat, a: nat)
    requires Inv(s) && p in s.chains && s.chains[p] != []
    ensures !IsLive(s, s.chains[p][0]) && IsObject(s.g, p, s.chains[p][0])
    ensures IsLive(s.(chains := s.chains[p := s.chains[p][1..]]), a) <==> IsLive(s, a) || a == s.chains[p][0]
  {
    var chain := s.chains[p];
    TailOk(s.g, p, chain);
    assert IsObject(s.g, p, chain[0]);
    ObjectInSlab(s.g, p, chain[0]);
  }

  // A slab's chain gets shorter but not empty.
  lemma ShortenKeepsInv(s: State, p: nat)
    requires Inv(s) && p in s.partial && |s.chains[p]| > 1
    ensures Inv(s.(chains := s.chains[p := s.chains[p][1..]]))
  {
    assert p in s.partial + s.full;
    TailOk(s.g, p, s.chains[p]);
    forall x | x in s.full
      ensures x != p
    {
      ListsApart(s, p, x);
    }
  }

  lemma ListsApart(s: State, p: nat, f: nat)
    requires NoDup(s.partial + s.full) && p in s.partial && f in s.full
    ensures p != f
  {
    var q := s.partial + s.full;
    var i :| 0 <= i < |s.partial| && s.partial[i] == p;
    var j :| 0 <= j < |s.full| && s.full[j] == f;
    assert q[i] == p && q[|s.partial| + j] == f;
  }

  // The first partial slab gives its last object and moves to full.
  lemma FillKeepsInv(s: State)
    requires Inv(s) && s.partial != [] && |s.chains[s.partial[0]]| == 1
    ensures var p := s.partial[0];
      Inv(State(s.g, s.partial[1..], [p] + s.full, s.chains[p := []]))
  {
    var p := s.partial[0];
    assert p in s.partial + s.full;
    MoveKeepsNoDup(s.partial, s.full);
    forall x
      ensures x in s.partial[1..] + ([p] + s.full) <==> x in s.partial + s.full
    {
      MoveKeepsMembers(s.partial, s.full, x);
    }
    forall x | x in s.partial[1..]
      ensures x != p
    {
      var i :| 0 <= i < |s.partial[1..]| && s.partial[1..][i] == x;
      var q := s.partial + s.full;
      assert q[0] == p && q[i + 1] == x;
    }
  }

  lemma PopFacts(s: State)
    requires Inv(s) && s.partial != []
    ensures var (s1, r) := Pop(s);
      && Inv(s1) && r.Object? && s1.g == s.g && IsObject(s.g, s.partial[0], r.address)
      && SlabOf(r.address) == s.partial[0] && s1.chains.Keys == s.chains.Keys
      && !IsLive(s, r.address) && (forall a :: IsLive(s1, a) <==> IsLive(s, a) || a == r.address)
  {
    var p := s.partial[0];
    assert p in s.partial + s.full;
    var chain := s.chains[p];
    var (s1, r) := Pop(s);
    if |chain| == 1 {
      assert chain[1..] == [];
      FillKeepsInv(s);
    } else {
      ShortenKeepsInv(s, p);
    }
    PopLive(s, p, r.address);
    ObjectInSlab(s.g, p, r.address);
    forall a
      ensures IsLive(s1, a) <==> IsLive(s, a) || a == r.address
    {
      PopLive(s, p, a);
      assert IsLive(s1, a) <==> IsLive(s.(chains := s.chains[p := chain[1..]]), a);
    }
  }

  lemma PopKeepsNoIdle(s: State, page: nat)
    requires Inv(s) && s.partial != [] && page == s.partial[0]
    requires s.g.count >= 2 ==> forall p :: p in s.chains && p != page ==> |s.chains[p]| < s.g.count
    ensures NoIdleSlab(Pop(s).0)
  {
    assert page in s.partial + s.full;
    ChainBound(s.g, page, s.chains[page]);
  }

  lemma ObjectInSlab(g: Geometry, page: nat, a: nat)
    requires GeometryOk(g) && page % PAGE == 0 && IsObject(g, page, a)
    ensures SlabOf(a) == page
  {
    var i :| 0 <= i < g.count && a == ObjectAt(g, page, i);
    ObjectInPage(g, page, i);
  }

  lemma MoveKeepsMembers(p: seq<nat>, f: seq<nat>, x: nat)
    requires p != []
    ensures x in p[1..] + ([p[0]] + f) <==> x in p + f
  {
    assert p == [p[0]] + p[1..];
  }

  lemma MoveKeepsNoDup(p: seq<nat>, f: seq<nat>)
    requires p != [] && NoDup(p + f)
    ensures NoDup(p[1..] + ([p[0]] + f))
  {
    var q, q1 := p + f, p[1..] + ([p[0]] + f);
    var n := |p| - 1;
    forall i, j | 0 <= i < j < |q1|
      ensures q1[i] != q1[j]
    {
      var i' := if i < n then i + 1 else if i == n then 0 else i;
      var j' := if j < n then j + 1 else if j == n then 0 else j;
      assert q1[i] == q[i'] && q1[j] == q[j'];
    }
  }

  // slab_alloc hands out an object that was not live, nothing else becomes live
  // or stops being so; it comes from the first partial slab, from a new page only
  // when there is none, and it falls back only with no free object and no page.
  lemma AllocFacts(s: State, page: nat)
    requires Inv(s) && NoIdleSlab(s)
    requires page != 0 ==> page % PAGE == 0 && page !in s.chains
    ensures var (s1, r) := Alloc(s, page);
      && Inv(s1) && NoIdleSlab(s1) && s1.g == s.g
      && (r.Fallback? <==> s.partial == [] && page == 0)
      && (r.Fallback? ==> s1 == s)
      && (r.Object? ==> !IsLive(s, r.address))
      && (r.Object? ==> forall a :: IsLive(s1, a) <==> IsLive(s, a) || a == r.address)
      && (s.partial != [] ==> s1.chains.Keys == s.chains.Keys && SlabOf(r.address) == s.partial[0])
      && (s.partial == [] && page != 0 ==>
           s1.chains.Keys == s.chains.Keys + {page} && SlabOf(r.address) == page)
  {
    hide NoDup, ChainOk, GeometryOk, IsLive, IsObject, Pop;
    if s.partial != [] {
      PopFacts(s);
      PopKeepsNoIdle(s, s.partial[0]);
    } else if page != 0 {
      AddSlabKeepsInv(s, page);
      PopFacts(AddSlab(s, page));
      PopKeepsNoIdle(AddSlab(s, page), page);
    }
  }

  // A chain has at most as many objects as a slab, and all of them if as many.
  lemma ChainBound(g: Geometry, page: nat, chain: seq<nat>)
    requires GeometryOk(g) && ChainOk(g, page, chain)
    ensures |chain| <= g.count
    ensures |chain| == g.count ==> forall a :: IsObject(g, page, a) ==> a in chain
  {
    var indices := Below(g.count);
    var taken := set i | 0 <= i < g.count && ObjectAt(g, page, i) in chain;
    ChainCount(g, page, chain);
    SubsetSize(taken, indices);
    if |chain| == g.count {
      SameSize(taken, indices);
      forall a | IsObject(g, page, a)
        ensures a in chain
      {
        var i :| 0 <= i < g.count && a == ObjectAt(g, page, i);
        assert i in indices;
      }
    }
  }

  ghost function Below(n: nat): (r: set<nat>)
    ensures |r| == n
    ensures forall i: nat :: i in r <==> i < n
  {
    if n == 0 then {} else Below(n - 1) + {n - 1}
  }

  lemma SubsetSize(a: set<nat>, b: set<nat>)
    requires a <= b
    ensures |a| <= |b|
  {
    assert |b| == |a| + |b - a|;
  }

  lemma SameSize(a: set<nat>, b: set<nat>)
    requires a <= b && |a| == |b|
    ensures a == b
  {
    assert |b| == |a| + |b - a|;
  }

  // A chain without repetition is as long as the set of its object numbers.
  lemma {:induction false} ChainCount(g: Geometry, page: nat, chain: seq<nat>)
    requires GeometryOk(g) && ChainOk(g, page, chain)
    ensures |set i | 0 <= i < g.count && ObjectAt(g, page, i) in chain| == |chain|
  {
    var taken := set i | 0 <= i < g.count && ObjectAt(g, page, i) in chain;
    if chain == [] {
      assert taken == {};
    } else {
      var rest := chain[1..];
      assert ChainOk(g, page, rest);
      ChainCount(g, page, rest);
      assert IsObject(g, page, chain[0]);
      var k :| 0 <= k < g.count && chain[0] == ObjectAt(g, page, k);
      var others := set i | 0 <= i < g.count && ObjectAt(g, page, i) in rest;
      forall i | 0 <= i < g.count && ObjectAt(g, page, i) == chain[0]
        ensures i == k
      {
        if i < k {
          StepMonotone(g.size, i, k);
        } else if k < i {
          StepMonotone(g.size, k, i);
        }
      }
      assert chain[0] !in rest;
      assert taken == others + {k};
    }
  }

  lemma ConsOk(s: State, a: nat)
    requires Inv(s) && IsLive(s, a)
    ensures var p := SlabOf(a); ChainOk(s.g, p, [a] + s.chains[p]) && p in s.partial + s.full
  {
    var p := SlabOf(a);
    var c := [a] + s.chains[p];
    forall i, j | 0 <= i < j < |c|
      ensures c[i] != c[j]
    {
      if i == 0 {
        assert c[j] in s.chains[p];
      }
    }
  }

  // Only the pushed object stops being live.
  lemma PushLive(s: State, a: nat, x: nat)
    requires Inv(s) && IsLive(s, a)
    ensures var p := SlabOf(a);
      IsLive(s.(chains := s.chains[p := [a] + s.chains[p]]), x) <==> IsLive(s, x) && x != a
  {
  }

  // A full slab gets a free object and becomes the first partial one.
  lemma UnfillKeepsInv(s: State, a: nat)
    requires Inv(s) && IsLive(s, a) && s.chains[SlabOf(a)] == []
    ensures Inv(Free(s, a))
  {
    var p := SlabOf(a);
    ConsOk(s, a);
    var s1 := Free(s, a);
    assert p !in s.partial;
    SplitNoDup(s.partial, s.full);
    WithoutFacts(s.full, p);
    var f := Without(s.full, p);
    ConsNoDup(p, s.partial);
    JoinNoDup([p] + s.partial, f);
    assert s1.partial + s1.full == [p] + s.partial + f;
  }

  // A wholly free slab leaves the partial list.
  lemma DropKeepsInv(s: State, p: nat)
    requires Inv(s) && p in s.partial
    ensures Inv(s.(partial := Without(s.partial, p), chains := s.chains - {p}))
  {
    SplitNoDup(s.partial, s.full);
    WithoutFacts(s.partial, p);
    var q := Without(s.partial, p);
    JoinNoDup(q, s.full);
    forall x
      ensures x in q + s.full <==> x in s.partial + s.full && x != p
    {
    }
  }

  // A slab's chain gets longer.
  lemma LengthenKeepsInv(s: State, a: nat)
    requires Inv(s) && IsLive(s, a) && s.chains[SlabOf(a)] != []
    ensures Inv(s.(chains := s.chains[SlabOf(a) := [a] + s.chains[SlabOf(a)]]))
  {
    ConsOk(s, a);
  }

  // slab_free takes back exactly the object, and gives up a slab that becomes
  // wholly free unless it holds a single object.
  lemma FreeFacts(s: State, a: nat)
    requires Inv(s) && NoIdleSlab(s) && IsLive(s, a)
    ensures var s1 := Free(s, a);
      && Inv(s1) && NoIdleSlab(s1) && s1.g == s.g
      && (forall x :: IsLive(s1, x) <==> IsLive(s, x) && x != a)
      && (SlabOf(a) in s1.chains <==> s.g.count == 1 || |s.chains[SlabOf(a)]| + 1 < s.g.count)
  {
    var p := SlabOf(a);
    var s1 := Free(s, a);
    var pushed := s.(chains := s.chains[p := [a] + s.chains[p]]);
    ConsOk(s, a);
    ChainBound(s.g, p, [a] + s.chains[p]);
    if s.chains[p] == [] {
      UnfillKeepsInv(s, a);
    } else {
      LengthenKeepsInv(s, a);
      if |s.chains[p]| + 1 == s.g.count {
        assert p in s.partial;
        DropKeepsInv(s, p);
      }
    }
    forall x
      ensures IsLive(s1, x) <==> IsLive(s, x) && x != a
    {
      PushLive(s, a, x);
      if p in s1.chains {
        assert IsLive(s1, x) <==> IsLive(pushed, x);
      }
    }
  }

  // Freeing the object just allocated gives back exactly the old state, unless
  // the allocation had to add a slab that holds a single object.
  lemma FreeUndoesAlloc(s: State, page: nat)
    requires Inv(s) && NoIdleSlab(s)
    requires page != 0 ==> page % PAGE == 0 && page !in s.chains
    requires Alloc(s, page).1.Object?
    ensures Free(Alloc(s, page).0, Alloc(s, page).1.address) == s <==> s.partial != [] || s.g.count >= 2
  {
    if s.partial != [] {
      FreeUndoesPop(s);
    } else {
      AddSlabKeepsInv(s, page);
      var s0 := AddSlab(s, page);
      var (s1, r) := Pop(s0);
      PopFacts(s0);
      ObjectInSlab(s.g, page, r.address);
      assert [r.address] + s0.chains[page][1..] == s0.chains[page];
      if s.g.count >= 2 {
        assert s0.chains[page][1..] != [];
        assert Free(s1, r.address).chains == s.chains;
      } else {
        assert s0.chains[page][1..] == [];
        assert page in Free(s1, r.address).chains;
      }
    }
  }

  lemma FreeUndoesPop(s: State)
    requires Inv(s) && NoIdleSlab(s) && s.partial != []
    ensures Free(Pop(s).0, Pop(s).1.address) == s
  {
    var p := s.partial[0];
    var (s1, r) := Pop(s);
    PopFacts(s);
    assert p in s.partial + s.full;
    ObjectInSlab(s.g, p, r.address);
    var chain := s.chains[p];
    assert [r.address] + chain[1..] == chain;
    assert s1.chains[p := chain] == s.chains;
    ChainBound(s.g, p, chain);
    if |chain| == 1 {
      assert chain[1..] == [];
      assert s.partial == [p] + s.partial[1..];
    }
  }

  // The object freed last is the next one handed out, if its slab was full or is
  // the first partial one and stays.
  lemma AllocTakesLastFreed(s: State, a: nat, page: nat)
    requires Inv(s) && IsLive(s, a)
    requires var c := s.chains[SlabOf(a)];
      c == [] || (s.partial != [] && s.partial[0] == SlabOf(a) && |c| + 1 < s.g.count)
    ensures Alloc(Free(s, a), page).1 == Object(a)
  {
  }

  // ----- runs

  datatype Op = AllocOp(page: nat) | FreeOp(address: nat)

  // pmm_alloc_page gives pages that are no slab; callers free what is live.
  ghost predicate OpOk(s: State, op: Op) {
    match op
    case AllocOp(page) => page != 0 ==> page % PAGE == 0 && page !in s.chains
    case FreeOp(a) => IsLive(s, a)
  }

  ghost function Step(s: State, op: Op): State {
    match op
    case AllocOp(page) => Alloc(s, page).0
    case FreeOp(a) => Free(s, a)
  }

  ghost predicate RunOk(s: State, ops: seq<Op>)
    decreases ops
  {
    ops != [] ==> OpOk(s, ops[0]) && RunOk(Step(s, ops[0]), ops[1..])
  }

  ghost function Run(s: State, ops: seq<Op>): State
    decreases ops
  {
    if ops == [] then s else Run(Step(s, ops[0]), ops[1..])
  }

  ghost function EmptyCache(g: Geometry): State {
    State(g, [], [], map[])
  }

  // Every state of every run of a new cache is well formed.
  lemma {:induction false} RunKeepsInv(s: State, ops: seq<Op>)
    requires Inv(s) && NoIdleSlab(s) && RunOk(s, ops)
    ensures Inv(Run(s, ops)) && NoIdleSlab(Run(s, ops)) && Run(s, ops).g == s.g
    decreases ops
  {
    if ops != [] {
      match ops[0] {
        case AllocOp(page) => AllocFacts(s, page);
        case FreeOp(a) => FreeFacts(s, a);
      }
      RunKeepsInv(Step(s, ops[0]), ops[1..]);
    }
  }

  // Live objects of one cache never overlap.
  lemma LiveObjectsDisjoint(s: State, a: nat, b: nat)
    requires Inv(s) && IsLive(s, a) && IsLive(s, b) && a != b
    ensures a + s.g.size <= b || b + s.g.size <= a
  {
    var i :| 0 <= i < s.g.count && a == ObjectAt(s.g, SlabOf(a), i);
    var j :| 0 <= j < s.g.count && b == ObjectAt(s.g, SlabOf(b), j);
    ObjectsDisjoint(s.g, SlabOf(a), i, SlabOf(b), j);
  }

  // Nor do live objects of two caches, as long as no page is a slab of both.
  lemma CachesDisjoint(s: State, t: State, a: nat, b: nat)
    requires Inv(s) && Inv(t) && s.chains.Keys !! t.chains.Keys
    requires IsLive(s, a) && IsLive(t, b)
    ensures a + s.g.size <= b || b + t.g.size <= a
  {
    hide NoDup, ChainOk;
    var i :| 0 <= i < s.g.count && a == ObjectAt(s.g, SlabOf(a), i);
    var j :| 0 <= j < t.g.count && b == ObjectAt(t.g, SlabOf(b), j);
    ObjectInPage(s.g, SlabOf(a), i);
    ObjectInPage(t.g, SlabOf(b), j);
    PagesApart(SlabOf(a), SlabOf(b));
  }
}
