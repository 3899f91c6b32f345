// Four-level page tables as a function on values:
// src/arch/x86_64/mem/vmm/vmm.c over src/arch/x86_64/mem/pmm/pmm.c
//
// A memory maps the physical address of a page to its 512 entries. The class
// Vmm.Pager runs the source's code on such a memory and is proved equal to the
// functions here.
module Paging {
  import opened Bits
  import opened Options

  const ENTRIES_PER_TABLE: nat := 512
  const PAGE_SIZE: nat := 0x1000
  const FRAMES: nat := 0x100_0000_0000  // PAGE_MASK keeps bits 12 to 51
  const VMM_PRESENT: nat := 1
  const VMM_WRITE: nat := 2

  // ----- entries and addresses

  // Bits 12 to 51 of a word, as a page frame number.
  function Frame(e: nat): nat {
    e / PAGE_SIZE % FRAMES
  }

  // e & PAGE_MASK
  function PageBits(e: nat): nat {
    Frame(e) * PAGE_SIZE
  }

  predicate Present(e: nat) {
    e % 2 == 1
  }

  // What walk stores for a new table, and what vmm_map stores for a page.
  function TableEntry(physical: nat): nat {
    Or(Or(PageBits(physical), VMM_PRESENT), VMM_WRITE)
  }

  function LeafEntry(physical: nat, flags: nat): nat {
    Or(Or(PageBits(physical), flags), VMM_PRESENT)
  }

  // PML4_INDEX, PDPT_INDEX, PD_INDEX and PT_INDEX of a virtual address.
  function Path(v: nat): seq<nat> {
    [v / 0x80_0000_0000 % 512, v / 0x4000_0000 % 512, v / 0x20_0000 % 512, v / 0x1000 % 512]
  }

  // Bits 12 to 47: the page a virtual address lies in.
  function VirtualPage(v: nat): nat {
    v / PAGE_SIZE % 0x10_0000_0000
  }

  predicate IsPath(p: seq<nat>) {
    forall i :: 0 <= i < |p| ==> p[i] < ENTRIES_PER_TABLE
  }

  // ----- memory

  type Memory = map<nat, seq<nat>>

  // The table reached from t by following p, while every entry is present.
  ghost function Reach(mem: Memory, t: nat, p: seq<nat>): (r: (bool, nat))
  {
    if p == [] then (true, t)
    else
      var (ok, parent) := Reach(mem, t, p[..|p| - 1]);
      var i := p[|p| - 1];
      if ok && parent in mem && i < |mem[parent]| && Present(mem[parent][i])
      then (true, PageBits(mem[parent][i])) else (false, 0)
  }

  // The last-level entry that p selects below t; 0 where a table is missing.
  ghost function Look(mem: Memory, t: nat, p: seq<nat>): nat
    decreases |p|
  {
    if p == [] || t !in mem || p[0] >= |mem[t]| then 0
    else if |p| == 1 then mem[t][p[0]]
    else if Present(mem[t][p[0]]) then Look(mem, PageBits(mem[t][p[0]]), p[1..])
    else 0
  }

  // ----- the state of the pager

  // What a table page is for: its level (4 is a root), and the entry that
  // points to it. Roots share their level-3 tables, so those have no parent.
  datatype Role = Role(level: nat, parent: nat, slot: nat)

  function ChildRole(r: Role, t: nat, i: nat): Role
    requires r.level > 0
  {
    Role(r.level - 1, if r.level == 4 then 0 else t, i)
  }

  // used, base and total describe the page bitmap; root is current_pml4.
  datatype State = State(mem: Memory, used: set<nat>, base: nat, total: nat, root: nat,
                         roles: map<nat, Role>)

  ghost predicate Managed(s: State, page: nat) {
    exists i :: 0 <= i < s.total && page == s.base + i * PAGE_SIZE
  }

  // Physical addresses fit 52 bits, the managed region is page aligned, and
  // page 0 is never handed out, as address 0 means failure.
  ghost predicate RegionOk(s: State) {
    && s.base % PAGE_SIZE == 0
    && s.base + s.total * PAGE_SIZE <= FRAMES * PAGE_SIZE
    && (s.base == 0 && s.total > 0 ==> 0 in s.used)
    && forall i :: 0 <= i < s.total ==> s.base + i * PAGE_SIZE in s.mem
  }

  // One present entry of an upper table leads to the one table made for it.
  ghost predicate EntryOk(s: State, t: nat, i: nat)
    requires t in s.roles && s.roles[t].level > 1 && t in s.mem && i < |s.mem[t]|
  {
    Present(s.mem[t][i]) ==>
      var c := PageBits(s.mem[t][i]);
      c in s.roles && s.roles[c] == ChildRole(s.roles[t], t, i)
  }

  ghost predicate TablesOk(s: State) {
    && (forall p :: p in s.mem ==> |s.mem[p]| == ENTRIES_PER_TABLE)
    && (forall t :: t in s.roles ==> t in s.mem && 1 <= s.roles[t].level <= 4 && PageBits(t) == t)
    && (forall t, i :: t in s.roles && s.roles[t].level > 1 && 0 <= i < ENTRIES_PER_TABLE ==> EntryOk(s, t, i))
    && s.root in s.roles && s.roles[s.root].level == 4
  }

  // A managed page that holds a table is marked used.
  ghost predicate TablesReserved(s: State) {
    forall i :: 0 <= i < s.total && s.base + i * PAGE_SIZE in s.roles ==> i in s.used
  }

  ghost predicate Inv(s: State) {
    RegionOk(s) && TablesOk(s) && TablesReserved(s)
  }

  // ----- operations; None is the source's halt on memory exhaustion

  function ZeroPage(): seq<nat> {
    seq(ENTRIES_PER_TABLE, _ => 0)
  }

  ghost function FirstFree(used: set<nat>, n: nat, from: nat): (i: nat)
    requires from <= n
    ensures from <= i <= n
    ensures forall j :: from <= j < i ==> j in used
    ensures i < n ==> i !in used
    decreases n - from
  {
    if from == n || from !in used then from else FirstFree(used, n, from + 1)
  }

  // alloc_table, the new page given the role r.
  ghost function AllocTable(s: State, r: Role): Option<(State, nat)> {
    var i := FirstFree(s.used, s.total, 0);
    if i == s.total then None
    else
      var p := s.base + i * PAGE_SIZE;
      if p == 0 then None
      else Some((s.(used := s.used + {i}, mem := s.mem[p := ZeroPage()], roles := s.roles[p := r]), p))
  }

  ghost function SetEntry(s: State, t: nat, i: nat, e: nat): State
    requires t in s.mem && i < |s.mem[t]|
  {
    var page: seq<nat> := s.mem[t][i := e];
    s.(mem := s.mem[t := page])
  }

  ghost predicate IsEntry(s: State, t: nat, i: nat) {
    t in s.mem && |s.mem[t]| == ENTRIES_PER_TABLE && i < ENTRIES_PER_TABLE
  }

  // One level of walk with create set.
  ghost function Ensure(s: State, t: nat, i: nat): Option<State>
    requires IsEntry(s, t, i) && t in s.roles && s.roles[t].level > 0
  {
    if Present(s.mem[t][i]) then Some(s)
    else match AllocTable(s, ChildRole(s.roles[t], t, i))
      case None => None
      case Some((s1, p)) => if IsEntry(s1, t, i) then Some(SetEntry(s1, t, i, TableEntry(p))) else None
  }

  // walk with create set, from table t down to the last level.
  ghost function Walk(s: State, t: nat, p: seq<nat>): Option<(State, nat)>
    requires p != []
    decreases |p|
  {
    if |p| == 1 then Some((s, t))
    else if IsEntry(s, t, p[0]) && t in s.roles && s.roles[t].level > 0 then
      match Ensure(s, t, p[0])
      case None => None
      case Some(s1) => if IsEntry(s1, t, p[0]) then Walk(s1, PageBits(s1.mem[t][p[0]]), p[1..]) else None
    else None
  }

  ghost function Map(s: State, v: nat, physical: nat, flags: nat): Option<State> {
    match Walk(s, s.root, Path(v))
    case None => None
    case Some((s1, t)) =>
      if IsEntry(s1, t, Path(v)[3]) then Some(SetEntry(s1, t, Path(v)[3], LeafEntry(physical, flags))) else None
  }

  ghost function Unmap(s: State, v: nat): State {
    var (found, t) := Reach(s.mem, s.root, Path(v)[..3]);
    if found && IsEntry(s, t, Path(v)[3]) && Present(s.mem[t][Path(v)[3]])
    then SetEntry(s, t, Path(v)[3], 0) else s
  }

  // vmm_resolve: 0 means unmapped.
  ghost function Resolve(s: State, root: nat, v: nat): nat {
    var e := Look(s.mem, root, Path(v));
    if Present(e) then Or(PageBits(e), v % PAGE_SIZE) else 0
  }

  ghost function UpperHalf(from: seq<nat>): seq<nat>
    requires |from| == ENTRIES_PER_TABLE
  {
    seq(ENTRIES_PER_TABLE, i requires 0 <= i < ENTRIES_PER_TABLE => if i < 256 then 0 else from[i])
  }

  ghost function CreateSpace(s: State): Option<(State, nat)> {
    match AllocTable(s, Role(4, 0, 0))
    case None => None
    case Some((s1, p)) =>
      if IsEntry(s, s.root, 0) then Some((s1.(mem := s1.mem[p := UpperHalf(s.mem[s.root])]), p)) else None
  }

  // ----- entry arithmetic

  lemma FrameOfOr(a: nat, b: nat)
    ensures Frame(Or(a, b)) == Or(Frame(a), Frame(b))
  {
    assert Pow2(12) == PAGE_SIZE;
    assert Pow2(40) == FRAMES by {
      Pow2Add(10, 10);
      Pow2Add(20, 20);
      assert Pow2(10) == 1024;
    }
    OrShift(a, b, 12);
    ShrIsDivision(a, 12);
    ShrIsDivision(b, 12);
    ShrIsDivision(Or(a, b), 12);
    OrLowBits(a / PAGE_SIZE, b / PAGE_SIZE, 40);
  }

  lemma PageBitsIdempotent(p: nat)
    ensures Frame(PageBits(p)) == Frame(p) && PageBits(PageBits(p)) == PageBits(p)
    ensures PageBits(p) % 2 == 0
  {
  }

  lemma TableEntryBits(p: nat)
    requires PageBits(p) == p
    ensures Present(TableEntry(p)) && PageBits(TableEntry(p)) == p
  {
    FrameOfOr(Or(p, 1), 2);
    FrameOfOr(p, 1);
    OrZero(Frame(p));
    OrHalves(p, 1);
    OrHalves(Or(p, 1), 2);
  }

  lemma OrFlag(a: nat)
    ensures Frame(Or(a, 1)) == Frame(a) && Present(Or(a, 1))
  {
    FrameOfOr(a, 1);
    OrZero(Frame(a));
    OrHalves(a, 1);
  }

  lemma LeafEntryBits(p: nat, f: nat)
    ensures Present(LeafEntry(p, f))
    ensures Frame(LeafEntry(p, f)) == Or(Frame(p), Frame(f))
  {
    PageBitsIdempotent(p);
    FrameOfOr(PageBits(p), f);
    OrFlag(Or(PageBits(p), f));
  }

  // Bit by bit: bits 12 to 51 of page, the bits of flags, and the present bit.
  ghost predicate HasBits(e: nat, page: nat, flags: nat) {
    forall k: nat :: Bit(e, k) <==> (12 <= k < 52 && Bit(page, k)) || Bit(flags, k) || k == 0
  }

  lemma PageBit(e: nat, k: nat)
    ensures Bit(PageBits(e), k) <==> 12 <= k < 52 && Bit(e, k)
  {
    assert Pow2(12) == PAGE_SIZE;
    assert Pow2(40) == FRAMES by {
      Pow2Add(10, 10);
      Pow2Add(20, 20);
      assert Pow2(10) == 1024;
    }
    ShrIsDivision(e, 12);
    UpBit(Frame(e), 12, k);
    hide Pow2, Bit, Shr;
    if k >= 12 {
      CutBit(Shr(e, 12), 40, Frame(e), k - 12);
      DownBit(e, 12, k - 12);
    }
  }

  lemma LeafEntryHasBits(p: nat, f: nat)
    ensures HasBits(LeafEntry(p, f), p, f)
  {
    hide Bit, Or, PageBits;
    forall k: nat
      ensures Bit(LeafEntry(p, f), k) <==> (12 <= k < 52 && Bit(p, k)) || Bit(f, k) || k == 0
    {
      OrBit(Or(PageBits(p), f), VMM_PRESENT, k);
      OrBit(PageBits(p), f, k);
      PageBit(p, k);
      FlagBit(k);
    }
  }

  lemma TableEntryHasBits(p: nat)
    ensures HasBits(TableEntry(p), p, VMM_WRITE)
  {
    hide Bit, Or, PageBits;
    forall k: nat
      ensures Bit(TableEntry(p), k) <==> (12 <= k < 52 && Bit(p, k)) || Bit(VMM_WRITE, k) || k == 0
    {
      OrBit(Or(PageBits(p), VMM_PRESENT), VMM_WRITE, k);
      OrBit(PageBits(p), VMM_PRESENT, k);
      PageBit(p, k);
      FlagBit(k);
    }
  }

  // VMM_PRESENT is bit 0 and VMM_WRITE bit 1.
  lemma FlagBit(k: nat)
    ensures Bit(VMM_PRESENT, k) <==> k == 0
    ensures Bit(VMM_WRITE, k) <==> k == 1
  {
    Pow2Bit(0, k);
    Pow2Bit(1, k);
    assert Pow2(1) == 2;
  }

  lemma PathIsPath(v: nat)
    ensures IsPath(Path(v)) && |Path(v)| == 4
  {
  }

  // Bits 12 to 47 are the four indices read as digits in base 512.
  lemma PageDigits(v: nat)
    ensures VirtualPage(v) == ((Path(v)[0] * 512 + Path(v)[1]) * 512 + Path(v)[2]) * 512 + Path(v)[3]
  {
    var n := v / 0x1000;
    SplitDivision(v, 0x1000, 512);
    SplitDivision(v, 0x20_0000, 512);
    SplitDivision(v, 0x4000_0000, 512);
    SplitDivision(n, 512, 0x800_0000);
    SplitDivision(n / 512, 512, 0x4_0000);
    SplitDivision(n / 512 / 512, 512, 512);
  }

  lemma SameDigits(a: nat, b: nat, c: nat, d: nat)
    requires b < 512 && d < 512
    ensures a * 512 + b == c * 512 + d <==> a == c && b == d
  {
  }

  // The four indices and bits 12 to 47 identify the same page.
  lemma PathIsPage(v: nat, w: nat)
    ensures Path(v) == Path(w) <==> VirtualPage(v) == VirtualPage(w)
  {
    PageDigits(v);
    PageDigits(w);
    var p, q := Path(v), Path(w);
    SameDigits((p[0] * 512 + p[1]) * 512 + p[2], p[3], (q[0] * 512 + q[1]) * 512 + q[2], q[3]);
    SameDigits(p[0] * 512 + p[1], p[2], q[0] * 512 + q[1], q[2]);
    SameDigits(p[0], p[1], q[0], q[1]);
  }

  // ----- allocation gives a page that is no table yet

  lemma AllocIsFresh(s: State, r: Role)
    requires Inv(s) && AllocTable(s, r).Some?
    ensures var p := AllocTable(s, r).value.1;
      p in s.mem && p !in s.roles && p != 0 && PageBits(p) == p && Managed(s, p)
  {
    var i := FirstFree(s.used, s.total, 0);
    var p := s.base + i * PAGE_SIZE;
    assert p in s.mem;
    assert p % PAGE_SIZE == 0 && p / PAGE_SIZE < FRAMES;
  }

  // ----- one new level

  // Entries that adding a table must not touch: present ones and page entries.
  ghost predicate Kept(s: State, t: nat, i: nat) {
    IsEntry(s, t, i) && t in s.roles && (Present(s.mem[t][i]) || s.roles[t].level <= 1)
  }

  // What a step that only adds tables keeps.
  ghost predicate Grows(s: State, s1: State) {
    && s1.base == s.base && s1.total == s.total && s1.root == s.root
    && s.used <= s1.used
    && (forall t :: t in s.roles ==> t in s1.roles && s1.roles[t] == s.roles[t])
    && (forall t, i: nat :: Kept(s, t, i) && IsEntry(s1, t, i) ==> s1.mem[t][i] == s.mem[t][i])
  }

  // What every table resolves to is unchanged.
  ghost predicate SameLook(s: State, s1: State) {
    forall t, p :: t in s.roles && s.roles[t].level == |p| ==> Look(s1.mem, t, p) == Look(s.mem, t, p)
  }

  lemma AllocReserved(s: State, r: Role)
    requires Inv(s) && AllocTable(s, r).Some?
    ensures RegionOk(AllocTable(s, r).value.0) && TablesReserved(AllocTable(s, r).value.0)
  {
    hide FirstFree, Managed;
    var (s1, p) := AllocTable(s, r).value;
    forall i | 0 <= i < s1.total && s1.base + i * PAGE_SIZE in s1.roles
      ensures i in s1.used
    {
      if s1.base + i * PAGE_SIZE != p {
        assert s.base + i * PAGE_SIZE in s.roles;
      }
    }
  }

  lemma AllocKeepsInv(s: State, r: Role)
    requires Inv(s) && 1 <= r.level <= 4 && AllocTable(s, r).Some?
    ensures Inv(AllocTable(s, r).value.0)
    ensures Grows(s, AllocTable(s, r).value.0)
  {
    hide Managed, FirstFree, RegionOk, TablesReserved;
    AllocIsFresh(s, r);
    AllocReserved(s, r);
    var (s1, p) := AllocTable(s, r).value;
    forall t, i | t in s1.roles && s1.roles[t].level > 1 && 0 <= i < ENTRIES_PER_TABLE
      ensures EntryOk(s1, t, i)
    {
      if t != p {
        assert EntryOk(s, t, i);
      }
    }
  }

  lemma LinkKeepsInv(s: State, t: nat, i: nat, p: nat)
    requires Inv(s) && t in s.roles && s.roles[t].level > 1 && i < ENTRIES_PER_TABLE
    requires !Present(s.mem[t][i]) && p in s.roles && s.roles[p] == ChildRole(s.roles[t], t, i)
    ensures var s1 := SetEntry(s, t, i, TableEntry(p));
      && Inv(s1) && Grows(s, s1)
      && IsEntry(s1, t, i) && Present(s1.mem[t][i]) && PageBits(s1.mem[t][i]) == p
  {
    TableEntryBits(p);
    var e := TableEntry(p);
    var s1 := SetEntry(s, t, i, e);
    assert s1.mem[t][i] == e;
    forall t', i' | t' in s1.roles && s1.roles[t'].level > 1 && 0 <= i' < ENTRIES_PER_TABLE
      ensures EntryOk(s1, t', i')
    {
      assert EntryOk(s, t', i');
      if t' == t && i' == i {
        assert s1.mem[t'][i'] == e;
      } else {
        assert s1.mem[t'][i'] == s.mem[t'][i'];
      }
    }
  }

  lemma EnsureKeepsInv(s: State, t: nat, i: nat)
    requires Inv(s) && t in s.roles && s.roles[t].level > 1 && i < ENTRIES_PER_TABLE
    requires Ensure(s, t, i).Some?
    ensures var s1 := Ensure(s, t, i).value;
      && Inv(s1) && Grows(s, s1)
      && IsEntry(s1, t, i) && Present(s1.mem[t][i])
      && var c := PageBits(s1.mem[t][i]);
         c in s1.roles && s1.roles[c] == ChildRole(s.roles[t], t, i)
  {
    if Present(s.mem[t][i]) {
      assert EntryOk(s, t, i);
    } else {
      var r := ChildRole(s.roles[t], t, i);
      AllocIsFresh(s, r);
      AllocKeepsInv(s, r);
      var (s1, p) := AllocTable(s, r).value;
      assert s1.mem[t] == s.mem[t];
      LinkKeepsInv(s1, t, i, p);
    }
  }

  lemma {:induction false} ZeroLooksEmpty(mem: Memory, t: nat, p: seq<nat>)
    requires t in mem && mem[t] == ZeroPage()
    ensures Look(mem, t, p) == 0
  {
  }

  lemma {:induction false} NewTableIsInvisible(s: State, s1: State, t: nat, i: nat, n: nat, x: nat, p: seq<nat>)
    requires Inv(s) && IsEntry(s, t, i) && !Present(s.mem[t][i])
    requires t in s.roles && s.roles[t].level > 1
    requires n !in s.roles && n in s.mem && PageBits(n) == n
    requires s1.mem == s.mem[n := ZeroPage()][t := s.mem[t][i := TableEntry(n)]]
    requires x in s.roles && s.roles[x].level == |p|
    ensures Look(s1.mem, x, p) == Look(s.mem, x, p)
    decreases |p|
  {
    TableEntryBits(n);
    var e := TableEntry(n);
    assert x != n;
    if p[0] >= ENTRIES_PER_TABLE || |p| == 1 {
      assert x == t ==> p[0] >= ENTRIES_PER_TABLE;
    } else if x == t && p[0] == i {
      assert s1.mem[x][p[0]] == e;
      ZeroLooksEmpty(s1.mem, n, p[1..]);
    } else {
      assert s1.mem[x][p[0]] == s.mem[x][p[0]];
      if Present(s.mem[x][p[0]]) {
        assert EntryOk(s, x, p[0]);
        NewTableIsInvisible(s, s1, t, i, n, PageBits(s.mem[x][p[0]]), p[1..]);
      }
    }
  }

  lemma EnsureSameLook(s: State, t: nat, i: nat)
    requires Inv(s) && t in s.roles && s.roles[t].level > 1 && i < ENTRIES_PER_TABLE
    requires Ensure(s, t, i).Some?
    ensures SameLook(s, Ensure(s, t, i).value)
  {
    if !Present(s.mem[t][i]) {
      var r := ChildRole(s.roles[t], t, i);
      AllocIsFresh(s, r);
      var s1 := Ensure(s, t, i).value;
      forall x, p | x in s.roles && s.roles[x].level == |p|
        ensures Look(s1.mem, x, p) == Look(s.mem, x, p)
      {
        NewTableIsInvisible(s, s1, t, i, AllocTable(s, r).value.1, x, p);
      }
    }
  }

  // ----- the walk

  lemma GrowsTransitive(s: State, s1: State, s2: State)
    requires Inv(s) && Inv(s1) && Inv(s2)
    requires Grows(s, s1) && SameLook(s, s1) && Grows(s1, s2) && SameLook(s1, s2)
    ensures Grows(s, s2) && SameLook(s, s2)
  {
    forall t, i: nat | Kept(s, t, i) && IsEntry(s2, t, i)
      ensures s2.mem[t][i] == s.mem[t][i]
    {
      assert Kept(s1, t, i);
    }
    forall x, q | x in s.roles && s.roles[x].level == |q|
      ensures Look(s2.mem, x, q) == Look(s.mem, x, q)
    {
      assert Look(s1.mem, x, q) == Look(s.mem, x, q);
    }
  }

  lemma ReachThrough(s: State, s1: State, t: nat, p: seq<nat>, pt: nat)
    requires Inv(s) && Inv(s1) && Grows(s, s1) && t in s.roles
    requires |p| >= 2 && IsEntry(s, t, p[0]) && Present(s.mem[t][p[0]])
    requires Reach(s1.mem, PageBits(s.mem[t][p[0]]), p[1..][..|p| - 2]) == (true, pt)
    ensures Reach(s1.mem, t, p[..|p| - 1]) == (true, pt)
  {
    assert Kept(s, t, p[0]);
    assert s1.mem[t][p[0]] == s.mem[t][p[0]];
    assert p[1..][..|p| - 2] == p[..|p| - 1][1..];
    ReachFromFront(s1.mem, t, p[..|p| - 1]);
  }

  // walk keeps the invariant and the meaning of every table, and returns the
  // last-level table that the path now leads to.
  lemma {:induction false} WalkFacts(s: State, t: nat, p: seq<nat>)
    requires Inv(s) && t in s.roles && s.roles[t].level == |p| && IsPath(p)
    requires Walk(s, t, p).Some?
    ensures var (s1, pt) := Walk(s, t, p).value;
      && Inv(s1) && Grows(s, s1) && SameLook(s, s1)
      && Reach(s1.mem, t, p[..|p| - 1]) == (true, pt)
      && pt in s1.roles && s1.roles[pt].level == 1
    decreases |p|
  {
    if |p| == 1 {
      assert p[..0] == [];
    } else {
      var s1 := Ensure(s, t, p[0]).value;
      EnsureKeepsInv(s, t, p[0]);
      EnsureSameLook(s, t, p[0]);
      var c := PageBits(s1.mem[t][p[0]]);
      WalkFacts(s1, c, p[1..]);
      var (s2, pt) := Walk(s1, c, p[1..]).value;
      GrowsTransitive(s, s1, s2);
      ReachThrough(s1, s2, t, p, pt);
    }
  }

  lemma {:induction false} ReachFromFront(mem: Memory, t: nat, p: seq<nat>)
    requires p != []
    ensures Reach(mem, t, p) ==
            if t in mem && p[0] < |mem[t]| && Present(mem[t][p[0]])
            then Reach(mem, PageBits(mem[t][p[0]]), p[1..]) else (false, 0)
    decreases |p|
  {
    if |p| > 1 {
      var q := p[..|p| - 1];
      ReachFromFront(mem, t, q);
      assert q[1..] == p[1..][..|p[1..]| - 1];
    } else {
      assert p[..0] == [];
    }
  }

  // ----- separation

  lemma {:induction false} ReachRole(s: State, root: nat, p: seq<nat>)
    requires Inv(s) && root in s.roles && s.roles[root].level == 4
    requires |p| <= 3 && Reach(s.mem, root, p).0
    ensures var t := Reach(s.mem, root, p).1;
      && t in s.roles && s.roles[t].level == 4 - |p|
      && (|p| > 0 ==> s.roles[t].slot == p[|p| - 1])
      && (|p| > 1 ==> s.roles[t].parent == Reach(s.mem, root, p[..|p| - 1]).1)
  {
    if |p| > 0 {
      var q := p[..|p| - 1];
      ReachRole(s, root, q);
      var u := Reach(s.mem, root, q).1;
      assert EntryOk(s, u, p[|p| - 1]);
    }
  }

  // Two walks, from one root or from two, meet in a table only if they follow
  // the same indices: below a root every table has exactly one parent entry.
  lemma {:induction false} OneParentEntry(s: State, r1: nat, p: seq<nat>, r2: nat, q: seq<nat>)
    requires Inv(s)
    requires r1 in s.roles && s.roles[r1].level == 4 && |p| <= 3
    requires r2 in s.roles && s.roles[r2].level == 4 && |q| <= 3
    requires Reach(s.mem, r1, p).0 && Reach(s.mem, r2, q) == Reach(s.mem, r1, p)
    ensures p == q
    decreases |p|
  {
    ReachRole(s, r1, p);
    ReachRole(s, r2, q);
    if |p| > 1 {
      OneParentEntry(s, r1, p[..|p| - 1], r2, q[..|q| - 1]);
      assert p == p[..|p| - 1] + [p[|p| - 1]];
      assert q == q[..|q| - 1] + [q[|q| - 1]];
    }
  }

  // ----- storing a page entry

  lemma PageEntryKeepsInv(s: State, t: nat, i: nat, e: nat)
    requires Inv(s) && t in s.roles && s.roles[t].level == 1 && i < ENTRIES_PER_TABLE
    ensures Inv(SetEntry(s, t, i, e))
  {
    var s1 := SetEntry(s, t, i, e);
    forall t', i' | t' in s1.roles && s1.roles[t'].level > 1 && 0 <= i' < ENTRIES_PER_TABLE
      ensures EntryOk(s1, t', i')
    {
      assert EntryOk(s, t', i');
    }
  }

  lemma {:induction false} PageEntryLook(s: State, t: nat, i: nat, e: nat, x: nat, q: seq<nat>)
    requires Inv(s) && t in s.roles && s.roles[t].level == 1 && i < ENTRIES_PER_TABLE
    requires x in s.roles && s.roles[x].level == |q|
    ensures Look(SetEntry(s, t, i, e).mem, x, q) ==
            if Reach(s.mem, x, q[..|q| - 1]) == (true, t) && q[|q| - 1] == i then e else Look(s.mem, x, q)
    decreases |q|
  {
    var s1 := SetEntry(s, t, i, e);
    if |q| == 1 {
      assert q[..0] == [];
    } else {
      assert x != t;
      ReachFromFront(s.mem, x, q[..|q| - 1]);
      if q[0] < ENTRIES_PER_TABLE && Present(s.mem[x][q[0]]) {
        assert EntryOk(s, x, q[0]);
        var c := PageBits(s.mem[x][q[0]]);
        PageEntryLook(s, t, i, e, c, q[1..]);
        assert q[..|q| - 1][1..] == q[1..][..|q[1..]| - 1];
      }
    }
  }

  // ----- vmm_map and vmm_unmap as updates of a flat map

  // Both roots lead to one level-3 table at slot i.
  ghost predicate SameSubtree(s: State, a: nat, b: nat, i: nat) {
    IsEntry(s, a, i) && IsEntry(s, b, i) && Present(s.mem[a][i]) && Present(s.mem[b][i]) &&
    PageBits(s.mem[a][i]) == PageBits(s.mem[b][i])
  }

  lemma {:induction false} SameSubtreeReach(s: State, a: nat, b: nat, p: seq<nat>)
    requires Inv(s) && IsPath(p) && 1 <= |p| <= 3
    requires a in s.roles && s.roles[a].level == 4 && b in s.roles && s.roles[b].level == 4
    requires Reach(s.mem, b, p).0
    ensures Reach(s.mem, a, p) == Reach(s.mem, b, p) <==> SameSubtree(s, a, b, p[0])
  {
    ReachFromFront(s.mem, a, p);
    ReachFromFront(s.mem, b, p);
    assert IsEntry(s, a, p[0]) && IsEntry(s, b, p[0]);
    if Reach(s.mem, a, p) == Reach(s.mem, b, p) && !SameSubtree(s, a, b, p[0]) {
      SameTableSameFirst(s, a, b, p);
      assert false;
    }
  }

  lemma {:induction false} SameTableSameFirst(s: State, a: nat, b: nat, p: seq<nat>)
    requires Inv(s) && 1 <= |p| <= 3
    requires a in s.roles && s.roles[a].level == 4 && b in s.roles && s.roles[b].level == 4
    requires Reach(s.mem, b, p).0 && Reach(s.mem, a, p) == Reach(s.mem, b, p)
    ensures SameSubtree(s, a, b, p[0])
    decreases |p|
  {
    ReachRole(s, a, p);
    ReachRole(s, b, p);
    if |p| > 1 {
      SameTableSameFirst(s, a, b, p[..|p| - 1]);
    } else {
      assert p[..0] == [];
    }
  }

  // After a page entry is stored below the current root, exactly the spaces that
  // share the subtree see it, and they see it at exactly one virtual page.
  lemma StoreIsOneUpdate(s: State, v: nat, t: nat, e: nat, r: nat, q: seq<nat>)
    requires Inv(s) && Reach(s.mem, s.root, Path(v)[..3]) == (true, t)
    requires r in s.roles && s.roles[r].level == 4 && |q| == 4
    ensures t in s.roles && s.roles[t].level == 1
    ensures Look(SetEntry(s, t, Path(v)[3], e).mem, r, q) ==
            if q == Path(v) && SameSubtree(s, r, s.root, q[0]) then e else Look(s.mem, r, q)
  {
    var p := Path(v);
    PathIsPath(v);
    ReachRole(s, s.root, p[..3]);
    PageEntryLook(s, t, p[3], e, r, q);
    SameSubtreeReach(s, r, s.root, p[..3]);
    assert p == p[..3] + [p[3]] && q == q[..3] + [q[3]];
    if Reach(s.mem, r, q[..3]) == (true, t) {
      OneParentEntry(s, s.root, p[..3], r, q[..3]);
    }
  }

  lemma {:induction false} LookIsReach(mem: Memory, x: nat, q: seq<nat>)
    requires q != []
    ensures var (ok, t) := Reach(mem, x, q[..|q| - 1]);
      Look(mem, x, q) == if ok && t in mem && q[|q| - 1] < |mem[t]| then mem[t][q[|q| - 1]] else 0
    decreases |q|
  {
    if |q| == 1 {
      assert q[..0] == [];
    } else {
      ReachFromFront(mem, x, q[..|q| - 1]);
      if x in mem && q[0] < |mem[x]| && Present(mem[x][q[0]]) {
        LookIsReach(mem, PageBits(mem[x][q[0]]), q[1..]);
        assert q[..|q| - 1][1..] == q[1..][..|q[1..]| - 1];
      }
    }
  }

  // walk writes no table at or above its own level except the one it starts in.
  lemma {:induction false} WalkIsLocal(s: State, t: nat, p: seq<nat>, x: nat)
    requires Inv(s) && t in s.roles && s.roles[t].level == |p| && IsPath(p)
    requires Walk(s, t, p).Some?
    requires x in s.roles && s.roles[x].level >= |p| && x != t
    ensures var mem := Walk(s, t, p).value.0.mem;
      x in mem && x in s.mem && mem[x] == s.mem[x]
    decreases |p|
  {
    hide RegionOk, TablesReserved;
    WalkFacts(s, t, p);
    if |p| > 1 {
      var s1 := Ensure(s, t, p[0]).value;
      EnsureKeepsInv(s, t, p[0]);
      if !Present(s.mem[t][p[0]]) {
        AllocIsFresh(s, ChildRole(s.roles[t], t, p[0]));
      }
      assert s1.mem[x] == s.mem[x];
      WalkIsLocal(s1, PageBits(s1.mem[t][p[0]]), p[1..], x);
    }
  }

  // Tables stay tables, and present top-level entries never change.
  ghost predicate Extends(s: State, s1: State) {
    && (forall t :: t in s.roles ==> t in s1.roles && s1.roles[t] == s.roles[t])
    && (forall r, i: nat :: r in s.roles && s.roles[r].level == 4 && IsEntry(s, r, i) && Present(s.mem[r][i]) ==>
          IsEntry(s1, r, i) && s1.mem[r][i] == s.mem[r][i])
  }

  // What both updates do to the tables of address spaces.
  ghost predicate RootsKept(s: State, s1: State) {
    && s1.root == s.root && s1.base == s.base && s1.total == s.total
    && Extends(s, s1)
    && (forall r :: r in s.roles && s.roles[r].level == 4 && r != s.root ==>
          r in s.mem && r in s1.mem && s1.mem[r] == s.mem[r])
  }

  lemma MapIsOneUpdate(s: State, v: nat, physical: nat, flags: nat)
    requires Inv(s) && Map(s, v, physical, flags).Some?
    ensures var s1 := Map(s, v, physical, flags).value;
      && Inv(s1) && RootsKept(s, s1)
      && SameSubtree(s1, s.root, s.root, Path(v)[0])
      && forall r, q :: r in s.roles && s.roles[r].level == 4 && |q| == 4 ==>
           Look(s1.mem, r, q) ==
           if q == Path(v) && SameSubtree(s1, r, s.root, q[0]) then LeafEntry(physical, flags)
           else Look(s.mem, r, q)
  {
    var p := Path(v);
    PathIsPath(v);
    WalkFacts(s, s.root, p);
    var (s1, t) := Walk(s, s.root, p).value;
    var e := LeafEntry(physical, flags);
    var s2 := SetEntry(s1, t, p[3], e);
    PageEntryKeepsInv(s1, t, p[3], e);
    forall r | r in s.roles && s.roles[r].level == 4 && r != s.root
      ensures s2.mem[r] == s.mem[r]
    {
      WalkIsLocal(s, s.root, p, r);
    }
    forall r, i: nat | r in s.roles && s.roles[r].level == 4 && IsEntry(s, r, i) && Present(s.mem[r][i])
      ensures IsEntry(s2, r, i) && s2.mem[r][i] == s.mem[r][i]
    {
      assert Kept(s, r, i);
    }
    SameSubtreeReach(s1, s.root, s.root, p[..3]);
    forall r, q | r in s.roles && s.roles[r].level == 4 && |q| == 4
      ensures Look(s2.mem, r, q) ==
              if q == p && SameSubtree(s2, r, s.root, q[0]) then e else Look(s.mem, r, q)
    {
      StoreIsOneUpdate(s1, v, t, e, r, q);
      assert Look(s1.mem, r, q) == Look(s.mem, r, q);
      assert SameSubtree(s2, r, s.root, q[0]) <==> SameSubtree(s1, r, s.root, q[0]);
    }
  }

  // vmm_map is one update of the flat map from pages to entries, whichever of
  // the three lower tables it had to create, in the current space and in every
  // space that shares the subtree; no other space and no other page changes. The
  // entry has bits 12 to 51 of physical, the bits of flags and the present bit.
  lemma MapRefinesFlatMap(s: State, v: nat, physical: nat, flags: nat)
    requires Inv(s) && Map(s, v, physical, flags).Some?
    ensures var s1 := Map(s, v, physical, flags).value;
      && Inv(s1) && RootsKept(s, s1) && SameSubtree(s1, s.root, s.root, Path(v)[0])
      && HasBits(Look(s1.mem, s.root, Path(v)), physical, flags)
      && forall r, q :: r in s.roles && s.roles[r].level == 4 && |q| == 4 ==>
           if q == Path(v) && SameSubtree(s1, r, s.root, q[0]) then HasBits(Look(s1.mem, r, q), physical, flags)
           else Look(s1.mem, r, q) == Look(s.mem, r, q)
  {
    RootIsTable(s);
    hide Inv, RootsKept, HasBits, Path, Map;
    PathIsPath(v);
    MapIsOneUpdate(s, v, physical, flags);
    LeafEntryHasBits(physical, flags);
  }

  lemma RootIsTable(s: State)
    requires Inv(s)
    ensures s.root in s.roles && s.roles[s.root].level == 4
  {
  }

  // What walk leaves in a table entry it did not find: nothing, or a table with
  // the present and the write bit and no other flag.
  ghost predicate AsAdded(e: nat) {
    e == 0 || HasBits(e, PageBits(e), VMM_WRITE)
  }

  lemma {:induction false} WalkStores(s: State, t: nat, p: seq<nat>, u: nat, i: nat)
    requires Inv(s) && t in s.roles && s.roles[t].level == |p| && IsPath(p)
    requires Walk(s, t, p).Some? && u in Walk(s, t, p).value.0.roles && i < ENTRIES_PER_TABLE
    ensures var s1 := Walk(s, t, p).value.0;
      && IsEntry(s1, u, i)
      && (AsAdded(s1.mem[u][i]) || (u in s.roles && IsEntry(s, u, i) && s1.mem[u][i] == s.mem[u][i]))
    decreases |p|
  {
    hide HasBits;
    WalkFacts(s, t, p);
    if |p| > 1 {
      var s1 := Ensure(s, t, p[0]).value;
      EnsureKeepsInv(s, t, p[0]);
      WalkStores(s1, PageBits(s1.mem[t][p[0]]), p[1..], u, i);
      if u in s1.roles {
        EnsureStores(s, t, p[0], u, i);
      }
    }
  }

  lemma EnsureStores(s: State, t: nat, j: nat, u: nat, i: nat)
    requires Inv(s) && t in s.roles && s.roles[t].level > 1 && j < ENTRIES_PER_TABLE && i < ENTRIES_PER_TABLE
    requires Ensure(s, t, j).Some? && u in Ensure(s, t, j).value.roles
    ensures var s1 := Ensure(s, t, j).value;
      && IsEntry(s1, u, i)
      && (AsAdded(s1.mem[u][i]) || (u in s.roles && IsEntry(s, u, i) && s1.mem[u][i] == s.mem[u][i]))
  {
    hide HasBits;
    EnsureKeepsInv(s, t, j);
    if !Present(s.mem[t][j]) {
      var p := AllocTable(s, ChildRole(s.roles[t], t, j)).value.1;
      AllocIsFresh(s, ChildRole(s.roles[t], t, j));
      TableEntryHasBits(p);
      TableEntryBits(p);
    }
  }

  // vmm_unmap clears exactly the entry of v's page, and only if it was present.
  lemma UnmapRefinesFlatMap(s: State, v: nat)
    requires Inv(s)
    ensures var s1 := Unmap(s, v);
      && Inv(s1) && RootsKept(s, s1)
      && forall r, q :: r in s.roles && s.roles[r].level == 4 && |q| == 4 ==>
           Look(s1.mem, r, q) ==
           if q == Path(v) && SameSubtree(s, r, s.root, q[0]) && Present(Look(s.mem, r, q)) then 0
           else Look(s.mem, r, q)
  {
    hide RegionOk, TablesReserved, Path;
    var p := Path(v);
    PathIsPath(v);
    LookIsReach(s.mem, s.root, p);
    var (found, t) := Reach(s.mem, s.root, p[..3]);
    forall r, q | r in s.roles && s.roles[r].level == 4 && q == p && SameSubtree(s, r, s.root, q[0])
      ensures Look(s.mem, r, q) == Look(s.mem, s.root, p)
    {
    }
    if found {
      ReachRole(s, s.root, p[..3]);
      if Present(s.mem[t][p[3]]) {
        PageEntryKeepsInv(s, t, p[3], 0);
        forall r, q | r in s.roles && s.roles[r].level == 4 && |q| == 4
          ensures Look(Unmap(s, v).mem, r, q) ==
                  if q == p && SameSubtree(s, r, s.root, q[0]) && Present(Look(s.mem, r, q)) then 0
                  else Look(s.mem, r, q)
        {
          StoreIsOneUpdate(s, v, t, 0, r, q);
        }
      }
    }
  }

  // ----- when vmm_map halts

  ghost function FreePages(s: State): nat {
    |set i | 0 <= i < s.total && i !in s.used|
  }

  // How many tables walk has to create along p.
  ghost function MissingTables(mem: Memory, t: nat, p: seq<nat>): nat
    decreases |p|
  {
    if |p| <= 1 then 0
    else if t in mem && p[0] < |mem[t]| && Present(mem[t][p[0]])
    then MissingTables(mem, PageBits(mem[t][p[0]]), p[1..])
    else |p| - 1
  }

  lemma AllocTakesOnePage(s: State, r: Role)
    requires Inv(s)
    ensures AllocTable(s, r).None? <==> FreePages(s) == 0
    ensures AllocTable(s, r).Some? ==> FreePages(AllocTable(s, r).value.0) == FreePages(s) - 1
  {
    var free := set i | 0 <= i < s.total && i !in s.used;
    var i := FirstFree(s.used, s.total, 0);
    if i < s.total {
      assert i in free;
      if AllocTable(s, r).Some? {
        var s1 := AllocTable(s, r).value.0;
        assert (set j | 0 <= j < s1.total && j !in s1.used) == free - {i};
      }
    } else {
      assert free == {};
    }
  }

  // The machine halts exactly when the path misses more tables than pages are free.
  lemma {:induction false} WalkHaltsWhenFull(s: State, t: nat, p: seq<nat>)
    requires Inv(s) && t in s.roles && s.roles[t].level == |p| && IsPath(p)
    ensures Walk(s, t, p).None? <==> FreePages(s) < MissingTables(s.mem, t, p)
    decreases |p|
  {
    hide RegionOk, TablesReserved, EntryOk;
    if |p| > 1 {
      AllocTakesOnePage(s, ChildRole(s.roles[t], t, p[0]));
      if Ensure(s, t, p[0]).Some? {
        var s1 := Ensure(s, t, p[0]).value;
        EnsureKeepsInv(s, t, p[0]);
        var c := PageBits(s1.mem[t][p[0]]);
        WalkHaltsWhenFull(s1, c, p[1..]);
        if !Present(s.mem[t][p[0]]) {
          AllocIsFresh(s, ChildRole(s.roles[t], t, p[0]));
          TableEntryBits(AllocTable(s, ChildRole(s.roles[t], t, p[0])).value.1);
          assert s1.mem[c] == ZeroPage();
          assert MissingTables(s1.mem, c, p[1..]) == |p| - 2;
        }
      }
    }
  }

  // ----- vmm_resolve

  lemma PageAndOffset(e: nat, v: nat)
    ensures Or(PageBits(e), v % PAGE_SIZE) == PageBits(e) + v % PAGE_SIZE
  {
    assert Pow2(12) == PAGE_SIZE;
    OrDisjoint(Frame(e), v % PAGE_SIZE, 12);
  }

  // vmm_map(v, physical, flags) makes vmm_resolve give the physical page plus the
  // offset on the whole page of v if and only if flags sets no page bit that
  // physical lacks; addresses on other pages resolve as before.
  lemma MapThenResolve(s: State, v: nat, physical: nat, flags: nat, w: nat)
    requires Inv(s) && Map(s, v, physical, flags).Some?
    ensures var s1 := Map(s, v, physical, flags).value;
      && (VirtualPage(w) == VirtualPage(v) ==>
           (Resolve(s1, s1.root, w) == PageBits(physical) + w % PAGE_SIZE <==>
            Or(Frame(physical), Frame(flags)) == Frame(physical)))
      && (VirtualPage(w) != VirtualPage(v) ==> Resolve(s1, s1.root, w) == Resolve(s, s.root, w))
  {
    MapIsOneUpdate(s, v, physical, flags);
    PathIsPage(v, w);
    var s1 := Map(s, v, physical, flags).value;
    var e := LeafEntry(physical, flags);
    assert Look(s1.mem, s.root, Path(w)) == if Path(w) == Path(v) then e else Look(s.mem, s.root, Path(w));
    LeafEntryBits(physical, flags);
    PageAndOffset(e, w);
  }

  lemma FlagsOutsideMask(physical: nat, flags: nat)
    requires Frame(flags) == 0
    ensures Or(Frame(physical), Frame(flags)) == Frame(physical)
  {
    OrZero(Frame(physical));
  }

  lemma UnmapThenResolve(s: State, v: nat, w: nat)
    requires Inv(s)
    ensures var s1 := Unmap(s, v);
      Resolve(s1, s1.root, w) == if VirtualPage(w) == VirtualPage(v) then 0 else Resolve(s, s.root, w)
  {
    UnmapRefinesFlatMap(s, v);
    PathIsPage(v, w);
    PathIsPath(v);
    var s1 := Unmap(s, v);
    if Path(w) == Path(v) {
      var p := Path(v);
      LookIsReach(s.mem, s.root, p);
      if Reach(s.mem, s.root, p[..3]).0 {
        SameSubtreeReach(s, s.root, s.root, p[..3]);
      }
      assert !Present(Look(s1.mem, s.root, p));
    }
  }

  // ----- address spaces

  lemma CreateSpaceKeepsInv(s: State)
    requires Inv(s) && CreateSpace(s).Some?
    ensures var (s1, root) := CreateSpace(s).value;
      && Inv(s1) && root !in s.roles && root in s1.roles && s1.roles[root].level == 4
      && s1.root == s.root && s1.base == s.base && s1.total == s.total
      && root in s1.mem && s1.mem[root] == UpperHalf(s.mem[s.root])
      && forall t :: t in s.roles ==> t in s1.roles && s1.roles[t] == s.roles[t] && s1.mem[t] == s.mem[t]
  {
    var r := Role(4, 0, 0);
    AllocIsFresh(s, r);
    AllocKeepsInv(s, r);
    var (s0, root) := AllocTable(s, r).value;
    assert root in s0.roles && s0.roles[root] == r && root !in s.roles;
    assert forall t :: t in s.roles ==> t in s0.roles && s0.roles[t] == s.roles[t] && s0.mem[t] == s.mem[t];
    assert s0.root == s.root && s0.base == s.base && s0.total == s.total;
    hide AllocTable, Managed;
    RootCopyKeepsInv(s0, root);
  }

  // A new root that takes over the upper half of the current one.
  lemma RootCopyKeepsInv(s0: State, root: nat)
    requires Inv(s0) && root in s0.roles && s0.roles[root] == Role(4, 0, 0) && root != s0.root
    ensures IsEntry(s0, s0.root, 0)
    ensures Inv(s0.(mem := s0.mem[root := UpperHalf(s0.mem[s0.root])]))
  {
    var s1 := s0.(mem := s0.mem[root := UpperHalf(s0.mem[s0.root])]);
    forall t, i | t in s1.roles && s1.roles[t].level > 1 && 0 <= i < ENTRIES_PER_TABLE
      ensures EntryOk(s1, t, i)
    {
      assert EntryOk(s0, t, i);
      if t == root {
        assert EntryOk(s0, s0.root, i);
      }
    }
  }

  // create_address_space: the new root shares every upper-half entry with the
  // current one, maps no lower-half page, and changes no existing space.
  lemma CreateSpaceFacts(s: State)
    requires Inv(s) && CreateSpace(s).Some?
    ensures var (s1, root) := CreateSpace(s).value;
      && AgreeAbove(s1, root, s.root)
      && (forall q :: |q| == 4 ==> Look(s1.mem, root, q) == if q[0] < 256 then 0 else Look(s1.mem, s.root, q))
      && (forall r, q :: r in s.roles && s.roles[r].level == 4 && |q| == 4 ==>
            Look(s1.mem, r, q) == Look(s.mem, r, q))
  {
    CreateSpaceKeepsInv(s);
    var (s1, root) := CreateSpace(s).value;
    forall q: seq<nat> | |q| == 4
      ensures Look(s1.mem, root, q) == if q[0] < 256 then 0 else Look(s1.mem, s.root, q)
    {
      if q[0] < ENTRIES_PER_TABLE {
        assert s1.mem[root][q[0]] == if q[0] < 256 then 0 else s1.mem[s.root][q[0]];
      }
    }
    forall r, q | r in s.roles && s.roles[r].level == 4 && |q| == 4
      ensures Look(s1.mem, r, q) == Look(s.mem, r, q)
    {
      SameTablesSameLook(s, s1.mem, r, q);
    }
  }

  lemma {:induction false} SameTablesSameLook(s: State, mem: Memory, t: nat, q: seq<nat>)
    requires Inv(s) && (forall x :: x in s.roles ==> x in mem && mem[x] == s.mem[x])
    requires t in s.roles && s.roles[t].level == |q|
    ensures Look(mem, t, q) == Look(s.mem, t, q)
    decreases |q|
  {
    if |q| > 1 && q[0] < ENTRIES_PER_TABLE && Present(s.mem[t][q[0]]) {
      assert EntryOk(s, t, q[0]);
      SameTablesSameLook(s, mem, PageBits(s.mem[t][q[0]]), q[1..]);
    }
  }

  // The two roots hold the same upper-half entries.
  ghost predicate AgreeAbove(s: State, a: nat, b: nat) {
    forall i :: 256 <= i < ENTRIES_PER_TABLE ==>
      IsEntry(s, a, i) && IsEntry(s, b, i) && s.mem[a][i] == s.mem[b][i]
  }

  lemma AgreeingSpacesResolveAlike(s: State, a: nat, b: nat, v: nat)
    requires AgreeAbove(s, a, b) && Path(v)[0] >= 256
    ensures Resolve(s, a, v) == Resolve(s, b, v)
  {
    assert IsEntry(s, a, Path(v)[0]) && IsEntry(s, b, Path(v)[0]);
  }

  lemma WalkChangesRoot(s: State, v: nat)
    requires Inv(s) && Walk(s, s.root, Path(v)).Some?
    ensures var mem := Walk(s, s.root, Path(v)).value.0.mem;
      && s.root in mem && |mem[s.root]| == ENTRIES_PER_TABLE
      && Present(mem[s.root][Path(v)[0]])
      && forall i :: 0 <= i < ENTRIES_PER_TABLE && i != Path(v)[0] ==> mem[s.root][i] == s.mem[s.root][i]
  {
    hide RegionOk, TablesReserved, Path;
    var p := Path(v);
    PathIsPath(v);
    var s1 := Ensure(s, s.root, p[0]).value;
    EnsureKeepsInv(s, s.root, p[0]);
    if !Present(s.mem[s.root][p[0]]) {
      AllocIsFresh(s, ChildRole(s.roles[s.root], s.root, p[0]));
    }
    var c := PageBits(s1.mem[s.root][p[0]]);
    WalkIsLocal(s1, c, p[1..], s.root);
    WalkFacts(s1, c, p[1..]);
  }

  // Agreement of the current space with another one survives vmm_map exactly
  // when the address is in the lower half or its top-level slot was present.
  lemma MapAndAgreement(s: State, v: nat, physical: nat, flags: nat, other: nat)
    requires Inv(s) && other in s.roles && s.roles[other].level == 4 && other != s.root
    requires AgreeAbove(s, other, s.root)
    requires Map(s, v, physical, flags).Some?
    ensures AgreeAbove(Map(s, v, physical, flags).value, other, s.root) <==>
            Path(v)[0] < 256 || Present(s.mem[s.root][Path(v)[0]])
  {
    var s2 := Map(s, v, physical, flags).value;
    var (s1, t) := Walk(s, s.root, Path(v)).value;
    MapIsOneUpdate(s, v, physical, flags);
    WalkChangesRoot(s, v);
    PathIsPath(v);
    WalkFacts(s, s.root, Path(v));
    assert s2.mem[s.root] == s1.mem[s.root];
    var k := Path(v)[0];
    assert IsEntry(s, other, k) && IsEntry(s, s.root, k);
    if k < 256 || Present(s.mem[s.root][k]) {
      forall i | 256 <= i < ENTRIES_PER_TABLE
        ensures IsEntry(s2, other, i) && IsEntry(s2, s.root, i) && s2.mem[other][i] == s2.mem[s.root][i]
      {
        assert IsEntry(s, other, i) && s.mem[other][i] == s.mem[s.root][i];
        assert s2.mem[other] == s.mem[other];
      }
    } else {
      assert s.mem[other][k] == s.mem[s.root][k];
      assert s2.mem[other][k] == s.mem[other][k];
      assert Present(s2.mem[s.root][k]) && !Present(s2.mem[other][k]);
    }
  }

  // ----- runs

  datatype Op =
    | MapOp(v: nat, physical: nat, flags: nat)
    | UnmapOp(v: nat)
    | CreateOp
    | LoadOp(root: nat)
    | TakePageOp
    | GivePageOp(physical: nat)
    | WritePageOp(page: nat, words: seq<nat>)

  // The page of a physical address in the bitmap.
  function PageIndex(s: State, physical: nat): nat
    requires physical >= s.base
  {
    (physical - s.base) / PAGE_SIZE
  }

  // The page is managed, is not page 0 and holds no table.
  ghost predicate OtherPage(s: State, physical: nat) {
    && physical >= s.base && PageIndex(s, physical) < s.total
    && var page := s.base + PageIndex(s, physical) * PAGE_SIZE;
       page != 0 && page !in s.roles
  }

  // One call, by the pager or by another user of pages, who takes and gives back
  // pages and writes to those that hold no table; vmm_load_cr3 is called with the
  // root of an existing space.
  ghost function Step(s: State, op: Op): Option<State> {
    match op
    case MapOp(v, physical, flags) => Map(s, v, physical, flags)
    case UnmapOp(v) => Some(Unmap(s, v))
    case CreateOp => (match CreateSpace(s) case None => None case Some((s1, _)) => Some(s1))
    case LoadOp(root) =>
      var r := PageBits(root);
      if r in s.roles && s.roles[r].level == 4 then Some(s.(root := r)) else None
    case TakePageOp =>
      var i := FirstFree(s.used, s.total, 0);
      Some(if i < s.total then s.(used := s.used + {i}) else s)
    case GivePageOp(physical) =>
      if OtherPage(s, physical) then Some(s.(used := s.used - {PageIndex(s, physical)})) else None
    case WritePageOp(page, words) =>
      if page !in s.roles && |words| == ENTRIES_PER_TABLE then Some(s.(mem := s.mem[page := words])) else None
  }

  ghost function Run(s: State, ops: seq<Op>): Option<State>
    decreases ops
  {
    if ops == [] then Some(s)
    else match Step(s, ops[0])
      case None => None
      case Some(s1) => Run(s1, ops[1..])
  }

  lemma MapStep(s: State, v: nat, physical: nat, flags: nat)
    requires Inv(s) && Map(s, v, physical, flags).Some?
    ensures Inv(Map(s, v, physical, flags).value) && Extends(s, Map(s, v, physical, flags).value)
  {
    MapIsOneUpdate(s, v, physical, flags);
  }

  lemma UnmapStep(s: State, v: nat)
    requires Inv(s)
    ensures Inv(Unmap(s, v)) && Extends(s, Unmap(s, v))
  {
    UnmapRefinesFlatMap(s, v);
  }

  lemma CreateStep(s: State)
    requires Inv(s) && CreateSpace(s).Some?
    ensures Inv(CreateSpace(s).value.0) && Extends(s, CreateSpace(s).value.0)
  {
    CreateSpaceKeepsInv(s);
  }

  lemma LoadStep(s: State, root: nat)
    requires Inv(s) && root in s.roles && s.roles[root].level == 4
    ensures Inv(s.(root := root)) && Extends(s, s.(root := root))
  {
    var s1 := s.(root := root);
    forall t, i | t in s1.roles && s1.roles[t].level > 1 && 0 <= i < ENTRIES_PER_TABLE
      ensures EntryOk(s1, t, i)
    {
      assert EntryOk(s, t, i);
    }
  }

  // What another user of pages does leaves every table alone.
  lemma OtherStep(s: State, s1: State)
    requires Inv(s) && RegionOk(s1) && TablesReserved(s1)
    requires s1.roles == s.roles && s1.root == s.root
    requires forall p :: p in s1.mem ==> |s1.mem[p]| == ENTRIES_PER_TABLE
    requires forall t :: t in s.roles ==> t in s1.mem && t in s.mem && s1.mem[t] == s.mem[t]
    ensures Inv(s1) && Extends(s, s1)
  {
    forall t, i | t in s1.roles && s1.roles[t].level > 1 && 0 <= i < ENTRIES_PER_TABLE
      ensures EntryOk(s1, t, i)
    {
      assert EntryOk(s, t, i);
    }
  }

  lemma GiveReserved(s: State, physical: nat)
    requires Inv(s) && OtherPage(s, physical)
    ensures var s1 := s.(used := s.used - {PageIndex(s, physical)});
      RegionOk(s1) && TablesReserved(s1)
  {
    hide TablesOk;
    var s1 := s.(used := s.used - {PageIndex(s, physical)});
    forall i | 0 <= i < s1.total && s1.base + i * PAGE_SIZE in s1.roles
      ensures i in s1.used
    {
      assert s.base + i * PAGE_SIZE in s.roles;
    }
  }

  lemma TakeReserved(s: State, i: nat)
    requires Inv(s)
    ensures RegionOk(s.(used := s.used + {i})) && TablesReserved(s.(used := s.used + {i}))
  {
    var s1 := s.(used := s.used + {i});
    forall j | 0 <= j < s1.total && s1.base + j * PAGE_SIZE in s1.roles
      ensures j in s1.used
    {
      assert s.base + j * PAGE_SIZE in s.roles;
    }
  }

  lemma OtherUsers(s: State, op: Op)
    requires Inv(s) && (op.TakePageOp? || op.GivePageOp? || op.WritePageOp?) && Step(s, op).Some?
    ensures Inv(Step(s, op).value) && Extends(s, Step(s, op).value)
    ensures var mem := Step(s, op).value.mem;
      forall t :: t in s.roles ==> t in mem && t in s.mem && mem[t] == s.mem[t]
  {
    var s1 := Step(s, op).value;
    if op.TakePageOp? {
      TakeReserved(s, FirstFree(s.used, s.total, 0));
    } else if op.GivePageOp? {
      GiveReserved(s, op.physical);
    }
    OtherStep(s, s1);
  }

  lemma StepFacts(s: State, op: Op)
    requires Inv(s) && Step(s, op).Some?
    ensures Inv(Step(s, op).value) && Extends(s, Step(s, op).value)
  {
    match op
    case MapOp(v, physical, flags) => MapStep(s, v, physical, flags);
    case UnmapOp(v) => UnmapStep(s, v);
    case CreateOp => CreateStep(s);
    case LoadOp(root) => LoadStep(s, PageBits(root));
    case _ => OtherUsers(s, op);
  }

  // Separation over every run, with other users of pages in between.
  lemma {:induction false} RunKeepsInv(s: State, ops: seq<Op>)
    requires Inv(s) && Run(s, ops).Some?
    ensures Inv(Run(s, ops).value)
    decreases ops
  {
    if ops != [] {
      StepFacts(s, ops[0]);
      RunKeepsInv(Step(s, ops[0]).value, ops[1..]);
    }
  }

  // The top-level slots two spaces share stay shared whatever is run: kernel
  // mappings made later through either space are seen by both.
  lemma {:induction false} SharedSlotsStayShared(s: State, ops: seq<Op>, a: nat, b: nat, i: nat, v: nat)
    requires Inv(s) && Run(s, ops).Some?
    requires a in s.roles && s.roles[a].level == 4 && b in s.roles && s.roles[b].level == 4
    requires IsEntry(s, a, i) && IsEntry(s, b, i) && Present(s.mem[a][i]) && s.mem[a][i] == s.mem[b][i]
    requires Path(v)[0] == i
    ensures Resolve(Run(s, ops).value, a, v) == Resolve(Run(s, ops).value, b, v)
    decreases ops
  {
    if ops != [] {
      StepFacts(s, ops[0]);
      SharedSlotsStayShared(Step(s, ops[0]).value, ops[1..], a, b, i, v);
    }
  }

  // A run that maps only lower-half addresses and upper-half addresses whose
  // top-level slot is in the given set.
  ghost predicate StaysWithin(ops: seq<Op>, slots: set<nat>) {
    forall k :: 0 <= k < |ops| && ops[k].MapOp? ==> Path(ops[k].v)[0] < 256 || Path(ops[k].v)[0] in slots
  }

  ghost function PresentAbove(s: State, r: nat): set<nat>
    requires IsEntry(s, r, 0)
  {
    set i | 256 <= i < ENTRIES_PER_TABLE && Present(s.mem[r][i])
  }

  lemma StepKeepsAgreement(s: State, op: Op, a: nat, b: nat, slots: set<nat>)
    requires Inv(s) && Step(s, op).Some?
    requires a in s.roles && s.roles[a].level == 4 && b in s.roles && s.roles[b].level == 4 && a != b
    requires AgreeAbove(s, a, b) && slots <= PresentAbove(s, a)
    requires StaysWithin([op], slots)
    ensures AgreeAbove(Step(s, op).value, a, b)
  {
    var s1 := Step(s, op).value;
    match op
    case MapOp(v, physical, flags) =>
      assert [op][0] == op;
      if s.root == a || s.root == b {
        var other := if s.root == a then b else a;
        assert AgreeAbove(s, other, s.root);
        if Path(v)[0] >= 256 {
          assert Path(v)[0] in PresentAbove(s, a);
          assert IsEntry(s, a, Path(v)[0]) && IsEntry(s, b, Path(v)[0]);
        }
        MapAndAgreement(s, v, physical, flags, other);
        assert AgreeAbove(s1, other, s.root);
      } else {
        MapIsOneUpdate(s, v, physical, flags);
        assert s1.mem[a] == s.mem[a] && s1.mem[b] == s.mem[b];
        forall i | 256 <= i < ENTRIES_PER_TABLE
          ensures IsEntry(s1, a, i) && IsEntry(s1, b, i) && s1.mem[a][i] == s1.mem[b][i]
        {
          assert IsEntry(s, a, i) && s.mem[a][i] == s.mem[b][i];
        }
      }
    case UnmapOp(v) =>
      UnmapKeepsRoots(s, v, a);
      UnmapKeepsRoots(s, v, b);
      forall i | 256 <= i < ENTRIES_PER_TABLE
        ensures IsEntry(s1, a, i) && IsEntry(s1, b, i) && s1.mem[a][i] == s1.mem[b][i]
      {
        assert IsEntry(s, a, i) && s.mem[a][i] == s.mem[b][i];
      }
    case CreateOp =>
      CreateSpaceKeepsInv(s);
      forall i | 256 <= i < ENTRIES_PER_TABLE
        ensures IsEntry(s1, a, i) && IsEntry(s1, b, i) && s1.mem[a][i] == s1.mem[b][i]
      {
        assert IsEntry(s, a, i) && s.mem[a][i] == s.mem[b][i];
      }
    case _ =>
      if !op.LoadOp? {
        OtherUsers(s, op);
      }
      forall i | 256 <= i < ENTRIES_PER_TABLE
        ensures IsEntry(s1, a, i) && IsEntry(s1, b, i) && s1.mem[a][i] == s1.mem[b][i]
      {
        assert IsEntry(s, a, i) && s.mem[a][i] == s.mem[b][i];
      }
  }

  lemma UnmapKeepsRoots(s: State, v: nat, r: nat)
    requires Inv(s) && r in s.roles && s.roles[r].level == 4
    ensures r in Unmap(s, v).mem && Unmap(s, v).mem[r] == s.mem[r]
  {
    PathIsPath(v);
    if Reach(s.mem, s.root, Path(v)[..3]).0 {
      ReachRole(s, s.root, Path(v)[..3]);
    }
  }

  // Full upper-half agreement over every run that stays within the slots present
  // at the start; by CreateSpaceFacts it holds right after create_address_space.
  lemma {:induction false} RunKeepsAgreement(s: State, ops: seq<Op>, a: nat, b: nat, slots: set<nat>)
    requires Inv(s) && Run(s, ops).Some?
    requires a in s.roles && s.roles[a].level == 4 && b in s.roles && s.roles[b].level == 4 && a != b
    requires AgreeAbove(s, a, b) && slots <= PresentAbove(s, a)
    requires StaysWithin(ops, slots)
    ensures AgreeAbove(Run(s, ops).value, a, b)
    decreases ops
  {
    if ops != [] {
      var s1 := Step(s, ops[0]).value;
      StepFacts(s, ops[0]);
      assert StaysWithin([ops[0]], slots);
      StepKeepsAgreement(s, ops[0], a, b, slots);
      forall i | i in slots
        ensures i in PresentAbove(s1, a)
      {
        assert IsEntry(s, a, i);
      }
      RunKeepsAgreement(s1, ops[1..], a, b, slots);
    }
  }

  // vmm_map halts exactly when its path misses more tables than pages are free.
  lemma MapHaltsWhenFull(s: State, v: nat, physical: nat, flags: nat)
    requires Inv(s)
    ensures Map(s, v, physical, flags).None? <==> FreePages(s) < MissingTables(s.mem, s.root, Path(v))
  {
    PathIsPath(v);
    WalkHaltsWhenFull(s, s.root, Path(v));
    if Walk(s, s.root, Path(v)).Some? {
      WalkFacts(s, s.root, Path(v));
    }
  }

  // ----- the identity map of init_vmm

  // The loop over one usable region: a page at a time from address up to end.
  ghost function IdentityMap(s: State, address: nat, end: nat): Option<State>
    decreases end - address
  {
    if address >= end then Some(s)
    else match Map(s, address, address, VMM_WRITE)
      case None => None
      case Some(s1) => IdentityMap(s1, address + PAGE_SIZE, end)
  }

  ghost predicate InRegion(v: nat, base: nat, end: nat) {
    base <= VirtualPage(v) * PAGE_SIZE < end
  }

  lemma RegionStep(v: nat, address: nat, end: nat)
    requires address % PAGE_SIZE == 0 && address < end <= 0x1_0000_0000_0000
    ensures PageBits(address) == address && VirtualPage(address) * PAGE_SIZE == address
    ensures (address + PAGE_SIZE) % PAGE_SIZE == 0
    ensures InRegion(v, address, end) <==>
            VirtualPage(v) == VirtualPage(address) || InRegion(v, address + PAGE_SIZE, end)
    ensures !InRegion(v, address + PAGE_SIZE, end) || VirtualPage(v) != VirtualPage(address)
  {
  }

  // v resolves to itself (bits 0 to 47), on a page that is present, writable and
  // nothing else.
  ghost predicate MappedToItself(s: State, root: nat, v: nat) {
    && Resolve(s, root, v) == VirtualPage(v) * PAGE_SIZE + v % PAGE_SIZE
    && HasBits(Look(s.mem, root, Path(v)), VirtualPage(v) * PAGE_SIZE, VMM_WRITE)
  }

  // v is mapped to itself if mapped is set, and has the entry it had in s otherwise.
  ghost predicate ResolvesAs(s: State, s1: State, v: nat, mapped: bool) {
    && Inv(s1) && s1.root == s.root
    && if mapped then MappedToItself(s1, s1.root, v)
       else Look(s1.mem, s1.root, Path(v)) == Look(s.mem, s.root, Path(v))
  }

  lemma MapIdentityPage(s: State, address: nat, v: nat)
    requires Inv(s) && Map(s, address, address, VMM_WRITE).Some?
    requires PageBits(address) == address && VirtualPage(address) * PAGE_SIZE == address
    ensures ResolvesAs(s, Map(s, address, address, VMM_WRITE).value, v, VirtualPage(v) == VirtualPage(address))
  {
    hide Inv, Map, VirtualPage, HasBits, Path, Look, PageBits, Resolve;
    assert Frame(VMM_WRITE) == 0;
    FlagsOutsideMask(address, VMM_WRITE);
    MapThenResolve(s, address, address, VMM_WRITE, v);
    MapThenLook(s, address, address, VMM_WRITE, v);
  }

  // The entry of one page in the current space after vmm_map.
  lemma MapThenLook(s: State, v: nat, physical: nat, flags: nat, w: nat)
    requires Inv(s) && Map(s, v, physical, flags).Some?
    ensures var s1 := Map(s, v, physical, flags).value;
      && Inv(s1) && s1.root == s.root
      && if VirtualPage(w) == VirtualPage(v) then HasBits(Look(s1.mem, s1.root, Path(w)), physical, flags)
         else Look(s1.mem, s1.root, Path(w)) == Look(s.mem, s.root, Path(w))
  {
    RootIsTable(s);
    PathIsPath(w);
    PathIsPage(v, w);
    MapRefinesFlatMap(s, v, physical, flags);
    hide Inv, Map, VirtualPage, HasBits, Path, Look;
  }

  lemma ResolvesAsTransitive(s: State, s1: State, s2: State, v: nat, m1: bool, m2: bool)
    requires ResolvesAs(s, s1, v, m1) && ResolvesAs(s1, s2, v, m2)
    ensures ResolvesAs(s, s2, v, m1 || m2)
  {
  }

  // Every page of the region, also a last one only partly inside it, resolves to
  // itself; every other page resolves as before.
  lemma {:induction false} IdentityMapResolves(s: State, address: nat, end: nat, v: nat)
    requires Inv(s) && IdentityMap(s, address, end).Some?
    requires address % PAGE_SIZE == 0 && end <= 0x1_0000_0000_0000
    ensures ResolvesAs(s, IdentityMap(s, address, end).value, v, InRegion(v, address, end))
    decreases end - address
  {
    if address < end {
      RegionStep(v, address, end);
      MapIdentityPage(s, address, v);
      var s1 := Map(s, address, address, VMM_WRITE).value;
      IdentityMapResolves(s1, address + PAGE_SIZE, end, v);
      var s2 := IdentityMap(s1, address + PAGE_SIZE, end).value;
      ResolvesAsTransitive(s, s1, s2, v, VirtualPage(v) == VirtualPage(address),
                           InRegion(v, address + PAGE_SIZE, end));
    }
  }

  type Region = (nat, nat)  // base and length of a usable memory map entry

  ghost predicate RegionsOk(regions: seq<Region>) {
    forall k :: 0 <= k < |regions| ==>
      regions[k].0 % PAGE_SIZE == 0 && regions[k].0 + regions[k].1 <= 0x1_0000_0000_0000
  }

  ghost function MapRegions(s: State, regions: seq<Region>): Option<State>
    decreases regions
  {
    if regions == [] then Some(s)
    else match IdentityMap(s, regions[0].0, regions[0].0 + regions[0].1)
      case None => None
      case Some(s1) => MapRegions(s1, regions[1..])
  }

  ghost predicate InSomeRegion(v: nat, regions: seq<Region>) {
    exists k :: 0 <= k < |regions| && InRegion(v, regions[k].0, regions[k].0 + regions[k].1)
  }

  // The new kernel space before its CR3 is loaded.
  ghost function InitTables(s: State, regions: seq<Region>): Option<State> {
    match CreateSpace(s)
    case None => None
    case Some((s1, root)) => MapRegions(s1.(root := root), regions)
  }

  lemma SplitRegions(v: nat, regions: seq<Region>)
    requires regions != [] && RegionsOk(regions)
    ensures RegionsOk(regions[1..])
    ensures InSomeRegion(v, regions) <==>
            InRegion(v, regions[0].0, regions[0].0 + regions[0].1) || InSomeRegion(v, regions[1..])
  {
    var rest := regions[1..];
    forall k | 0 <= k < |rest|
      ensures rest[k].0 % PAGE_SIZE == 0 && rest[k].0 + rest[k].1 <= 0x1_0000_0000_0000
    {
      assert rest[k] == regions[k + 1];
    }
    if InSomeRegion(v, rest) {
      var k :| 0 <= k < |rest| && InRegion(v, rest[k].0, rest[k].0 + rest[k].1);
      assert regions[k + 1] == rest[k];
    }
    if InSomeRegion(v, regions) {
      var k :| 0 <= k < |regions| && InRegion(v, regions[k].0, regions[k].0 + regions[k].1);
      if k > 0 {
        assert rest[k - 1] == regions[k];
      }
    }
  }

  lemma {:induction false} MapRegionsResolves(s: State, regions: seq<Region>, v: nat)
    requires Inv(s) && RegionsOk(regions) && MapRegions(s, regions).Some?
    ensures ResolvesAs(s, MapRegions(s, regions).value, v, InSomeRegion(v, regions))
    decreases regions
  {
    hide RegionOk, TablesReserved, TablesOk, InRegion, IdentityMap;
    if regions != [] {
      var (base, length) := regions[0];
      SplitRegions(v, regions);
      IdentityMapResolves(s, base, base + length, v);
      var s1 := IdentityMap(s, base, base + length).value;
      MapRegionsResolves(s1, regions[1..], v);
      var s2 := MapRegions(s1, regions[1..]).value;
      ResolvesAsTransitive(s, s1, s2, v, InRegion(v, base, base + length), InSomeRegion(v, regions[1..]));
    }
  }

  // init_vmm: usable memory is identity mapped, and every other page of the
  // upper half resolves as the boot loader's tables did.
  lemma InitTablesResolves(s: State, regions: seq<Region>, v: nat)
    requires Inv(s) && RegionsOk(regions) && InitTables(s, regions).Some?
    ensures var s1 := InitTables(s, regions).value;
      && Inv(s1)
      && if InSomeRegion(v, regions) then MappedToItself(s1, s1.root, v)
         else Look(s1.mem, s1.root, Path(v)) == if Path(v)[0] >= 256 then Look(s.mem, s.root, Path(v)) else 0
  {
    FreshSpaceResolves(s, v);
    var (s1, root) := CreateSpace(s).value;
    MapRegionsResolves(s1.(root := root), regions, v);
  }

  lemma FreshSpaceResolves(s: State, v: nat)
    requires Inv(s) && CreateSpace(s).Some?
    ensures var (s1, root) := CreateSpace(s).value;
      && Inv(s1.(root := root))
      && Look(s1.mem, root, Path(v)) == if Path(v)[0] >= 256 then Look(s.mem, s.root, Path(v)) else 0
  {
    hide RegionOk, TablesReserved, EntryOk, Path, UpperHalf, CreateSpace, AgreeAbove;
    PathIsPath(v);
    CreateSpaceKeepsInv(s);
    CreateSpaceFacts(s);
    var (s1, root) := CreateSpace(s).value;
    LoadStep(s1, root);
    assert Look(s1.mem, s.root, Path(v)) == Look(s.mem, s.root, Path(v));
  }
}
