// The pager as it runs: src/arch/x86_64/mem/vmm/vmm.c
module Vmm {
  import opened Bits
  import opened Options
  import opened Paging
  import opened Pmm

  // How walk ends: at an entry, at a missing table, or in hcf().
  datatype WalkResult = Entry(table: nat, index: nat) | Missing | Halted

  class Pager {
    var mem: Memory                // physical memory as seen through the HHDM
    var currentPml4: nat           // current_pml4
    const pmm: PageAllocator
    ghost var roles: map<nat, Role>

    ghost function Abs(): State
      requires pmm.Valid()
      reads this, pmm, pmm.bitmap
    {
      State(mem, pmm.Used(), pmm.managedBase, pmm.totalPages, currentPml4, roles)
    }

    ghost predicate Valid()
      reads this, pmm, pmm.bitmap
    {
      pmm.Valid() && Inv(Abs())
    }

    // The pager over the boot loader's tables, whose root is in CR3.
    constructor (memory: Memory, root: nat, allocator: PageAllocator, ghost bootRoles: map<nat, Role>)
      requires allocator.Valid()
      requires Inv(State(memory, allocator.Used(), allocator.managedBase, allocator.totalPages, root, bootRoles))
      ensures Valid() && pmm == allocator
      ensures mem == memory && currentPml4 == root && roles == bootRoles
    {
      mem, currentPml4, roles := memory, root, bootRoles;
      pmm := allocator;
    }

    // alloc_table
    method AllocTable(ghost r: Role) returns (physical: nat, halted: bool)
      requires pmm.Valid()
      modifies this, pmm.bitmap
      ensures pmm.Valid()
      ensures halted <==> Paging.AllocTable(old(Abs()), r).None?
      ensures !halted ==> Paging.AllocTable(old(Abs()), r) == Some((Abs(), physical))
    {
      ghost var i;
      physical, i := pmm.AllocPage();
      assert i == FirstFree(old(Abs()).used, pmm.totalPages, 0);
      if physical == 0 {
        return 0, true;
      }
      mem := mem[physical := ZeroPage()];
      roles := roles[physical := r];
      return physical, false;
    }

    // One level of walk: the table behind entry i of table t.
    method NextTable(t: nat, i: nat, create: bool) returns (next: WalkResult)
      requires Valid() && t in roles && roles[t].level > 1 && i < ENTRIES_PER_TABLE
      modifies this, pmm.bitmap
      ensures pmm.Valid()
      ensures !create ==> unchanged(this) && unchanged(pmm.bitmap)
      ensures LevelDone(old(Abs()), Abs(), t, i, create, next)
    {
      hide TablesReserved, RegionOk;
      if !Present(mem[t][i]) {
        if !create {
          return Missing;
        }
        ghost var r := ChildRole(roles[t], t, i);
        if Paging.AllocTable(Abs(), r).Some? {
          AllocIsFresh(Abs(), r);
          EnsureKeepsInv(Abs(), t, i);
        }
        ghost var before := Abs();
        var physical, halted := AllocTable(r);
        if halted {
          return Halted;
        }
        assert mem[t] == before.mem[t];
        var page: seq<nat> := mem[t][i := TableEntry(physical)];
        mem := mem[t := page];
      } else {
        EnsureKeepsInv(Abs(), t, i);
      }
      return Entry(PageBits(mem[t][i]), 0);
    }

    // walk; the result names the page table and the slot of the entry.
    method Walk(v: nat, create: bool) returns (result: WalkResult)
      requires Valid()
      modifies this, pmm.bitmap
      ensures pmm.Valid()
      ensures !create ==> unchanged(this) && unchanged(pmm.bitmap)
      ensures WalkDone(old(Abs()), Abs(), old(currentPml4), Path(v), create, result)
    {
      hide Inv, LevelDone, WalkDone;
      ghost var p := Path(v);
      PathIsPath(v);
      ghost var s0 := Abs();
      RootIsTable(s0);
      var pdpt := NextTable(currentPml4, v / 0x80_0000_0000 % 512, create);
      ghost var s1 := Abs();
      if !pdpt.Entry? {
        StopAtLevel(s0, s1, s0.root, p, create, pdpt);
        return pdpt;
      }
      LevelFacts(s0, s1, s0.root, p[0], create, pdpt);
      var pd := NextTable(pdpt.table, v / 0x4000_0000 % 512, create);
      ghost var s2 := Abs();
      if !pd.Entry? {
        StopAtLevel(s1, s2, pdpt.table, p[1..], create, pd);
        AddLevel(s0, s1, s2, s0.root, p, create, pdpt, pd);
        return pd;
      }
      LevelFacts(s1, s2, pdpt.table, p[1], create, pd);
      var pt := NextTable(pd.table, v / 0x20_0000 % 512, create);
      ghost var s3 := Abs();
      result := if pt.Entry? then Entry(pt.table, v / 0x1000 % 512) else pt;
      if !pt.Entry? {
        StopAtLevel(s2, s3, pd.table, p[1..][1..], create, pt);
      } else {
        LevelFacts(s2, s3, pd.table, p[2], create, pt);
        WalkEnds(s3, pt.table, p[1..][1..][1..], create, result);
        AddLevel(s2, s3, s3, pd.table, p[1..][1..], create, pt, result);
      }
      AddLevel(s1, s2, s3, pdpt.table, p[1..], create, pd, result);
      AddLevel(s0, s1, s3, s0.root, p, create, pdpt, result);
    }

    // vmm_map
    method MapPage(v: nat, physical: nat, flags: nat) returns (halted: bool)
      requires Valid()
      modifies this, pmm.bitmap
      ensures pmm.Valid()
      ensures halted <==> Map(old(Abs()), v, physical, flags).None?
      ensures !halted ==> Valid() && Map(old(Abs()), v, physical, flags) == Some(Abs())
    {
      ghost var s := Abs();
      PathIsPath(v);
      var pte := Walk(v, true);
      if pte.Halted? {
        return true;
      }
      WalkFacts(s, s.root, Path(v));
      MapStep(s, v, physical, flags);
      assert IsEntry(Abs(), pte.table, pte.index);
      var page: seq<nat> := mem[pte.table][pte.index := LeafEntry(physical, flags)];
      mem := mem[pte.table := page];
      return false;
    }

    // vmm_unmap
    method UnmapPage(v: nat)
      requires Valid()
      modifies this, pmm.bitmap
      ensures Valid() && Abs() == Unmap(old(Abs()), v)
    {
      ghost var s := Abs();
      PathIsPath(v);
      var pte := Walk(v, false);
      UnmapStep(s, v);
      if pte.Entry? {
        ReachRole(s, s.root, Path(v)[..3]);
        if Present(mem[pte.table][pte.index]) {
          var page: seq<nat> := mem[pte.table][pte.index := 0];
          mem := mem[pte.table := page];
        }
      }
    }

    // vmm_resolve
    method ResolveAddress(v: nat) returns (physical: nat)
      requires Valid()
      modifies this, pmm.bitmap
      ensures unchanged(this) && unchanged(pmm.bitmap)
      ensures physical == Resolve(Abs(), currentPml4, v)
    {
      PathIsPath(v);
      LookIsReach(mem, currentPml4, Path(v));
      var pte := Walk(v, false);
      if !pte.Entry? {
        return 0;
      }
      ReachRole(Abs(), currentPml4, Path(v)[..3]);
      if !Present(mem[pte.table][pte.index]) {
        return 0;
      }
      return Or(PageBits(mem[pte.table][pte.index]), v % 0x1000);
    }

    // vmm_load_cr3
    method LoadCr3(physical: nat)
      requires Valid() && PageBits(physical) in roles && roles[PageBits(physical)].level == 4
      modifies this
      ensures Valid() && Step(old(Abs()), LoadOp(physical)) == Some(Abs())
    {
      LoadStep(Abs(), PageBits(physical));
      currentPml4 := PageBits(physical);
    }

    // create_address_space
    method CreateAddressSpace() returns (root: nat, halted: bool)
      requires Valid()
      modifies this, pmm.bitmap
      ensures pmm.Valid()
      ensures halted <==> CreateSpace(old(Abs())).None?
      ensures !halted ==> Valid() && CreateSpace(old(Abs())) == Some((Abs(), root))
    {
      ghost var s := Abs();
      if CreateSpace(s).Some? {
        CreateSpaceKeepsInv(s);
        AllocIsFresh(s, Role(4, 0, 0));
      }
      root, halted := AllocTable(Role(4, 0, 0));
      if halted {
        return;
      }
      var kernel := mem[currentPml4];
      assert kernel == s.mem[s.root];
      var page: seq<nat> := mem[root];
      for i := 256 to ENTRIES_PER_TABLE
        invariant |page| == ENTRIES_PER_TABLE
        invariant forall j :: 0 <= j < ENTRIES_PER_TABLE ==>
          page[j] == if 256 <= j < i then kernel[j] else 0
      {
        page := page[i := kernel[i]];
      }
      assert page == UpperHalf(kernel);
      mem := mem[root := page];
    }

    // init_vmm up to the load of CR3: a new root with the boot loader's upper
    // half, then the identity map of every usable region.
    method InitVmm(regions: seq<Region>) returns (halted: bool)
      requires Valid() && RegionsOk(regions)
      modifies this, pmm.bitmap
      ensures pmm.Valid()
      ensures halted <==> InitTables(old(Abs()), regions).None?
      ensures !halted ==> Valid() && InitTables(old(Abs()), regions) == Some(Abs())
    {
      hide TablesOk, TablesReserved, RegionOk, CreateSpace, IdentityMap;
      ghost var s := Abs();
      var root;
      root, halted := CreateAddressSpace();
      if halted {
        return;
      }
      CreateSpaceKeepsInv(s);
      LoadStep(Abs(), root);
      currentPml4 := root;
      ghost var start := Abs();
      var k := 0;
      while k < |regions|
        invariant 0 <= k <= |regions| && Valid()
        invariant MapRegions(start, regions) == MapRegions(Abs(), regions[k..])
      {
        var (base, length) := regions[k];
        assert regions[k..][0] == regions[k] && regions[k..][1..] == regions[k + 1..];
        ghost var before := Abs();
        halted := IdentityMapRegion(base, base + length);
        if halted {
          return;
        }
        k := k + 1;
      }
    }

    // The inner loop of init_vmm.
    method IdentityMapRegion(base: nat, end: nat) returns (halted: bool)
      requires Valid()
      modifies this, pmm.bitmap
      ensures pmm.Valid()
      ensures halted <==> IdentityMap(old(Abs()), base, end).None?
      ensures !halted ==> Valid() && IdentityMap(old(Abs()), base, end) == Some(Abs())
    {
      var address := base;
      while address < end
        invariant Valid()
        invariant IdentityMap(old(Abs()), base, end) == IdentityMap(Abs(), address, end)
        decreases end - address
      {
        halted := MapPage(address, address, VMM_WRITE);
        if halted {
          return;
        }
        address := address + 0x1000;
      }
      return false;
    }
  }

  // What one level of walk does to the state, and where it leads.
  ghost predicate LevelDone(s: State, s1: State, t: nat, i: nat, create: bool, next: WalkResult)
    requires Inv(s) && t in s.roles && s.roles[t].level > 1 && i < ENTRIES_PER_TABLE
  {
    && (next.Halted? ==> create && Ensure(s, t, i).None?)
    && (next.Missing? ==> !create && s1 == s && !Present(s.mem[t][i]))
    && (next.Entry? ==>
          && Ensure(s, t, i) == Some(s1) && (!create ==> s1 == s)
          && Inv(s1) && IsEntry(s1, t, i) && Present(s1.mem[t][i]) && next.table == PageBits(s1.mem[t][i])
          && next.table in s1.roles && s1.roles[next.table].level == s.roles[t].level - 1)
  }

  // What walk does from table t along p: with create set the function Walk,
  // otherwise the lookup Reach.
  ghost predicate WalkDone(s: State, s1: State, t: nat, p: seq<nat>, create: bool, result: WalkResult)
    requires p != []
  {
    && (result.Halted? ==> create && Paging.Walk(s, t, p).None?)
    && (result.Missing? ==> !create && s1 == s && !Reach(s.mem, t, p[..|p| - 1]).0)
    && (result.Entry? ==>
          && result.index == p[|p| - 1]
          && Reach(s1.mem, t, p[..|p| - 1]) == (true, result.table)
          && if create then Paging.Walk(s, t, p) == Some((s1, result.table)) else s1 == s)
  }

  lemma LevelFacts(s: State, s1: State, t: nat, i: nat, create: bool, next: WalkResult)
    requires Inv(s) && t in s.roles && s.roles[t].level > 1 && i < ENTRIES_PER_TABLE
    requires LevelDone(s, s1, t, i, create, next) && next.Entry?
    ensures Inv(s1) && next.table in s1.roles && s1.roles[next.table].level == s.roles[t].level - 1
  {
  }

  lemma WalkEnds(s: State, t: nat, p: seq<nat>, create: bool, result: WalkResult)
    requires |p| == 1 && result == Entry(t, p[0])
    ensures WalkDone(s, s, t, p, create, result)
  {
  }

  lemma StopAtLevel(s: State, s1: State, t: nat, p: seq<nat>, create: bool, next: WalkResult)
    requires Inv(s) && t in s.roles && s.roles[t].level > 1 && s.roles[t].level == |p| && IsPath(p)
    requires LevelDone(s, s1, t, p[0], create, next) && !next.Entry?
    ensures WalkDone(s, s1, t, p, create, next)
  {
    ReachFromFront(s.mem, t, p[..|p| - 1]);
  }

  lemma AddLevel(s: State, s1: State, s2: State, t: nat, p: seq<nat>, create: bool,
                 next: WalkResult, result: WalkResult)
    requires Inv(s) && t in s.roles && s.roles[t].level > 1 && s.roles[t].level == |p| && IsPath(p)
    requires LevelDone(s, s1, t, p[0], create, next) && next.Entry?
    requires WalkDone(s1, s2, next.table, p[1..], create, result)
    ensures WalkDone(s, s2, t, p, create, result)
  {
    assert p[..|p| - 1][1..] == p[1..][..|p[1..]| - 1];
    ReachFromFront(s.mem, t, p[..|p| - 1]);
    if create && result.Entry? {
      WalkFacts(s, t, p);
    }
  }
}
