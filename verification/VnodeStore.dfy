// Reference counting of vnodes as it runs: src/fs/vfs/vnode.c
module VnodeStore {
  import opened Options
  import opened Vnodes

  class VnodeStore {
    var nodes: Nodes                // the vnodes in slab memory, by address
    ghost var handles: map<nat, nat>  // how many references callers hold
    ghost var rank: map<nat, nat>     // a witness that parents form no cycle

    ghost function Abs(): State
      reads this
    {
      State(nodes, handles, rank)
    }

    // Every count is handles plus children, and parents form a forest.
    ghost predicate Valid()
      reads this
    {
      Inv(nodes, handles, rank)
    }

    constructor ()
      ensures Valid() && nodes == map[]
    {
      nodes, handles, rank := map[], map[], map[];
    }

    // vnode_alloc at the address that slab_alloc gives: the caller holds the only
    // reference.
    method VnodeAlloc(v: nat)
      requires Valid() && v != 0 && v !in nodes
      modifies this
      ensures Valid() && handles == old(handles)[v := 1] && rank == old(rank)
      ensures nodes.Keys == old(nodes).Keys + {v} && nodes - {v} == old(nodes) && Children(nodes, v) == {}
      ensures nodes[v].parent == 0 && nodes[v].name == "" && !nodes[v].hasData
    {
      hide Inv;
      AllocFacts(Abs(), v);
      nodes := nodes[v := Node(0, false, 0, "", false)];
      nodes := nodes[v := nodes[v].(count := 1)];
      handles := handles[v := 1];
      assert nodes == Alloc(old(nodes), v);
    }

    // vnode_ref; handle tells whether the caller keeps the reference, which leaves
    // every count right, or stores it in a child.
    method VnodeRef(v: nat, ghost handle: bool)
      requires v in nodes && (handle ==> Valid())
      modifies `nodes, `handles
      ensures Ref(old(nodes), v) == Some(nodes)
      ensures !handle ==> handles == old(handles)
      ensures handle ==> Valid() && handles == old(handles)[v := old(handles)[v] + 1]
    {
      hide Inv;
      ghost var s := Abs();
      nodes := nodes[v := nodes[v].(count := nodes[v].count + 1)];
      if handle {
        RefFacts(s, v);
        handles := handles[v := handles[v] + 1];
      }
    }

    // vnode_put by a caller that holds v: it never halts, frees exactly the chain
    // of ancestors that only this reference kept, and leaves every count right.
    method VnodePut(v: nat) returns (halted: bool)
      requires Valid() && (v != 0 ==> v in nodes && handles[v] > 0)
      modifies this
      ensures Valid() && !halted && rank == old(rank)
      ensures v == 0 ==> Abs() == old(Abs())
      ensures v != 0 ==> handles == old(handles)[v := old(handles)[v] - 1]
      ensures v != 0 ==>
        nodes == Decrement(old(nodes) - SetOf(FreedChain(old(nodes), v)), Survivor(old(nodes), v))
    {
      hide Inv, Unref, FreedChain, Survivor, Decrement, SetOf;
      if v == 0 {
        return false;
      }
      HasHandle(Abs(), v);
      UnrefFacts(nodes, handles, rank, v);
      halted := VnodeUnref(v);
      handles := handles[v := handles[v] - 1];
    }

    // vnode_unref; halted is hcf(), reached on a count of 0 or a freed vnode.
    method VnodeUnref(v: nat) returns (halted: bool)
      modifies `nodes
      ensures halted <==> Unref(old(nodes), v).None?
      ensures !halted ==> Unref(old(nodes), v) == Some(nodes)
      decreases |Unfreed(nodes)|, 1
    {
      if v !in nodes || nodes[v].count == 0 {
        return true;
      }
      var prevCount := nodes[v].count;
      nodes := nodes[v := nodes[v].(count := nodes[v].count - 1)];
      if prevCount > 1 {
        return false;
      }
      var wasFreeing := nodes[v].freeing;
      ghost var unmarked := nodes;
      nodes := nodes[v := nodes[v].(freeing := true)];
      if wasFreeing {
        assert nodes == unmarked;
        return false;
      }
      ghost var marked := old(nodes)[v := old(nodes)[v].(count := 0, freeing := true, hasData := false)];
      assert nodes[v := nodes[v].(hasData := false)] == marked;
      assert Unfreed(marked) == Unfreed(old(nodes)) - {v};
      assert Unfreed(nodes) == Unfreed(old(nodes)) - {v};
      assert v in Unfreed(old(nodes));
      halted := VnodeFree(v);
    }

    // vnode_free on a vnode that is marked as being freed.
    method VnodeFree(v: nat) returns (halted: bool)
      requires v in nodes && nodes[v].freeing
      modifies `nodes
      ensures var marked := old(nodes)[v := old(nodes)[v].(hasData := false)];
        var p := old(nodes)[v].parent;
        var r := if p == 0 then Some(marked) else Unref(marked, p);
        && (halted <==> r.None? || v !in r.value)
        && (!halted ==> nodes == r.value - {v})
      decreases |Unfreed(nodes)|, 2
    {
      if nodes[v].hasData {
        nodes := nodes[v := nodes[v].(hasData := false)];
      }
      assert nodes == old(nodes)[v := old(nodes)[v].(hasData := false)];
      assert Unfreed(nodes) == Unfreed(old(nodes));
      if nodes[v].parent != 0 {
        halted := VnodeUnref(nodes[v].parent);
        if halted || v !in nodes {
          return true;
        }
        ghost var r := nodes;
        nodes := nodes[v := nodes[v].(parent := 0)];
        assert nodes - {v} == r - {v};
      }
      nodes := nodes - {v};
      return false;
    }

    // vnode_clear_parent; on a sound store it never halts and leaves every count
    // right.
    method VnodeClearParent(child: nat) returns (halted: bool)
      modifies `nodes
      ensures halted <==> ClearParent(old(nodes), child).None?
      ensures !halted ==> ClearParent(old(nodes), child) == Some(nodes)
      ensures old(Valid()) && (child == 0 || child in old(nodes)) ==> !halted && Valid()
    {
      if Valid() && child in nodes {
        ClearParentFacts(nodes, handles, rank, child);
      }
      hide Inv;
      if child == 0 {
        return false;
      }
      if child !in nodes {
        return true;
      }
      if nodes[child].parent != 0 {
        halted := VnodeUnref(nodes[child].parent);
        if halted || child !in nodes {
          return true;
        }
        ghost var r := nodes;
        nodes := nodes[child := nodes[child].(parent := 0)];
        assert nodes[child := nodes[child].(name := "")] == r[child := r[child].(parent := 0, name := "")];
      }
      nodes := nodes[child := nodes[child].(name := "")];
      return false;
    }

    // vnode_set_parent; by a caller that holds the new parent and makes no cycle, or
    // that gives NULL, it never halts and leaves every count right.
    method VnodeSetParent(child: nat, parent: nat, name: string) returns (halted: bool)
      modifies this
      ensures halted <==> SetParent(old(nodes), child, parent, name).None?
      ensures !halted ==> SetParent(old(nodes), child, parent, name) == Some(nodes)
      ensures handles == old(handles)
      ensures old(Valid() && OpOk(Abs(), SetOp(child, parent, name))) ==> !halted && Valid()
    {
      ghost var s := Abs();
      ghost var sound := Valid() && OpOk(s, SetOp(child, parent, name));
      hide Inv, OpOk, SetParent, NewRank;
      if sound {
        SetFacts(s, child, parent, name);
      }
      halted := MoveTo(child, parent, name);
      if sound {
        rank := NewRank(s.nodes, child, parent, s.rank);
      }
    }

    // The body of vnode_set_parent.
    method MoveTo(child: nat, parent: nat, name: string) returns (halted: bool)
      modifies `nodes, `handles
      ensures handles == old(handles)
      ensures halted <==> SetParent(old(nodes), child, parent, name).None?
      ensures !halted ==> SetParent(old(nodes), child, parent, name) == Some(nodes)
    {
      hide Inv, ClearParent, Truncate;
      if child == 0 {
        return false;
      }
      halted := VnodeClearParent(child);
      if halted {
        return true;
      }
      if parent != 0 {
        if parent !in nodes {
          return true;
        }
        VnodeRef(parent, false);
      }
      if child !in nodes {
        return true;
      }
      ghost var r := nodes;
      nodes := nodes[child := nodes[child].(parent := parent)];
      nodes := nodes[child := nodes[child].(name := Truncate(name))];
      assert nodes == r[child := r[child].(parent := parent, name := Truncate(name))];
      return false;
    }
  }

  lemma AllocFacts(s: State, v: nat)
    requires Inv(s.nodes, s.handles, s.rank) && v != 0 && v !in s.nodes
    ensures Inv(Alloc(s.nodes, v), s.handles[v := 1], s.rank)
    ensures Children(Alloc(s.nodes, v), v) == {} && Alloc(s.nodes, v) - {v} == s.nodes
  {
    StepKeepsInv(s, AllocOp(v));
  }

  lemma HasHandle(s: State, v: nat)
    requires Inv(s.nodes, s.handles, s.rank) && v in s.nodes
    ensures v in s.handles && v != 0
  {
  }

  lemma RefFacts(s: State, v: nat)
    requires Inv(s.nodes, s.handles, s.rank) && v in s.nodes
    ensures v in s.handles
    ensures Ref(s.nodes, v).Some? && Inv(Ref(s.nodes, v).value, s.handles[v := s.handles[v] + 1], s.rank)
  {
    StepKeepsInv(s, RefOp(v));
  }

  lemma SetFacts(s: State, child: nat, parent: nat, name: string)
    requires Inv(s.nodes, s.handles, s.rank) && OpOk(s, SetOp(child, parent, name))
    ensures var r := SetParent(s.nodes, child, parent, name);
      r.Some? && Inv(r.value, s.handles, NewRank(s.nodes, child, parent, s.rank))
  {
    StepKeepsInv(s, SetOp(child, parent, name));
  }
}
