// Reference counts and the parent forest of vnodes: src/fs/vfs/vnode.c
//
// A vnode is named by its address; 0 is NULL.
module Vnodes {
  import opened Options

  // The fields of vnode_t that reference counting reads and writes.
  datatype Node = Node(count: nat, freeing: bool, parent: nat, name: string, hasData: bool)

  type Nodes = map<nat, Node>

  const NAME_MAX: nat := 255

  // ----- operations; None stands for hcf() and for an access to a freed vnode

  ghost function Unfreed(nodes: Nodes): set<nat> {
    set v | v in nodes && !nodes[v].freeing
  }

  // vnode_unref with the vnode_free it leads to.
  ghost function Unref(nodes: Nodes, v: nat): Option<Nodes>
    decreases |Unfreed(nodes)|
  {
    if v !in nodes || nodes[v].count == 0 then None
    else
      var n := nodes[v].(count := nodes[v].count - 1);
      if n.count > 0 || n.freeing then Some(nodes[v := n])
      else
        var marked := nodes[v := n.(freeing := true, hasData := false)];
        assert Unfreed(marked) == Unfreed(nodes) - {v};
        if n.parent == 0 then Some(marked - {v})
        else match Unref(marked, n.parent)
          case None => None
          case Some(r) => if v in r then Some(r - {v}) else None
  }

  ghost function Ref(nodes: Nodes, v: nat): Option<Nodes> {
    if v !in nodes then None else Some(nodes[v := nodes[v].(count := nodes[v].count + 1)])
  }

  ghost function ClearParent(nodes: Nodes, child: nat): Option<Nodes> {
    if child == 0 then Some(nodes)
    else if child !in nodes then None
    else
      match (if nodes[child].parent == 0 then Some(nodes) else Unref(nodes, nodes[child].parent))
      case None => None
      case Some(r) => if child in r then Some(r[child := r[child].(parent := 0, name := "")]) else None
  }

  // strlcpy into a buffer of NAME_MAX + 1 characters.
  function Truncate(name: string): string {
    if |name| <= NAME_MAX then name else name[..NAME_MAX]
  }

  // As much of the name as fits is kept.
  lemma TruncateFacts(name: string)
    ensures Truncate(name) <= name
    ensures |Truncate(name)| == if |name| <= NAME_MAX then |name| else NAME_MAX
  {
  }

  ghost function SetParent(nodes: Nodes, child: nat, parent: nat, name: string): Option<Nodes> {
    if child == 0 then Some(nodes)
    else
      match ClearParent(nodes, child)
      case None => None
      case Some(r) =>
        match (if parent == 0 then Some(r) else Ref(r, parent))
        case None => None
        case Some(r1) =>
          if child in r1 then Some(r1[child := r1[child].(parent := parent, name := Truncate(name))]) else None
  }

  // vnode_alloc at a fresh address.
  function Alloc(nodes: Nodes, v: nat): Nodes {
    nodes[v := Node(1, false, 0, "", false)]
  }

  // ----- the invariant

  ghost function Children(nodes: Nodes, p: nat): set<nat> {
    set c | c in nodes && nodes[c].parent == p
  }

  // rank witnesses that no chain of parents closes.
  ghost predicate Ranked(nodes: Nodes, rank: map<nat, nat>) {
    forall v :: v in nodes && nodes[v].parent != 0 ==>
      v in rank && nodes[v].parent in rank && rank[nodes[v].parent] < rank[v]
  }

  ghost predicate Shape(nodes: Nodes) {
    0 !in nodes &&
    forall v :: v in nodes ==> !nodes[v].freeing && (nodes[v].parent != 0 ==> nodes[v].parent in nodes)
  }

  // Every count is the number of outside handles plus the number of live
  // children that name the vnode as parent, and extra on the vnode x.
  ghost predicate Counted(nodes: Nodes, handles: map<nat, nat>, x: nat, extra: nat) {
    forall v :: v in nodes ==>
      v in handles &&
      nodes[v].count == handles[v] + |Children(nodes, v)| + (if v == x then extra else 0)
  }

  ghost predicate Live(nodes: Nodes) {
    forall v :: v in nodes ==> nodes[v].count > 0
  }

  ghost predicate Inv(nodes: Nodes, handles: map<nat, nat>, rank: map<nat, nat>) {
    Shape(nodes) && Ranked(nodes, rank) && Counted(nodes, handles, 0, 0) && Live(nodes)
  }

  // ----- what dropping one reference does, in closed form

  // The vnodes freed by dropping the last reference to v: v and its ancestors as
  // far as each was held by the one below only.
  ghost function FreedChain(nodes: Nodes, v: nat): seq<nat>
    decreases |nodes|
  {
    if v !in nodes || nodes[v].count != 1 then []
    else [v] + FreedChain(nodes - {v}, nodes[v].parent)
  }

  // The first ancestor that stays, or 0.
  ghost function Survivor(nodes: Nodes, v: nat): nat
    decreases |nodes|
  {
    if v !in nodes || nodes[v].count != 1 then v else Survivor(nodes - {v}, nodes[v].parent)
  }

  ghost function Dropped(nodes: Nodes, v: nat): Nodes
    decreases |nodes|
  {
    if v !in nodes then nodes
    else if nodes[v].count == 1 then Dropped(nodes - {v}, nodes[v].parent)
    else if nodes[v].count == 0 then nodes
    else nodes[v := nodes[v].(count := nodes[v].count - 1)]
  }

  ghost function SetOf(q: seq<nat>): set<nat> {
    set x | x in q
  }

  ghost function Decrement(nodes: Nodes, v: nat): Nodes {
    if v in nodes && nodes[v].count > 0 then nodes[v := nodes[v].(count := nodes[v].count - 1)] else nodes
  }

  // Dropping a reference removes exactly the freed chain and takes one from the
  // count of the survivor.
  lemma {:induction false} DroppedIsExact(nodes: Nodes, v: nat)
    ensures Dropped(nodes, v) == Decrement(nodes - SetOf(FreedChain(nodes, v)), Survivor(nodes, v))
    decreases |nodes|
  {
    if v in nodes && nodes[v].count == 1 {
      var rest := nodes - {v};
      DroppedIsExact(rest, nodes[v].parent);
      var c := FreedChain(rest, nodes[v].parent);
      ChainTaken(nodes, v, c);
    } else {
      assert nodes - SetOf([]) == nodes;
    }
  }

  lemma ChainTaken(nodes: Nodes, v: nat, c: seq<nat>)
    ensures nodes - {v} - SetOf(c) == nodes - SetOf([v] + c)
  {
    assert SetOf([v] + c) == {v} + SetOf(c);
  }

  // The chain goes up from parent to parent, every vnode on it had a count of
  // one, and it is as long as possible.
  lemma {:induction false} FreedChainFacts(nodes: Nodes, v: nat, rank: map<nat, nat>)
    requires Shape(nodes) && Ranked(nodes, rank) && v in nodes
    ensures var q := FreedChain(nodes, v);
      && (forall i :: 0 <= i < |q| ==> q[i] in nodes && nodes[q[i]].count == 1)
      && (q != [] ==> q[0] == v)
      && (forall i {:trigger nodes[q[i]].parent} :: 0 <= i < |q| - 1 ==> nodes[q[i]].parent == q[i + 1])
      && Survivor(nodes, v) == (if q == [] then v else nodes[q[|q| - 1]].parent)
      && (Survivor(nodes, v) != 0 ==> Survivor(nodes, v) in nodes && nodes[Survivor(nodes, v)].count != 1)
    decreases |nodes|
  {
    UpChain(nodes, nodes, v, rank);
  }

  // The same for the part of the forest that is left while the chain grows.
  lemma {:induction false} UpChain(all: Nodes, nodes: Nodes, v: nat, rank: map<nat, nat>)
    requires Shape(all) && Ranked(all, rank) && (v == 0 || v in all)
    requires forall x :: x in nodes ==> x in all && nodes[x] == all[x]
    requires forall x :: x in all && x !in nodes ==> v == 0 || (x in rank && v in rank && rank[v] < rank[x])
    ensures var q := FreedChain(nodes, v);
      && (forall i :: 0 <= i < |q| ==> q[i] in all && all[q[i]].count == 1)
      && (q != [] ==> q[0] == v)
      && (forall i {:trigger all[q[i]].parent} :: 0 <= i < |q| - 1 ==> all[q[i]].parent == q[i + 1])
      && Survivor(nodes, v) == (if q == [] then v else all[q[|q| - 1]].parent)
      && (Survivor(nodes, v) != 0 ==> Survivor(nodes, v) in all && all[Survivor(nodes, v)].count != 1)
    decreases |nodes|
  {
    if v != 0 {
      assert v in nodes;
      if nodes[v].count == 1 {
        var p := nodes[v].parent;
        UpChain(all, nodes - {v}, p, rank);
        var q, r := FreedChain(nodes, v), FreedChain(nodes - {v}, p);
        assert q == [v] + r && Survivor(nodes, v) == Survivor(nodes - {v}, p);
        hide FreedChain, Survivor, Shape, Ranked;
        assert r != [] ==> q[|q| - 1] == r[|r| - 1];
        forall i {:trigger all[q[i]].parent} | 0 <= i < |q| - 1
          ensures all[q[i]].parent == q[i + 1]
        {
          if i > 0 {
            assert q[i] == r[i - 1] && q[i + 1] == r[i];
            assert all[r[i - 1]].parent == r[i - 1 + 1];
          }
        }
      }
    }
  }

  // ----- vnode_unref computes the closed form

  ghost function Only(nodes: Nodes, s: set<nat>): Nodes {
    map x | x in nodes && x in s :: nodes[x]
  }

  // The vnodes on the recursion stack are marked as being freed and lie below v.
  ghost predicate Stack(nodes: Nodes, v: nat, dead: set<nat>, rank: map<nat, nat>) {
    && 0 !in nodes && v in nodes && v !in dead
    && (forall x :: x in nodes && x !in dead ==>
          !nodes[x].freeing && nodes[x].count > 0 &&
          (nodes[x].parent != 0 ==> nodes[x].parent in nodes))
    && Ranked(nodes, rank)
    && (forall d :: d in dead ==> d in nodes && nodes[d].freeing && d in rank && v in rank && rank[v] < rank[d])
  }

  lemma {:induction false} DroppedDomain(nodes: Nodes, v: nat)
    ensures forall x :: x in Dropped(nodes, v) ==> x in nodes
    decreases |nodes|
  {
    if v in nodes && nodes[v].count == 1 {
      DroppedDomain(nodes - {v}, nodes[v].parent);
    }
  }

  ghost function Marked(nodes: Nodes, v: nat): Nodes
    requires v in nodes && nodes[v].count > 0
  {
    nodes[v := nodes[v].(count := nodes[v].count - 1, freeing := true, hasData := false)]
  }

  lemma StackGrows(nodes: Nodes, v: nat, dead: set<nat>, rank: map<nat, nat>)
    requires Stack(nodes, v, dead, rank) && nodes[v].parent != 0
    ensures Stack(Marked(nodes, v), nodes[v].parent, dead + {v}, rank)
  {
  }

  lemma StackMaps(nodes: Nodes, v: nat, dead: set<nat>, r: Nodes)
    requires v in nodes && v !in dead && nodes[v].count > 0 && v !in r
    ensures Unfreed(Marked(nodes, v)) == Unfreed(nodes) - {v}
    ensures Marked(nodes, v) - (dead + {v}) == nodes - dead - {v}
    ensures Marked(nodes, v) - {v} == (nodes - dead - {v}) + Only(nodes, dead)
    ensures (r + Only(Marked(nodes, v), dead + {v})) - {v} == r + Only(nodes, dead)
    ensures v in r + Only(Marked(nodes, v), dead + {v})
  {
  }

  lemma {:induction false} UnrefOnStack(nodes: Nodes, v: nat, dead: set<nat>, rank: map<nat, nat>)
    requires Stack(nodes, v, dead, rank)
    ensures Unref(nodes, v) == Some(Dropped(nodes - dead, v) + Only(nodes, dead))
    decreases |Unfreed(nodes)|
  {
    var live := nodes - dead;
    if nodes[v].count > 1 {
      var n := nodes[v].(count := nodes[v].count - 1);
      assert nodes[v := n] == live[v := n] + Only(nodes, dead);
    } else {
      var p := nodes[v].parent;
      var r := Dropped(live - {v}, p);
      DroppedDomain(live - {v}, p);
      StackMaps(nodes, v, dead, r);
      if p == 0 {
        assert r == live - {v};
      } else {
        assert v in Unfreed(nodes);
        StackGrows(nodes, v, dead, rank);
        UnrefOnStack(Marked(nodes, v), p, dead + {v}, rank);
      }
    }
  }

  lemma UnrefIsDropped(nodes: Nodes, v: nat, rank: map<nat, nat>)
    requires Shape(nodes) && Ranked(nodes, rank) && Live(nodes) && v in nodes
    ensures Unref(nodes, v) == Some(Dropped(nodes, v))
  {
    hide Unref, Dropped;
    UnrefOnStack(nodes, v, {}, rank);
    assert nodes - {} == nodes;
    assert Dropped(nodes, v) + Only(nodes, {}) == Dropped(nodes, v);
  }

  // ----- a dropped reference keeps the counts right

  lemma WithoutNode(nodes: Nodes, v: nat, y: nat)
    requires v in nodes
    ensures Children(nodes - {v}, y) == Children(nodes, y) - {v}
    ensures |Children(nodes - {v}, y)| == |Children(nodes, y)| - (if nodes[v].parent == y then 1 else 0)
  {
    assert v in Children(nodes, y) <==> nodes[v].parent == y;
  }

  lemma SameParents(a: Nodes, b: Nodes, y: nat)
    requires a.Keys == b.Keys && forall x :: x in a ==> a[x].parent == b[x].parent
    ensures Children(a, y) == Children(b, y)
  {
  }

  lemma FreeKeepsCounts(nodes: Nodes, handles: map<nat, nat>, rank: map<nat, nat>, v: nat)
    requires Shape(nodes) && Ranked(nodes, rank) && Counted(nodes, handles, v, 1) && Live(nodes)
    requires v in nodes && nodes[v].count == 1
    ensures var p := nodes[v].parent;
      && p != v && Shape(nodes - {v}) && Ranked(nodes - {v}, rank) && Live(nodes - {v})
      && Counted(nodes - {v}, handles, p, 1)
  {
    assert Children(nodes, v) == {};
    assert forall x :: x in nodes ==> x !in Children(nodes, v);
    forall y | y in nodes - {v}
      ensures y in handles &&
        nodes[y].count == handles[y] + |Children(nodes - {v}, y)| + (if y == nodes[v].parent then 1 else 0)
    {
      WithoutNode(nodes, v, y);
    }
  }

  lemma DecrementKeepsCounts(nodes: Nodes, handles: map<nat, nat>, v: nat)
    requires Counted(nodes, handles, v, 1) && v in nodes && nodes[v].count > 1
    ensures Counted(nodes[v := nodes[v].(count := nodes[v].count - 1)], handles, 0, 0)
  {
    var r := nodes[v := nodes[v].(count := nodes[v].count - 1)];
    forall y | y in r
      ensures y in handles && r[y].count == handles[y] + |Children(r, y)|
    {
      SameParents(nodes, r, y);
    }
  }

  // Dropping the one reference that no handle and no child accounts for gives a
  // forest in which every count is right again.
  lemma {:induction false} DroppedKeepsCounts(nodes: Nodes, handles: map<nat, nat>, rank: map<nat, nat>, v: nat)
    requires Shape(nodes) && Ranked(nodes, rank) && Counted(nodes, handles, v, 1) && Live(nodes)
    requires v == 0 || v in nodes
    ensures Inv(Dropped(nodes, v), handles, rank)
    decreases |nodes|
  {
    hide Shape, Ranked, Counted, Live, Children;
    if v in nodes {
      if nodes[v].count == 1 {
        FreeKeepsCounts(nodes, handles, rank, v);
        ParentKnown(nodes, v);
        DroppedKeepsCounts(nodes - {v}, handles, rank, nodes[v].parent);
      } else {
        StillShared(nodes, rank, v);
        DecrementKeepsCounts(nodes, handles, v);
      }
    } else {
      NoExtra(nodes, handles);
    }
  }

  lemma ParentKnown(nodes: Nodes, v: nat)
    requires Shape(nodes) && v in nodes && nodes[v].parent != v
    ensures nodes[v].parent == 0 || nodes[v].parent in nodes - {v}
  {
  }

  lemma StillShared(nodes: Nodes, rank: map<nat, nat>, v: nat)
    requires Shape(nodes) && Ranked(nodes, rank) && Live(nodes) && v in nodes && nodes[v].count != 1
    ensures nodes[v].count > 1
    ensures var r := nodes[v := nodes[v].(count := nodes[v].count - 1)];
      Shape(r) && Ranked(r, rank) && Live(r)
  {
  }

  lemma NoExtra(nodes: Nodes, handles: map<nat, nat>)
    requires Shape(nodes) && Counted(nodes, handles, 0, 1)
    ensures Counted(nodes, handles, 0, 0)
  {
  }

  // vnode_unref by a holder of v: never halts, frees exactly the chain of
  // ancestors that only this reference kept, takes one from the survivor, and
  // leaves every count right.
  lemma UnrefFacts(nodes: Nodes, handles: map<nat, nat>, rank: map<nat, nat>, v: nat)
    requires Inv(nodes, handles, rank) && v in nodes && handles[v] > 0
    ensures Unref(nodes, v) ==
            Some(Decrement(nodes - SetOf(FreedChain(nodes, v)), Survivor(nodes, v)))
    ensures Inv(Unref(nodes, v).value, handles[v := handles[v] - 1], rank)
  {
    UnrefIsDropped(nodes, v, rank);
    DroppedIsExact(nodes, v);
    DroppedKeepsCounts(nodes, handles[v := handles[v] - 1], rank, v);
  }

  // ----- vnode_clear_parent and vnode_set_parent

  // Changing a vnode outside the chain commutes with the drop.
  lemma {:induction false} DroppedCommutes(nodes: Nodes, v: nat, c: nat, n: Node, rank: map<nat, nat>)
    requires Ranked(nodes, rank) && c in nodes && c in rank && c != v
    requires v == 0 || (v in rank && rank[v] < rank[c])
    requires 0 !in nodes
    ensures Dropped(nodes[c := n], v) == Dropped(nodes, v)[c := n]
    decreases |nodes|
  {
    if v in nodes {
      if nodes[v].count == 1 {
        assert nodes[c := n] - {v} == (nodes - {v})[c := n];
        DroppedCommutes(nodes - {v}, nodes[v].parent, c, n, rank);
      }
    }
  }

  lemma {:induction false} DroppedKeepsOthers(nodes: Nodes, v: nat, c: nat, rank: map<nat, nat>)
    requires Ranked(nodes, rank) && c in nodes && c in rank && 0 !in nodes
    requires v == 0 || (v in rank && rank[v] < rank[c])
    ensures c in Dropped(nodes, v) && Dropped(nodes, v)[c] == nodes[c]
    decreases |nodes|
  {
    if v in nodes && nodes[v].count == 1 {
      DroppedKeepsOthers(nodes - {v}, nodes[v].parent, c, rank);
    }
  }

  ghost function Orphaned(n: Node): Node {
    n.(parent := 0, name := "")
  }

  // A child that no longer names its parent leaves one reference over.
  lemma OrphanLeavesExtra(nodes: Nodes, handles: map<nat, nat>, rank: map<nat, nat>, child: nat)
    requires Inv(nodes, handles, rank) && child in nodes
    ensures var orphaned := nodes[child := Orphaned(nodes[child])];
      && Shape(orphaned) && Ranked(orphaned, rank) && Live(orphaned)
      && Counted(orphaned, handles, nodes[child].parent, 1)
  {
    var p := nodes[child].parent;
    var orphaned := nodes[child := Orphaned(nodes[child])];
    forall y | y in orphaned
      ensures y in handles && orphaned[y].count == handles[y] + |Children(orphaned, y)| + (if y == p then 1 else 0)
    {
      OrphanChildren(nodes, child, y);
    }
  }

  lemma OrphanChildren(nodes: Nodes, child: nat, y: nat)
    requires child in nodes && y != 0
    ensures |Children(nodes[child := Orphaned(nodes[child])], y)| ==
            |Children(nodes, y)| - (if nodes[child].parent == y then 1 else 0)
  {
    var c, d := Children(nodes, y), Children(nodes[child := Orphaned(nodes[child])], y);
    if nodes[child].parent == y {
      assert child in c && d == c - {child};
    } else {
      assert d == c;
    }
  }

  // vnode_clear_parent drops the one reference that the child held.
  lemma ClearParentFacts(nodes: Nodes, handles: map<nat, nat>, rank: map<nat, nat>, child: nat)
    requires Inv(nodes, handles, rank) && child in nodes
    ensures var orphaned := nodes[child := Orphaned(nodes[child])];
      && ClearParent(nodes, child) == Some(Dropped(orphaned, nodes[child].parent))
      && Inv(ClearParent(nodes, child).value, handles, rank)
      && child in ClearParent(nodes, child).value
      && ClearParent(nodes, child).value[child] == Orphaned(nodes[child])
  {
    var p := nodes[child].parent;
    var n := Orphaned(nodes[child]);
    var orphaned := nodes[child := n];
    OrphanLeavesExtra(nodes, handles, rank, child);
    DroppedKeepsCounts(orphaned, handles, rank, p);
    if p == 0 {
      assert Dropped(orphaned, 0) == orphaned;
    } else {
      UnrefIsDropped(nodes, p, rank);
      DroppedKeepsOthers(nodes, p, child, rank);
      DroppedCommutes(nodes, p, child, n, rank);
    }
  }

  // Nothing that a handle keeps is freed.
  lemma {:induction false} FreedHasNoHandle(nodes: Nodes, handles: map<nat, nat>, rank: map<nat, nat>, v: nat, x: nat)
    requires Shape(nodes) && Ranked(nodes, rank) && Counted(nodes, handles, v, 1) && Live(nodes)
    requires v == 0 || v in nodes
    requires x in FreedChain(nodes, v)
    ensures x in handles && handles[x] == 0
    decreases |nodes|
  {
    FreeKeepsCounts(nodes, handles, rank, v);
    if x != v {
      FreedHasNoHandle(nodes - {v}, handles, rank, nodes[v].parent, x);
    }
  }

  // What vnode_clear_parent frees on behalf of vnode_set_parent.
  ghost function FreedByClear(nodes: Nodes, child: nat): seq<nat>
    requires child in nodes
  {
    FreedChain(nodes[child := Orphaned(nodes[child])], nodes[child].parent)
  }

  lemma SurvivesClear(nodes: Nodes, handles: map<nat, nat>, rank: map<nat, nat>, child: nat, x: nat)
    requires Inv(nodes, handles, rank) && child in nodes && x in nodes
    ensures ClearParent(nodes, child).Some?
    ensures x in ClearParent(nodes, child).value <==> x !in FreedByClear(nodes, child)
    ensures handles[x] > 0 ==> x !in FreedByClear(nodes, child)
  {
    var orphaned := nodes[child := Orphaned(nodes[child])];
    var p := nodes[child].parent;
    ClearParentFacts(nodes, handles, rank, child);
    DroppedIsExact(orphaned, p);
    OrphanLeavesExtra(nodes, handles, rank, child);
    if x in FreedByClear(nodes, child) {
      FreedHasNoHandle(orphaned, handles, rank, p, x);
    }
  }

  // vnode_set_parent reaches its end exactly when dropping the old parent does
  // not free the new one; a caller that holds the new parent, or that gives NULL
  // for it, is safe.
  lemma SetParentSucceeds(nodes: Nodes, handles: map<nat, nat>, rank: map<nat, nat>,
                          child: nat, parent: nat, name: string)
    requires Inv(nodes, handles, rank) && child in nodes && (parent == 0 || parent in nodes)
    ensures SetParent(nodes, child, parent, name).Some? <==> parent !in FreedByClear(nodes, child)
    ensures parent == 0 || handles[parent] > 0 ==> SetParent(nodes, child, parent, name).Some?
  {
    ClearParentFacts(nodes, handles, rank, child);
    if parent == 0 {
      FreedStays(nodes[child := Orphaned(nodes[child])], nodes[child].parent, 0);
    } else {
      SurvivesClear(nodes, handles, rank, child, parent);
    }
  }

  // c is x or one of its ancestors.
  ghost predicate Above(nodes: Nodes, c: nat, x: nat, rank: map<nat, nat>)
    requires Ranked(nodes, rank)
    decreases if x in rank then rank[x] else 0
  {
    x == c || (x in nodes && nodes[x].parent != 0 && Above(nodes, c, nodes[x].parent, rank))
  }

  ghost function RankOf(rank: map<nat, nat>, x: nat): nat {
    if x in rank then rank[x] else 0
  }

  // Ranks after child and all below it have moved under parent.
  ghost function MovedRank(nodes: Nodes, child: nat, parent: nat, rank: map<nat, nat>): map<nat, nat>
    requires Ranked(nodes, rank)
  {
    map x | x in nodes ::
      RankOf(rank, x) + if Above(nodes, child, x, rank) then RankOf(rank, parent) + 1 else 0
  }

  // Without a new parent the old ranks serve.
  ghost function NewRank(nodes: Nodes, child: nat, parent: nat, rank: map<nat, nat>): map<nat, nat>
    requires Ranked(nodes, rank)
  {
    if child == 0 || parent == 0 then rank else MovedRank(nodes, child, parent, rank)
  }

  ghost predicate Acyclic(nodes: Nodes) {
    exists r: map<nat, nat> :: Ranked(nodes, r)
  }

  // Attaching a child once more to its parent fails exactly when the child holds
  // the only reference to it: the parent is freed before it is referenced again.
  lemma ReattachSucceeds(nodes: Nodes, handles: map<nat, nat>, rank: map<nat, nat>, child: nat, name: string)
    requires Inv(nodes, handles, rank) && child in nodes && nodes[child].parent != 0
    ensures SetParent(nodes, child, nodes[child].parent, name).None? <==> nodes[nodes[child].parent].count == 1
  {
    var p := nodes[child].parent;
    assert p != child;
    SetParentSucceeds(nodes, handles, rank, child, p, name);
    var orphaned := nodes[child := Orphaned(nodes[child])];
    FreedStays(orphaned - {p}, nodes[p].parent, p);
  }

  lemma {:induction false} FreedStays(nodes: Nodes, v: nat, x: nat)
    requires x !in nodes
    ensures x !in FreedChain(nodes, v)
    decreases |nodes|
  {
    if v in nodes && nodes[v].count == 1 {
      FreedStays(nodes - {v}, nodes[v].parent, x);
    }
  }

  function TwoVnodes(): Nodes {
    map[1 := Node(1, false, 0, "", false), 2 := Node(1, false, 1, "a", false)]
  }

  lemma TwoVnodesCounted()
    ensures Counted(TwoVnodes(), map[1 := 0, 2 := 1], 0, 0)
  {
    assert Children(TwoVnodes(), 1) == {2};
    assert Children(TwoVnodes(), 2) == {};
    hide Children;
  }

  lemma TwoVnodesOk()
    ensures Inv(TwoVnodes(), map[1 := 0, 2 := 1], map[1 := 0, 2 := 1])
  {
    hide Counted;
    TwoVnodesCounted();
  }

  // Such an input: a directory that only its one entry keeps.
  lemma ReattachFails()
    ensures Inv(TwoVnodes(), map[1 := 0, 2 := 1], map[1 := 0, 2 := 1])
    ensures SetParent(TwoVnodes(), 2, 1, "b").None?
  {
    hide Inv, SetParent;
    TwoVnodesOk();
    ReattachSucceeds(TwoVnodes(), map[1 := 0, 2 := 1], map[1 := 0, 2 := 1], 2, "b");
  }

  lemma {:induction false} DroppedKeepsParents(nodes: Nodes, v: nat, x: nat)
    requires x in Dropped(nodes, v)
    ensures x in nodes && Dropped(nodes, v)[x].parent == nodes[x].parent
    decreases |nodes|
  {
    if v in nodes && nodes[v].count == 1 {
      DroppedKeepsParents(nodes - {v}, nodes[v].parent, x);
    }
  }

  // The new forest in terms of the one vnode_clear_parent leaves.
  ghost function Attached(nodes: Nodes, child: nat, parent: nat, name: string): Nodes
    requires child in nodes && (parent == 0 || parent in nodes)
  {
    var r := if parent == 0 then nodes else nodes[parent := nodes[parent].(count := nodes[parent].count + 1)];
    r[child := r[child].(parent := parent, name := name)]
  }

  lemma AttachedCounts(nodes: Nodes, handles: map<nat, nat>, rank: map<nat, nat>, child: nat, parent: nat, name: string)
    requires Inv(nodes, handles, rank) && child in nodes && nodes[child].parent == 0
    requires parent == 0 || parent in nodes
    ensures var r := Attached(nodes, child, parent, name);
      Shape(r) && Live(r) && Counted(r, handles, 0, 0)
  {
    hide Children;
    var r := Attached(nodes, child, parent, name);
    forall y | y in r
      ensures y in handles && r[y].count == handles[y] + |Children(r, y)|
    {
      AttachedChildren(nodes, child, parent, name, y);
    }
  }

  lemma AttachedChildren(nodes: Nodes, child: nat, parent: nat, name: string, y: nat)
    requires child in nodes && nodes[child].parent == 0 && (parent == 0 || parent in nodes) && y != 0
    ensures |Children(Attached(nodes, child, parent, name), y)| == |Children(nodes, y)| + if y == parent then 1 else 0
  {
    var c, d := Children(nodes, y), Children(Attached(nodes, child, parent, name), y);
    assert forall x :: x in d <==> x in c || (y == parent && x == child);
    if y == parent {
      assert child !in c && d == c + {child};
    } else {
      assert d == c;
    }
  }

  lemma MovedRankIsRank(nodes: Nodes, r: Nodes, child: nat, parent: nat, rank: map<nat, nat>)
    requires Shape(nodes) && Ranked(nodes, rank) && child in nodes && parent in nodes
    requires !Above(nodes, child, parent, rank)
    requires forall x :: x in r ==> x in nodes && r[x].parent == if x == child then parent else nodes[x].parent
    ensures Ranked(r, MovedRank(nodes, child, parent, rank))
  {
  }

  lemma SetParentIsAttach(nodes: Nodes, handles: map<nat, nat>, rank: map<nat, nat>,
                          child: nat, parent: nat, name: string)
    requires Inv(nodes, handles, rank) && child in nodes && (parent == 0 || parent in nodes)
    requires parent !in FreedByClear(nodes, child)
    ensures var r := ClearParent(nodes, child);
      && r.Some? && child in r.value && (parent == 0 || parent in r.value)
      && SetParent(nodes, child, parent, name) == Some(Attached(r.value, child, parent, Truncate(name)))
      && forall x :: x in r.value ==> x in nodes && r.value[x].parent == if x == child then 0 else nodes[x].parent
  {
    ClearParentFacts(nodes, handles, rank, child);
    if parent != 0 {
      SurvivesClear(nodes, handles, rank, child, parent);
    }
    var orphaned := nodes[child := Orphaned(nodes[child])];
    var r := ClearParent(nodes, child).value;
    forall x | x in r
      ensures x in nodes && r[x].parent == if x == child then 0 else nodes[x].parent
    {
      DroppedKeepsParents(orphaned, nodes[child].parent, x);
    }
  }

  lemma SetParentFrame(nodes: Nodes, handles: map<nat, nat>, rank: map<nat, nat>,
                       child: nat, parent: nat, name: string)
    requires Inv(nodes, handles, rank) && child in nodes && (parent == 0 || parent in nodes)
    requires parent !in FreedByClear(nodes, child)
    ensures var r := SetParent(nodes, child, parent, name);
      && r.Some? && child in r.value
      && r.value[child].parent == parent && r.value[child].name == Truncate(name)
      && r.value[child].hasData == nodes[child].hasData
      && (forall x :: x in r.value <==> x in nodes && x !in FreedByClear(nodes, child))
      && (forall x :: x in r.value && x != child ==> r.value[x] == nodes[x].(count := r.value[x].count))
  {
    hide Inv, Attached, FreedByClear, Dropped, SetParent, ClearParent;
    SetParentIsAttach(nodes, handles, rank, child, parent, name);
    ClearFrame(nodes, handles, rank, child);
    AttachFrame(ClearParent(nodes, child).value, child, parent, Truncate(name));
  }

  lemma DroppedFrame(nodes: Nodes, v: nat)
    ensures forall x :: x in Dropped(nodes, v) <==> x in nodes && x !in FreedChain(nodes, v)
    ensures forall x :: x in Dropped(nodes, v) ==>
      Dropped(nodes, v)[x] == nodes[x].(count := Dropped(nodes, v)[x].count)
  {
    DroppedIsExact(nodes, v);
    hide Dropped, FreedChain;
  }

  lemma ClearFrame(nodes: Nodes, handles: map<nat, nat>, rank: map<nat, nat>, child: nat)
    requires Inv(nodes, handles, rank) && child in nodes
    ensures var r := ClearParent(nodes, child);
      && r.Some? && child in r.value && r.value[child] == Orphaned(nodes[child])
      && (forall x :: x in r.value <==> x in nodes && x !in FreedByClear(nodes, child))
      && (forall x :: x in r.value && x != child ==> r.value[x] == nodes[x].(count := r.value[x].count))
  {
    ClearParentFacts(nodes, handles, rank, child);
    var p := nodes[child].parent;
    hide Inv, Dropped, FreedChain, ClearParent;
    DroppedFrame(nodes[child := Orphaned(nodes[child])], p);
    assert FreedByClear(nodes, child) == FreedChain(nodes[child := Orphaned(nodes[child])], p);
    hide FreedByClear;
  }

  lemma AttachFrame(nodes: Nodes, child: nat, parent: nat, name: string)
    requires child in nodes && (parent == 0 || parent in nodes)
    ensures var r := Attached(nodes, child, parent, name);
      && r.Keys == nodes.Keys
      && r[child].parent == parent && r[child].name == name && r[child].hasData == nodes[child].hasData
      && forall x :: x in r && x != child ==> r[x] == nodes[x].(count := r[x].count)
  {
  }

  // vnode_set_parent keeps every count right whenever it reaches its end. Exactly
  // the chain that only the child kept is gone, and of the others only counts move.
  lemma SetParentCounts(nodes: Nodes, handles: map<nat, nat>, rank: map<nat, nat>,
                        child: nat, parent: nat, name: string)
    requires Inv(nodes, handles, rank) && child in nodes && (parent == 0 || parent in nodes)
    requires parent !in FreedByClear(nodes, child)
    ensures var r := SetParent(nodes, child, parent, name);
      && r.Some? && child in r.value && r.value[child].parent == parent && r.value[child].name == Truncate(name)
      && Shape(r.value) && Live(r.value) && Counted(r.value, handles, 0, 0)
      && r.value[child].name <= name
      && |r.value[child].name| == (if |name| <= NAME_MAX then |name| else NAME_MAX)
      && r.value[child].hasData == nodes[child].hasData
      && (forall x :: x in r.value <==> x in nodes && x !in FreedByClear(nodes, child))
      && (forall x :: x in r.value && x != child ==> r.value[x] == nodes[x].(count := r.value[x].count))
  {
    SetParentIsAttach(nodes, handles, rank, child, parent, name);
    ClearParentFacts(nodes, handles, rank, child);
    TruncateFacts(name);
    SetParentFrame(nodes, handles, rank, child, parent, name);
    hide ClearParent, SetParent, Truncate, FreedByClear, Attached;
    AttachedCounts(ClearParent(nodes, child).value, handles, rank, child, parent, Truncate(name));
  }

  // It keeps the forest free of cycles exactly when the child is not the new
  // parent or one of its ancestors.
  lemma SetParentAcyclic(nodes: Nodes, handles: map<nat, nat>, rank: map<nat, nat>,
                         child: nat, parent: nat, name: string)
    requires Inv(nodes, handles, rank) && child in nodes && (parent == 0 || parent in nodes)
    requires parent !in FreedByClear(nodes, child)
    ensures var r := SetParent(nodes, child, parent, name);
      && r.Some?
      && (Acyclic(r.value) <==> !Above(nodes, child, parent, rank))
      && (!Above(nodes, child, parent, rank) ==> Inv(r.value, handles, NewRank(nodes, child, parent, rank)))
  {
    hide Children, Counted, Live, Truncate, ClearParent;
    SetParentCounts(nodes, handles, rank, child, parent, name);
    var r := SetParent(nodes, child, parent, name).value;
    if Above(nodes, child, parent, rank) {
      if Acyclic(r) {
        var rank': map<nat, nat> :| Ranked(r, rank');
        PathStays(nodes, handles, rank, child, parent, parent, name, rank');
      }
    } else {
      SetParentIsAttach(nodes, handles, rank, child, parent, name);
      if parent == 0 {
        assert Ranked(r, rank);
      } else {
        MovedRankIsRank(nodes, r, child, parent, rank);
      }
    }
  }

  // Below the child no vnode is freed, so the path up to it stays.
  lemma {:induction false} PathStays(nodes: Nodes, handles: map<nat, nat>, rank: map<nat, nat>, child: nat,
                                     parent: nat, x: nat, name: string, rank': map<nat, nat>)
    requires Inv(nodes, handles, rank) && child in nodes && parent in nodes && x in nodes
    requires parent !in FreedByClear(nodes, child)
    requires Above(nodes, child, x, rank)
    requires SetParent(nodes, child, parent, name).Some?
    requires Ranked(SetParent(nodes, child, parent, name).value, rank')
    ensures child in rank' && x in rank' && rank'[child] <= rank'[x]
    decreases RankOf(rank, x)
  {
    SetParentIsAttach(nodes, handles, rank, child, parent, name);
    var cleared := ClearParent(nodes, child).value;
    var r := SetParent(nodes, child, parent, name).value;
    assert r[child].parent == parent;
    if x != child {
      RankAbove(nodes, child, x, rank);
      var orphaned := nodes[child := Orphaned(nodes[child])];
      ClearParentFacts(nodes, handles, rank, child);
      DroppedKeepsOthers(orphaned, nodes[child].parent, x, rank);
      assert x in cleared && cleared[x].parent == nodes[x].parent;
      assert r[x].parent == nodes[x].parent;
      PathStays(nodes, handles, rank, child, parent, nodes[x].parent, name, rank');
    }
  }

  lemma {:induction false} RankAbove(nodes: Nodes, c: nat, x: nat, rank: map<nat, nat>)
    requires Shape(nodes) && Ranked(nodes, rank) && Above(nodes, c, x, rank) && x in nodes && x != c
    ensures c in rank && x in rank && rank[c] < rank[x]
    decreases RankOf(rank, x)
  {
    var p := nodes[x].parent;
    if p != c {
      RankAbove(nodes, c, p, rank);
    }
  }

  // ----- runs

  datatype State = State(nodes: Nodes, handles: map<nat, nat>, rank: map<nat, nat>)

  datatype Op =
    | AllocOp(v: nat)
    | RefOp(v: nat)
    | UnrefOp(v: nat)
    | ClearOp(child: nat)
    | SetOp(child: nat, parent: nat, name: string)

  ghost predicate CanAttach(s: State, child: nat, parent: nat)
    requires Ranked(s.nodes, s.rank)
  {
    parent in s.nodes && parent in s.handles && s.handles[parent] > 0 && !Above(s.nodes, child, parent, s.rank)
  }

  // What callers owe: they hold what they drop and what they attach to, and they
  // build no cycle.
  ghost predicate OpOk(s: State, op: Op)
    requires Ranked(s.nodes, s.rank)
  {
    match op
    case AllocOp(v) => v != 0 && v !in s.nodes && forall x :: x in s.nodes ==> s.nodes[x].parent != v
    case RefOp(v) => v in s.nodes && v in s.handles
    case UnrefOp(v) => v in s.nodes && v in s.handles && s.handles[v] > 0
    case ClearOp(child) => child == 0 || child in s.nodes
    case SetOp(child, parent, _) =>
      child == 0 || (child in s.nodes && (parent == 0 || CanAttach(s, child, parent)))
  }

  ghost function Step(s: State, op: Op): Option<State>
    requires Ranked(s.nodes, s.rank)
  {
    match op
    case AllocOp(v) => Some(State(Alloc(s.nodes, v), s.handles[v := 1], s.rank))
    case RefOp(v) =>
      (match Ref(s.nodes, v) case None => None
       case Some(r) => if v in s.handles then Some(State(r, s.handles[v := s.handles[v] + 1], s.rank)) else None)
    case UnrefOp(v) =>
      (match Unref(s.nodes, v) case None => None
       case Some(r) =>
         if v in s.handles && s.handles[v] > 0 then Some(State(r, s.handles[v := s.handles[v] - 1], s.rank)) else None)
    case ClearOp(child) =>
      (match ClearParent(s.nodes, child) case None => None
       case Some(r) => Some(State(r, s.handles, s.rank)))
    case SetOp(child, parent, name) =>
      (match SetParent(s.nodes, child, parent, name) case None => None
       case Some(r) => Some(State(r, s.handles, NewRank(s.nodes, child, parent, s.rank))))
  }

  lemma AllocKeepsInv(nodes: Nodes, handles: map<nat, nat>, rank: map<nat, nat>, v: nat)
    requires Inv(nodes, handles, rank) && v != 0 && v !in nodes
    ensures Inv(Alloc(nodes, v), handles[v := 1], rank)
  {
    hide Children;
    forall y | y in Alloc(nodes, v)
      ensures Children(Alloc(nodes, v), y) == if y == v then {} else Children(nodes, y)
    {
      AllocChildren(nodes, v, y);
    }
  }

  lemma AllocChildren(nodes: Nodes, v: nat, y: nat)
    requires Shape(nodes) && v !in nodes && v != 0 && y != 0
    ensures Children(Alloc(nodes, v), y) == if y == v then {} else Children(nodes, y)
  {
  }

  lemma RefKeepsInv(nodes: Nodes, handles: map<nat, nat>, rank: map<nat, nat>, v: nat)
    requires Inv(nodes, handles, rank) && v in nodes
    ensures v in handles && Ref(nodes, v).Some?
    ensures Inv(Ref(nodes, v).value, handles[v := handles[v] + 1], rank)
  {
    hide Children;
    var r := Ref(nodes, v).value;
    forall y | y in r
      ensures Children(r, y) == Children(nodes, y)
    {
      SameParents(nodes, r, y);
    }
  }

  // No call of a caller that keeps to OpOk halts, and the counts stay right.
  lemma StepKeepsInv(s: State, op: Op)
    requires Inv(s.nodes, s.handles, s.rank) && OpOk(s, op)
    ensures Step(s, op).Some?
    ensures var s1 := Step(s, op).value; Inv(s1.nodes, s1.handles, s1.rank)
  {
    NullArguments(s);
    hide Shape, Counted, Live, Unref, ClearParent, SetParent, Alloc, Ref, NewRank;
    match op
    case AllocOp(v) => AllocKeepsInv(s.nodes, s.handles, s.rank, v);
    case RefOp(v) => RefKeepsInv(s.nodes, s.handles, s.rank, v);
    case UnrefOp(v) => UnrefFacts(s.nodes, s.handles, s.rank, v);
    case ClearOp(child) =>
      if child != 0 {
        ClearParentFacts(s.nodes, s.handles, s.rank, child);
      }
    case SetOp(child, parent, name) =>
      if child != 0 {
        SetParentSucceeds(s.nodes, s.handles, s.rank, child, parent, name);
        SetParentAcyclic(s.nodes, s.handles, s.rank, child, parent, name);
      }
  }

  // Nothing happens to a NULL child, and NULL is below no vnode.
  lemma NullArguments(s: State)
    requires Inv(s.nodes, s.handles, s.rank)
    ensures ClearParent(s.nodes, 0) == Some(s.nodes)
    ensures forall p: nat, name :: SetParent(s.nodes, 0, p, name) == Some(s.nodes)
    ensures forall p: nat :: NewRank(s.nodes, 0, p, s.rank) == s.rank
    ensures forall c: nat :: c in s.nodes ==> !Above(s.nodes, c, 0, s.rank)
  {
  }

  ghost predicate RunOk(s: State, ops: seq<Op>)
    decreases ops
  {
    ops == [] ||
    (Ranked(s.nodes, s.rank) && OpOk(s, ops[0]) &&
     (Step(s, ops[0]).Some? ==> RunOk(Step(s, ops[0]).value, ops[1..])))
  }

  ghost function Run(s: State, ops: seq<Op>): Option<State>
    decreases ops
  {
    if ops == [] then Some(s)
    else if !Ranked(s.nodes, s.rank) then None
    else match Step(s, ops[0])
      case None => None
      case Some(s1) => Run(s1, ops[1..])
  }

  // Over every such run no call halts, no freed vnode is touched, and every
  // count is right.
  lemma {:induction false} RunKeepsInv(s: State, ops: seq<Op>)
    requires Inv(s.nodes, s.handles, s.rank) && RunOk(s, ops)
    ensures Run(s, ops).Some?
    ensures var s1 := Run(s, ops).value; Inv(s1.nodes, s1.handles, s1.rank)
    decreases ops
  {
    if ops != [] {
      StepKeepsInv(s, ops[0]);
      RunKeepsInv(Step(s, ops[0]).value, ops[1..]);
    }
  }
}
