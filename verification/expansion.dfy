/**
 Updates of the expansion set: adding and removing one id (the components'
 `handleNodeExpand`/`handleNodeCollapse` and the host's
 `handleExpand`/`handleCollapse`), and the host's search-driven
 `collectExpandedIds`, which opens every branch with children of the
 filtered data together with its ancestors.
 */
module Expansion {
  import opened Tree
  import Search

  /** `new Set([...prev, id])` */
  function Expand(s: set<string>, id: string): (r: set<string>)
    ensures id in r
    ensures forall x :: x != id ==> (x in r <==> x in s)
  {
    s + {id}
  }

  /** `newSet.delete(id)` on a copy of the set. */
  function Collapse(s: set<string>, id: string): (r: set<string>)
    ensures id !in r
    ensures forall x :: x != id ==> (x in r <==> x in s)
  {
    s - {id}
  }

  /** Collapsing undoes an expansion of an id that was closed ... */
  lemma CollapseUndoesExpand(s: set<string>, id: string)
    requires id !in s
    ensures Collapse(Expand(s, id), id) == s
  {
  }

  /** ... and expanding undoes a collapse of an id that was open. */
  lemma ExpandUndoesCollapse(s: set<string>, id: string)
    requires id in s
    ensures Expand(Collapse(s, id), id) == s
  {
  }

  /** `node.type === NODE && node.children && node.children.length > 0` */
  predicate IsOpenBranch(n: Node) {
    n.kind == Branch && n.children.Present? && |n.children.list| > 0
  }

  /** `collectExpandedIds(node, parents)`: a branch with children adds its
      own id and its parents' ids, then recurses into its children; any
      other node adds nothing and is not descended into. */
  function CollectNode(n: Node, parents: seq<Node>): set<string>
    decreases n, 1
  {
    if IsOpenBranch(n) then {n.id} + Search.IdsOf(parents) + CollectForest(n.children.list, parents + [n])
    else {}
  }

  function CollectForest(ns: seq<Node>, parents: seq<Node>): set<string>
    decreases ns, 0
  {
    if |ns| == 0 then {}
    else CollectNode(ns[0], parents) + CollectForest(ns[1..], parents)
  }

  /** The nodes the collection visits: pre-order, descending only through
      branches with children. */
  function BranchReach(ns: seq<Node>): seq<Node> {
    if |ns| == 0 then []
    else
      [ns[0]]
      + (if IsOpenBranch(ns[0]) then BranchReach(ns[0].children.list) else [])
      + BranchReach(ns[1..])
  }

  /** Ids of the branches with children in a list of nodes. */
  ghost function OpenIdsIn(s: seq<Node>): set<string> {
    set x | x in s && IsOpenBranch(x) :: x.id
  }

  lemma OpenIdsInAppend(a: seq<Node>, b: seq<Node>)
    ensures OpenIdsIn(a + b) == OpenIdsIn(a) + OpenIdsIn(b)
  {
  }

  /** Ids of the branches with children among the visited nodes. */
  ghost function ReachedBranchIds(ns: seq<Node>): set<string> {
    OpenIdsIn(BranchReach(ns))
  }

  /** Some root of the list is a branch with children. */
  ghost predicate AnyOpenBranch(ns: seq<Node>) {
    exists x :: x in ns && IsOpenBranch(x)
  }

  lemma {:induction false} CollectNodeIsReached(n: Node, parents: seq<Node>)
    decreases n, 1
    ensures CollectNode(n, parents)
         == (if IsOpenBranch(n) then Search.IdsOf(parents) + ReachedBranchIds([n]) else {})
  {
    if IsOpenBranch(n) {
      var list := n.children.list;
      CollectForestIsReached(list, parents + [n]);
      assert Search.IdsOf(parents + [n]) == Search.IdsOf(parents) + {n.id};
      assert BranchReach([n]) == [n] + BranchReach(list) + [];
      assert ReachedBranchIds([n]) == {n.id} + ReachedBranchIds(list);
    }
  }

  /** A visit covers the first root and its reach, then the other roots. */
  lemma BranchReachCons(ns: seq<Node>)
    requires |ns| > 0
    ensures BranchReach(ns) == BranchReach([ns[0]]) + BranchReach(ns[1..])
    ensures BranchReach([ns[0]])
         == [ns[0]] + (if IsOpenBranch(ns[0]) then BranchReach(ns[0].children.list) else [])
  {
    var n := ns[0];
    assert BranchReach([n]) == [n] + (if IsOpenBranch(n) then BranchReach(n.children.list) else []) + BranchReach([n][1..]);
  }

  lemma ReachSplit(ns: seq<Node>)
    requires |ns| > 0
    ensures ReachedBranchIds(ns) == ReachedBranchIds([ns[0]]) + ReachedBranchIds(ns[1..])
    ensures !IsOpenBranch(ns[0]) ==> ReachedBranchIds([ns[0]]) == {}
  {
    BranchReachCons(ns);
    OpenIdsInAppend(BranchReach([ns[0]]), BranchReach(ns[1..]));
  }

  lemma AnyOpenSplit(ns: seq<Node>)
    requires |ns| > 0
    ensures AnyOpenBranch(ns) <==> IsOpenBranch(ns[0]) || AnyOpenBranch(ns[1..])
  {
    if AnyOpenBranch(ns) {
      var x :| x in ns && IsOpenBranch(x);
      assert x == ns[0] || x in ns[1..];
    }
    if AnyOpenBranch(ns[1..]) {
      var x :| x in ns[1..] && IsOpenBranch(x);
      assert x in ns;
    }
  }

  /** The collection adds the parents when some sibling is a branch with
      children, and every branch with children it reaches. */
  lemma {:induction false} CollectForestIsReached(ns: seq<Node>, parents: seq<Node>)
    decreases ns, 0
    ensures CollectForest(ns, parents)
         == (if AnyOpenBranch(ns) then Search.IdsOf(parents) else {}) + ReachedBranchIds(ns)
  {
    if |ns| == 0 {
      assert !AnyOpenBranch(ns);
      assert ReachedBranchIds(ns) == {};
    } else {
      CollectNodeIsReached(ns[0], parents);
      CollectForestIsReached(ns[1..], parents);
      ReachSplit(ns);
      AnyOpenSplit(ns);
    }
  }

  /** The host's expansion effect: only a non-empty search over non-empty
      data replaces the set, and then with the ids of the branches with
      children reached from the roots through such branches. */
  function SearchExpansion(search: string, data: seq<Node>, previous: set<string>): (r: set<string>)
    ensures search == "" || |data| == 0 ==> r == previous
    ensures search != "" && |data| > 0 ==> r == ReachedBranchIds(data)
  {
    if search != "" && |data| > 0 then
      CollectForestIsReached(data, []);
      assert Search.IdsOf([]) == {};
      CollectForest(data, [])
    else previous
  }

  /** Every visited node is a node of the data. */
  lemma {:induction false} BranchReachWithin(ns: seq<Node>)
    ensures forall x :: x in BranchReach(ns) ==> x in Flatten(ns)
  {
    if |ns| > 0 {
      if IsOpenBranch(ns[0]) {
        BranchReachWithin(ns[0].children.list);
      }
      BranchReachWithin(ns[1..]);
    }
  }

  /** Only ids of branches with children are ever added. */
  lemma OnlyBranchIds(search: string, data: seq<Node>, previous: set<string>)
    requires search != "" && |data| > 0
    ensures forall x :: x in SearchExpansion(search, data, previous) ==>
              exists n :: n in Flatten(data) && n.id == x && IsOpenBranch(n)
  {
    BranchReachWithin(data);
  }

  /** A leaf of a list with distinct ids shares its id with no branch of
      any part of the list. */
  lemma LeafNotOpen(s: seq<Node>, f: seq<Node>, leaf: Node)
    requires forall x :: x in s ==> x in f
    requires DistinctIds(f) && leaf in f && leaf.kind == Leaf
    ensures leaf.id !in OpenIdsIn(s)
  {
    var i :| 0 <= i < |f| && f[i] == leaf;
    forall n | n in s && IsOpenBranch(n)
      ensures n.id != leaf.id
    {
      var j :| 0 <= j < |f| && f[j] == n;
      assert i != j;
    }
  }

  /** With unique ids, no leaf's id is ever added. */
  lemma NoLeafIds(search: string, data: seq<Node>, previous: set<string>, leaf: Node)
    requires search != "" && |data| > 0 && UniqueIds(data)
    requires leaf in Flatten(data) && leaf.kind == Leaf
    ensures leaf.id !in SearchExpansion(search, data, previous)
  {
    BranchReachWithin(data);
    LeafNotOpen(BranchReach(data), Flatten(data), leaf);
  }

  /** On well-kinded data (leaves own no children) the collection reaches
      every node, so it opens every branch with children: the same set the
      components start from in `defaultExpanded` mode. */
  lemma {:induction false} ReachAllWhenWellKinded(ns: seq<Node>)
    requires forall x :: x in Flatten(ns) && x.kind == Leaf ==> x.children.Absent?
    ensures BranchReach(ns) == Flatten(ns)
  {
    if |ns| > 0 {
      var n := ns[0];
      var below := if n.children.Present? then Flatten(n.children.list) else [];
      assert Flatten(ns) == [n] + below + Flatten(ns[1..]);
      assert forall x :: x in Flatten(ns[1..]) ==> x in Flatten(ns);
      ReachAllWhenWellKinded(ns[1..]);
      assert n in Flatten(ns);
      if n.children.Present? {
        assert forall x :: x in below ==> x in Flatten(ns);
        ReachAllWhenWellKinded(n.children.list);
        if |n.children.list| == 0 {
          assert below == [];
        }
      }
    }
  }

  /** Where leaves own no children, the branches with children are the
      nodes with children. */
  lemma OpenIdsAreBranchIds(s: seq<Node>)
    requires forall x :: x in s && x.kind == Leaf ==> x.children.Absent?
    ensures OpenIdsIn(s) == BranchIds(s)
  {
    forall x | x in s
      ensures IsOpenBranch(x) <==> HasKids(x)
    {
    }
  }

  lemma SearchExpansionOpensAllBranches(search: string, data: seq<Node>, previous: set<string>)
    requires search != "" && |data| > 0
    requires forall x :: x in Flatten(data) && x.kind == Leaf ==> x.children.Absent?
    ensures SearchExpansion(search, data, previous) == InitialExpanded(data, true)
  {
    ReachAllWhenWellKinded(data);
    OpenIdsAreBranchIds(Flatten(data));
  }
}
