/**
 The tree the combobox shows and the read-only helpers over it: the pre-order
 "visible" flattening under an expansion set (`getVisibleNodes`), the parent
 lookup that only descends through expanded nodes (`findParentNode`), the
 root-to-node breadcrumb path (`buildNodePath`) and the all-branches initial
 expansion set.
 */
module Tree {
  import opened Wrappers

  /** `TreeNodeType.NODE` / `TreeNodeType.LEAF` */
  datatype Kind = Branch | Leaf

  /** The optional `children` field: `Absent` is `undefined`, `Present([])`
      is an empty array (truthy in JavaScript, but of length 0). */
  datatype Children = Absent | Present(list: seq<Node>)

  /** A tree node; `caption` is the source's `label`. */
  datatype Node = Node(id: string, caption: string, kind: Kind, children: Children)

  /** The children list, empty when the field is absent. */
  function Kids(n: Node): seq<Node> {
    if n.children.Present? then n.children.list else []
  }

  /** `node.children?.length` is truthy. */
  predicate HasKids(n: Node) {
    n.children.Present? && |n.children.list| > 0
  }

  /** `defaultExpanded || expandedNodes.has(node.id)` */
  predicate IsOpen(n: Node, expanded: set<string>, defaultExpanded: bool) {
    defaultExpanded || n.id in expanded
  }

  /** `p` is shown open and lists `x` among its children. */
  predicate OpensTo(p: Node, x: Node, expanded: set<string>, defaultExpanded: bool) {
    p.children.Present? && IsOpen(p, expanded, defaultExpanded) && x in p.children.list
  }

  /** `nodes.some(child => child.id === id)` */
  predicate HasChildId(nodes: seq<Node>, id: string) {
    exists c :: c in nodes && c.id == id
  }

  /** Every node of the forest, depth first in pre-order, following every
      children list regardless of expansion. */
  function Flatten(ns: seq<Node>): (r: seq<Node>)
    ensures forall n :: n in ns ==> n in r
  {
    if |ns| == 0 then []
    else [ns[0]] + (if ns[0].children.Present? then Flatten(ns[0].children.list) else []) + Flatten(ns[1..])
  }

  /** `getVisibleNodes`: depth first, pre-order; a node's children follow it
      only when it has a children field and is open. */
  function Visible(ns: seq<Node>, expanded: set<string>, defaultExpanded: bool): (r: seq<Node>)
    ensures forall n :: n in ns ==> n in r
  {
    if |ns| == 0 then []
    else
      [ns[0]]
      + (if ns[0].children.Present? && IsOpen(ns[0], expanded, defaultExpanded)
         then Visible(ns[0].children.list, expanded, defaultExpanded) else [])
      + Visible(ns[1..], expanded, defaultExpanded)
  }

  lemma {:induction false} FlattenAppend(a: seq<Node>, b: seq<Node>)
    ensures Flatten(a + b) == Flatten(a) + Flatten(b)
  {
    if |a| == 0 {
      assert a + b == b;
    } else {
      assert (a + b)[0] == a[0];
      assert (a + b)[1..] == a[1..] + b;
      FlattenAppend(a[1..], b);
    }
  }

  /** The listing of one tree: the tree, then its descendants. */
  lemma FlattenOne(n: Node)
    ensures Flatten([n]) == [n] + Flatten(Kids(n))
  {
    assert Flatten([n]) == [n] + Flatten(Kids(n)) + Flatten([n][1..]);
  }

  /** The listing of a forest: its first tree's listing, then the rest's. */
  lemma FlattenCons(ns: seq<Node>)
    requires |ns| > 0
    ensures Flatten(ns) == Flatten([ns[0]]) + Flatten(ns[1..])
  {
    FlattenOne(ns[0]);
  }

  lemma {:induction false} VisibleAppend(a: seq<Node>, b: seq<Node>, expanded: set<string>, defaultExpanded: bool)
    ensures Visible(a + b, expanded, defaultExpanded)
         == Visible(a, expanded, defaultExpanded) + Visible(b, expanded, defaultExpanded)
  {
    if |a| == 0 {
      assert a + b == b;
    } else {
      assert (a + b)[0] == a[0];
      assert (a + b)[1..] == a[1..] + b;
      VisibleAppend(a[1..], b, expanded, defaultExpanded);
    }
  }

  /** The visible list of a non-empty list starts with its first root. */
  lemma VisibleCons(ns: seq<Node>, expanded: set<string>, defaultExpanded: bool)
    requires |ns| > 0
    ensures Visible(ns, expanded, defaultExpanded)
         == [ns[0]]
            + (if ns[0].children.Present? && IsOpen(ns[0], expanded, defaultExpanded)
               then Visible(ns[0].children.list, expanded, defaultExpanded) else [])
            + Visible(ns[1..], expanded, defaultExpanded)
  {
  }

  /** Pre-order at any root: the list is everything before that root, the
      root itself, its subtree when it is open, then everything after. */
  lemma VisibleAtRoot(ns: seq<Node>, i: nat, expanded: set<string>, defaultExpanded: bool)
    requires i < |ns|
    ensures Visible(ns, expanded, defaultExpanded)
         == Visible(ns[..i], expanded, defaultExpanded)
            + [ns[i]]
            + (if ns[i].children.Present? && IsOpen(ns[i], expanded, defaultExpanded)
               then Visible(ns[i].children.list, expanded, defaultExpanded) else [])
            + Visible(ns[i + 1..], expanded, defaultExpanded)
  {
    var rest := ns[i..];
    assert rest[0] == ns[i] && rest[1..] == ns[i + 1..];
    VisibleCons(rest, expanded, defaultExpanded);
    assert ns == ns[..i] + rest;
    VisibleAppend(ns[..i], rest, expanded, defaultExpanded);
    ConcatAssoc(Visible(ns[..i], expanded, defaultExpanded), [ns[i]],
      if ns[i].children.Present? && IsOpen(ns[i], expanded, defaultExpanded)
      then Visible(ns[i].children.list, expanded, defaultExpanded) else [],
      Visible(ns[i + 1..], expanded, defaultExpanded));
  }

  lemma ConcatAssoc(a: seq<Node>, b: seq<Node>, c: seq<Node>, d: seq<Node>)
    ensures a + (b + c + d) == a + b + c + d
  {
  }

  /** With no root open (in particular with an empty set and no
      `defaultExpanded`) the visible list is exactly the root list. */
  lemma {:induction false} VisibleAllClosed(ns: seq<Node>, expanded: set<string>, defaultExpanded: bool)
    requires forall n :: n in ns ==> !IsOpen(n, expanded, defaultExpanded)
    ensures Visible(ns, expanded, defaultExpanded) == ns
  {
    if |ns| > 0 {
      assert ns[0] in ns;
      assert forall n :: n in ns[1..] ==> n in ns;
      VisibleAllClosed(ns[1..], expanded, defaultExpanded);
      assert ns == [ns[0]] + ns[1..];
    }
  }

  lemma VisibleCollapsed(ns: seq<Node>)
    ensures Visible(ns, {}, false) == ns
  {
    VisibleAllClosed(ns, {}, false);
  }

  /** With `defaultExpanded` every node is visible: the visible list is the
      full pre-order flattening. */
  lemma {:induction false} VisibleFullyExpanded(ns: seq<Node>, expanded: set<string>)
    ensures Visible(ns, expanded, true) == Flatten(ns)
  {
    if |ns| > 0 {
      if ns[0].children.Present? {
        VisibleFullyExpanded(ns[0].children.list, expanded);
      }
      VisibleFullyExpanded(ns[1..], expanded);
    }
  }

  /** Every visible node is a node of the forest. */
  lemma {:induction false} VisibleWithin(ns: seq<Node>, expanded: set<string>, defaultExpanded: bool)
    ensures forall x :: x in Visible(ns, expanded, defaultExpanded) ==> x in Flatten(ns)
  {
    if |ns| > 0 {
      if ns[0].children.Present? {
        VisibleWithin(ns[0].children.list, expanded, defaultExpanded);
      }
      VisibleWithin(ns[1..], expanded, defaultExpanded);
    }
  }

  /** Opening more nodes never hides a node. */
  lemma {:induction false} VisibleMonotone(ns: seq<Node>, e1: set<string>, e2: set<string>, defaultExpanded: bool)
    requires e1 <= e2
    ensures forall x :: x in Visible(ns, e1, defaultExpanded) ==> x in Visible(ns, e2, defaultExpanded)
  {
    if |ns| > 0 {
      if ns[0].children.Present? {
        VisibleMonotone(ns[0].children.list, e1, e2, defaultExpanded);
      }
      VisibleMonotone(ns[1..], e1, e2, defaultExpanded);
    }
  }

  /** The children of a visible open node are visible. */
  lemma {:induction false} OpenChildrenVisible(ns: seq<Node>, expanded: set<string>, defaultExpanded: bool, p: Node, x: Node)
    requires p in Visible(ns, expanded, defaultExpanded)
    requires OpensTo(p, x, expanded, defaultExpanded)
    ensures x in Visible(ns, expanded, defaultExpanded)
  {
    var n := ns[0];
    var below := if n.children.Present? && IsOpen(n, expanded, defaultExpanded)
                 then Visible(n.children.list, expanded, defaultExpanded) else [];
    var rest := Visible(ns[1..], expanded, defaultExpanded);
    assert Visible(ns, expanded, defaultExpanded) == [n] + below + rest;
    if p == n {
      assert x in below;
    } else if p in below {
      OpenChildrenVisible(n.children.list, expanded, defaultExpanded, p, x);
    } else {
      assert p in rest;
      OpenChildrenVisible(ns[1..], expanded, defaultExpanded, p, x);
    }
  }

  /** A visible node is a root or a child of a visible open node. */
  lemma {:induction false} VisibleReachable(ns: seq<Node>, expanded: set<string>, defaultExpanded: bool, x: Node)
    requires x in Visible(ns, expanded, defaultExpanded)
    ensures x in ns || exists p :: p in Visible(ns, expanded, defaultExpanded) && OpensTo(p, x, expanded, defaultExpanded)
  {
    var v := Visible(ns, expanded, defaultExpanded);
    var n := ns[0];
    var below := if n.children.Present? && IsOpen(n, expanded, defaultExpanded)
                 then Visible(n.children.list, expanded, defaultExpanded) else [];
    var rest := Visible(ns[1..], expanded, defaultExpanded);
    assert v == [n] + below + rest;
    if x == n {
    } else if x in below {
      VisibleReachable(n.children.list, expanded, defaultExpanded, x);
      if x in n.children.list {
        assert OpensTo(n, x, expanded, defaultExpanded);
      } else {
        var p :| p in below && OpensTo(p, x, expanded, defaultExpanded);
        assert p in v;
      }
    } else {
      assert x in rest;
      VisibleReachable(ns[1..], expanded, defaultExpanded, x);
      if x in ns[1..] {
      } else {
        var p :| p in rest && OpensTo(p, x, expanded, defaultExpanded);
        assert p in v;
      }
    }
  }

  /** Reachability characterisation: a node is visible exactly when it is a
      root or a child of a visible open node. */
  lemma VisibleIff(ns: seq<Node>, expanded: set<string>, defaultExpanded: bool, x: Node)
    ensures x in Visible(ns, expanded, defaultExpanded)
        <==> x in ns || exists p :: p in Visible(ns, expanded, defaultExpanded) && OpensTo(p, x, expanded, defaultExpanded)
  {
    if x in Visible(ns, expanded, defaultExpanded) {
      VisibleReachable(ns, expanded, defaultExpanded, x);
    } else if x !in ns {
      forall p | p in Visible(ns, expanded, defaultExpanded)
        ensures !OpensTo(p, x, expanded, defaultExpanded)
      {
        if OpensTo(p, x, expanded, defaultExpanded) {
          OpenChildrenVisible(ns, expanded, defaultExpanded, p, x);
        }
      }
    }
  }

  /** The first node of a list that has a child with the given id. */
  function FirstParent(s: seq<Node>, id: string): (r: Option<Node>)
    ensures r.Some? ==> r.value in s && HasChildId(Kids(r.value), id)
    ensures r.None? ==> forall p :: p in s ==> !HasChildId(Kids(p), id)
  {
    if |s| == 0 then None
    else if s[0].children.Present? && HasChildId(s[0].children.list, id) then Some(s[0])
    else FirstParent(s[1..], id)
  }

  lemma {:induction false} FirstParentAppend(a: seq<Node>, b: seq<Node>, id: string)
    ensures FirstParent(a + b, id) == FirstParent(a, id).OrElse(FirstParent(b, id))
  {
    if |a| == 0 {
      assert a + b == b;
    } else {
      assert (a + b)[0] == a[0];
      assert (a + b)[1..] == a[1..] + b;
      FirstParentAppend(a[1..], b, id);
    }
  }

  /** `findParentNode`: the first node, descending only into open nodes,
      that lists a child with the given id; `None` for `null`. */
  function FindParent(id: string, ns: seq<Node>, expanded: set<string>, defaultExpanded: bool): (r: Option<Node>)
    ensures r.Some? ==> HasChildId(Kids(r.value), id)
    ensures r.Some? ==> r.value in Visible(ns, expanded, defaultExpanded)
  {
    if |ns| == 0 then None
    else if ns[0].children.Present? && HasChildId(ns[0].children.list, id) then Some(ns[0])
    else
      var inner := if ns[0].children.Present? && IsOpen(ns[0], expanded, defaultExpanded)
                   then FindParent(id, ns[0].children.list, expanded, defaultExpanded) else None;
      if inner.Some? then inner else FindParent(id, ns[1..], expanded, defaultExpanded)
  }

  /** The parent lookup scans exactly the visible list: its answer is the
      first visible node that has a child with that id. */
  lemma {:induction false} FindParentIsFirstVisibleParent(id: string, ns: seq<Node>, expanded: set<string>, defaultExpanded: bool)
    ensures FindParent(id, ns, expanded, defaultExpanded) == FirstParent(Visible(ns, expanded, defaultExpanded), id)
  {
    if |ns| > 0 {
      var n := ns[0];
      var below := if n.children.Present? && IsOpen(n, expanded, defaultExpanded)
                   then Visible(n.children.list, expanded, defaultExpanded) else [];
      var rest := Visible(ns[1..], expanded, defaultExpanded);
      assert Visible(ns, expanded, defaultExpanded) == [n] + (below + rest);
      assert ([n] + (below + rest))[1..] == below + rest;
      FirstParentAppend(below, rest, id);
      FindParentIsFirstVisibleParent(id, ns[1..], expanded, defaultExpanded);
      if n.children.Present? && IsOpen(n, expanded, defaultExpanded) {
        FindParentIsFirstVisibleParent(id, n.children.list, expanded, defaultExpanded);
      }
    }
  }

  /** Each element of `p` from position `k` on is a direct child of its predecessor. */
  ghost predicate ChainFrom(p: seq<Node>, k: nat) {
    forall i :: k <= i < |p| - 1 ==> p[i + 1] in Kids(p[i])
  }

  /** No node of the forest carries the id. */
  ghost predicate Absent(ns: seq<Node>, id: string) {
    forall x :: x in Flatten(ns) ==> x.id != id
  }

  /** No node carries the id exactly when neither the first tree nor the
      others do. */
  lemma AbsentCons(ns: seq<Node>, id: string)
    requires |ns| > 0
    ensures Absent(ns, id) <==> ns[0].id != id && Absent(Kids(ns[0]), id) && Absent(ns[1..], id)
  {
    FlattenCons(ns);
    FlattenOne(ns[0]);
    assert Flatten(ns) == [ns[0]] + Flatten(Kids(ns[0])) + Flatten(ns[1..]);
  }

  /** Some node of the forest carries the id, searched in pre-order. */
  predicate Occurs(ns: seq<Node>, id: string) {
    |ns| > 0
    && (ns[0].id == id
        || (ns[0].children.Present? && Occurs(ns[0].children.list, id))
        || Occurs(ns[1..], id))
  }

  /** The search finds the id exactly when some node carries it. */
  lemma {:induction false} OccursIff(ns: seq<Node>, id: string)
    ensures Occurs(ns, id) <==> !Absent(ns, id)
  {
    if |ns| > 0 {
      AbsentCons(ns, id);
      OccursIff(ns[1..], id);
      if ns[0].children.Present? {
        OccursIff(ns[0].children.list, id);
      } else {
        assert Flatten(Kids(ns[0])) == [];
      }
    }
  }

  /** The `traverse` helper of `buildNodePath`: the path below `prefix` to
      the first node, in full pre-order, that carries the id. */
  function PathIn(id: string, ns: seq<Node>, prefix: seq<Node>): (r: Option<seq<Node>>)
    ensures r.Some? ==> |r.value| > |prefix| && r.value[..|prefix|] == prefix
    ensures r.Some? ==> r.value[|prefix|] in ns && r.value[|r.value| - 1].id == id
    ensures r.Some? ==> ChainFrom(r.value, |prefix|)
    ensures r.None? <==> !Occurs(ns, id)
  {
    if |ns| == 0 then None
    else if ns[0].id == id then Some(prefix + [ns[0]])
    else
      var inner := if ns[0].children.Present? then PathIn(id, ns[0].children.list, prefix + [ns[0]]) else None;
      if inner.Some? then
        assert inner.value[..|prefix|] == (inner.value[..|prefix| + 1])[..|prefix|];
        assert inner.value[|prefix|] == ns[0];
        inner
      else PathIn(id, ns[1..], prefix)
  }

  /** `buildNodePath`: the root-to-node chain ending in the node with the id,
      ignoring expansion; empty when no node has that id. */
  function BuildPath(id: string, ns: seq<Node>): (r: seq<Node>)
    ensures r == [] <==> Absent(ns, id)
    ensures r != [] ==> r[0] in ns && r[|r| - 1].id == id && ChainFrom(r, 0)
  {
    OccursIff(ns, id);
    match PathIn(id, ns, [])
    case Some(p) => p
    case None => []
  }

  /** The selection's `parentPath`: `buildNodePath(...).slice(0, -1)`, the
      ancestors of the node from the root down to its parent. */
  function ParentPath(id: string, ns: seq<Node>): (r: seq<Node>)
    ensures Absent(ns, id) ==> r == []
    ensures r != [] ==> r[0] in ns && ChainFrom(r, 0) && HasChildId(Kids(r[|r| - 1]), id)
    ensures !Absent(ns, id) ==> |r| + 1 == |BuildPath(id, ns)|
  {
    var path := BuildPath(id, ns);
    if |path| == 0 then []
    else
      var r := path[..|path| - 1];
      assert r != [] ==> path[|r|] in Kids(r[|r| - 1]);
      r
  }

  /** The `collectIds` helper: ids of nodes with a non-empty children list,
      descending only through such nodes. */
  function CollectBranchIds(ns: seq<Node>): set<string> {
    if |ns| == 0 then {}
    else
      (if ns[0].children.Present? && |ns[0].children.list| > 0
       then {ns[0].id} + CollectBranchIds(ns[0].children.list) else {})
      + CollectBranchIds(ns[1..])
  }

  /** Ids of the nodes of a list that have a non-empty children list. */
  ghost function BranchIds(s: seq<Node>): set<string> {
    set x | x in s && HasKids(x) :: x.id
  }

  lemma BranchIdsAppend(a: seq<Node>, b: seq<Node>)
    ensures BranchIds(a + b) == BranchIds(a) + BranchIds(b)
  {
  }

  /** Descending only through non-empty lists still reaches every node that
      has children, so the collected set is every branch id of the forest. */
  lemma {:induction false} CollectIsBranchIds(ns: seq<Node>)
    ensures CollectBranchIds(ns) == BranchIds(Flatten(ns))
  {
    if |ns| > 0 {
      var n := ns[0];
      var below := if n.children.Present? then Flatten(n.children.list) else [];
      assert Flatten(ns) == [n] + below + Flatten(ns[1..]);
      BranchIdsAppend([n] + below, Flatten(ns[1..]));
      BranchIdsAppend([n], below);
      CollectIsBranchIds(ns[1..]);
      if n.children.Present? {
        CollectIsBranchIds(n.children.list);
        if |n.children.list| == 0 {
          assert below == [];
        }
      }
    }
  }

  /** The initial expansion set: every branch id with `defaultExpanded`,
      otherwise empty. */
  function InitialExpanded(data: seq<Node>, defaultExpanded: bool): (r: set<string>)
    ensures !defaultExpanded ==> r == {}
    ensures defaultExpanded ==> r == BranchIds(Flatten(data))
  {
    if !defaultExpanded then {}
    else
      CollectIsBranchIds(data);
      CollectBranchIds(data)
  }

  /** No two nodes of the list share an id. */
  ghost predicate DistinctIds(s: seq<Node>) {
    forall i, j :: 0 <= i < j < |s| ==> s[i].id != s[j].id
  }

  /** The forest's ids are unique, as the host must guarantee. */
  ghost predicate UniqueIds(ns: seq<Node>) {
    DistinctIds(Flatten(ns))
  }

  lemma DistinctIdsConcat(a: seq<Node>, b: seq<Node>)
    ensures DistinctIds(a + b)
        <==> DistinctIds(a) && DistinctIds(b) && forall x, y :: x in a && y in b ==> x.id != y.id
  {
    var ab := a + b;
    if DistinctIds(a) && DistinctIds(b) && forall x, y :: x in a && y in b ==> x.id != y.id {
      forall i, j | 0 <= i < j < |ab|
        ensures ab[i].id != ab[j].id
      {
        if j < |a| {
          assert ab[i] == a[i] && ab[j] == a[j];
        } else if i >= |a| {
          assert ab[i] == b[i - |a|] && ab[j] == b[j - |a|];
        } else {
          assert ab[i] == a[i] && ab[j] == b[j - |a|];
        }
      }
    }
    if DistinctIds(ab) {
      forall i, j | 0 <= i < j < |a|
        ensures a[i].id != a[j].id
      {
        assert ab[i] == a[i] && ab[j] == a[j];
      }
      forall i, j | 0 <= i < j < |b|
        ensures b[i].id != b[j].id
      {
        assert ab[|a| + i] == b[i] && ab[|a| + j] == b[j];
      }
      forall x, y | x in a && y in b
        ensures x.id != y.id
      {
        var i :| 0 <= i < |a| && a[i] == x;
        var j :| 0 <= j < |b| && b[j] == y;
        assert ab[i] == x && ab[|a| + j] == y;
      }
    }
  }

  /** With unique forest ids, the visible list never repeats an id. */
  lemma {:induction false} UniqueVisible(ns: seq<Node>, expanded: set<string>, defaultExpanded: bool)
    requires UniqueIds(ns)
    ensures DistinctIds(Visible(ns, expanded, defaultExpanded))
  {
    if |ns| > 0 {
      var n := ns[0];
      var fb := if n.children.Present? then Flatten(n.children.list) else [];
      var fr := Flatten(ns[1..]);
      var vb := if n.children.Present? && IsOpen(n, expanded, defaultExpanded)
                then Visible(n.children.list, expanded, defaultExpanded) else [];
      var vr := Visible(ns[1..], expanded, defaultExpanded);
      assert Flatten(ns) == [n] + fb + fr;
      DistinctIdsConcat([n] + fb, fr);
      DistinctIdsConcat([n], fb);
      UniqueVisible(ns[1..], expanded, defaultExpanded);
      VisibleWithin(ns[1..], expanded, defaultExpanded);
      if n.children.Present? && IsOpen(n, expanded, defaultExpanded) {
        UniqueVisible(n.children.list, expanded, defaultExpanded);
        VisibleWithin(n.children.list, expanded, defaultExpanded);
      }
      assert forall x :: x in vb ==> x in fb;
      assert forall x :: x in vr ==> x in fr;
      DistinctIdsConcat([n], vb);
      DistinctIdsConcat([n] + vb, vr);
      assert Visible(ns, expanded, defaultExpanded) == [n] + vb + vr;
    }
  }
}
