/**
 The host's prune-at-match search (`searchNodes`/`filterTree` of the handbook
 hook): a matching branch is kept with its children cut to an empty list, a
 non-matching branch is kept only with its surviving children, and a leaf is
 kept unchanged exactly when it matches.
 */
module Handbook {
  import opened Wrappers
  import opened Text
  import opened Tree
  import Search

  /** `filterTree(node)` of the handbook hook. */
  function PruneNode(n: Node, term: string): (r: Option<Node>)
    decreases n, 1
    ensures r.Some? ==> r.value.id == n.id && r.value.caption == n.caption && r.value.kind == n.kind
    ensures n.kind == Branch && Matches(n.caption, term) ==> r == Some(n.(children := Present([])))
    ensures n.kind == Leaf ==> r == (if Matches(n.caption, term) then Some(n) else None)
    ensures n.kind == Branch && !Matches(n.caption, term) && r.Some? ==>
              HasKids(n) && HasKids(r.value) && r.value.children.list == PruneForest(n.children.list, term)
  {
    if n.kind == Branch then
      if Matches(n.caption, term) then Some(n.(children := Present([])))
      else if n.children.Present? && |n.children.list| > 0 then
        var kept := PruneForest(n.children.list, term);
        if |kept| > 0 then Some(n.(children := Present(kept))) else None
      else None
    else if Matches(n.caption, term) then Some(n)
    else None
  }

  /** `nodes.map(filterTree).filter(node => node !== null)` */
  function PruneForest(ns: seq<Node>, term: string): (r: seq<Node>)
    decreases ns, 0
    ensures |r| <= |ns|
  {
    if |ns| == 0 then []
    else
      (match PruneNode(ns[0], term) case Some(x) => [x] case None => [])
      + PruneForest(ns[1..], term)
  }

  /** The handbook's `searchNodes` without its timer: the empty term returns
      the forest unchanged. */
  function SearchHandbook(ns: seq<Node>, term: string): (r: seq<Node>)
    ensures term == "" ==> r == ns
    ensures term != "" ==> forall x :: x in r ==> Justified(x, term)
    ensures Search.IsSubsequence(Search.RootIds(r), Search.RootIds(ns))
  {
    if term == "" then
      SubsequenceRefl(Search.RootIds(ns));
      ns
    else
      PruneSound(ns, term);
      PruneKeepsOrder(ns, term);
      PruneForest(ns, term)
  }

  /** A node of the result is justified: it matches directly, or it is a
      branch whose children list is non-empty and made of justified nodes. */
  ghost predicate Justified(x: Node, term: string)
    decreases x
  {
    Matches(x.caption, term)
    || (x.kind == Branch && x.children.Present? && |x.children.list| > 0
        && forall c :: c in x.children.list ==> Justified(c, term))
  }

  /** Soundness: every surviving node is justified. */
  lemma {:induction false} PruneNodeSound(n: Node, term: string)
    decreases n, 1
    ensures PruneNode(n, term).Some? ==> Justified(PruneNode(n, term).value, term)
  {
    if n.kind == Branch && !Matches(n.caption, term) && n.children.Present? && |n.children.list| > 0 {
      PruneSound(n.children.list, term);
    }
  }

  lemma {:induction false} PruneSound(ns: seq<Node>, term: string)
    decreases ns, 0
    ensures forall x :: x in PruneForest(ns, term) ==> Justified(x, term)
  {
    if |ns| > 0 {
      PruneNodeSound(ns[0], term);
      PruneSound(ns[1..], term);
    }
  }

  lemma SubsequenceRefl(a: seq<string>)
    ensures Search.IsSubsequence(a, a)
  {
    if |a| > 0 {
      SubsequenceRefl(a[1..]);
    }
  }

  /** The top-level result keeps the input's order. */
  lemma {:induction false} PruneKeepsOrder(ns: seq<Node>, term: string)
    ensures Search.IsSubsequence(Search.RootIds(PruneForest(ns, term)), Search.RootIds(ns))
  {
    if |ns| > 0 {
      PruneKeepsOrder(ns[1..], term);
      var tail := PruneForest(ns[1..], term);
      Search.RootIdsTail(ns);
      match PruneNode(ns[0], term)
      case Some(x) =>
        assert PruneForest(ns, term) == [x] + tail;
        assert ([x] + tail)[1..] == tail;
        Search.RootIdsTail([x] + tail);
      case None =>
        assert PruneForest(ns, term) == tail;
    }
  }

  /** Leaves own no children, as the `LEAF` variant of the node type says. */
  ghost predicate WellKinded(ns: seq<Node>) {
    forall x :: x in Flatten(ns) && x.kind == Leaf ==> x.children.Absent?
  }

  /** On a well-kinded forest the pruning search keeps exactly the nodes the
      keep-subtree search keeps: those whose subtree holds a match. */
  lemma {:induction false} PruneNodeKeepsIff(n: Node, term: string)
    requires WellKinded([n])
    decreases n, 1
    ensures PruneNode(n, term).Some? <==> Search.AnyMatch(Flatten([n]), term)
  {
    FlattenOne(n);
    Search.AnyMatchAppend([n], Flatten(Kids(n)), term);
    Search.AnyMatchOne(n, term);
    if n.kind == Branch && !Matches(n.caption, term) && HasKids(n) {
      assert WellKinded(n.children.list);
      PruneForestKeepsIff(n.children.list, term);
    }
  }

  lemma {:induction false} PruneForestKeepsIff(ns: seq<Node>, term: string)
    requires WellKinded(ns)
    decreases ns, 0
    ensures |PruneForest(ns, term)| > 0 <==> Search.AnyMatch(Flatten(ns), term)
  {
    if |ns| > 0 {
      WellKindedParts(ns);
      PruneNodeKeepsIff(ns[0], term);
      PruneForestKeepsIff(ns[1..], term);
      FlattenCons(ns);
      Search.AnyMatchAppend(Flatten([ns[0]]), Flatten(ns[1..]), term);
    }
  }

  /** Well-kindedness holds of a forest's first tree and of its other trees. */
  lemma WellKindedParts(ns: seq<Node>)
    requires |ns| > 0 && WellKinded(ns)
    ensures WellKinded([ns[0]]) && WellKinded(ns[1..])
  {
    FlattenCons(ns);
  }

  lemma RootIdsAppend(a: seq<Node>, b: seq<Node>)
    ensures Search.RootIds(a + b) == Search.RootIds(a) + Search.RootIds(b)
  {
  }

  /** The first tree of a forest survives both searches alike. */
  lemma SameHead(n: Node, term: string)
    requires WellKinded([n])
    ensures PruneNode(n, term).Some? <==> Search.FilterNode(n, term).Some?
  {
    PruneNodeKeepsIff(n, term);
    Search.FilterNodeKeepsIff(n, term);
  }

  /** Both searches agree on which roots survive. */
  lemma {:induction false} SameRootsAsKeepSubtree(ns: seq<Node>, term: string)
    requires WellKinded(ns)
    ensures Search.RootIds(PruneForest(ns, term)) == Search.RootIds(Search.FilterForest(ns, term))
  {
    if |ns| > 0 {
      WellKindedParts(ns);
      SameHead(ns[0], term);
      SameRootsAsKeepSubtree(ns[1..], term);
      var p := PruneForest(ns[1..], term);
      var f := Search.FilterForest(ns[1..], term);
      var hp := match PruneNode(ns[0], term) case Some(x) => [x] case None => [];
      var hf := match Search.FilterNode(ns[0], term) case Some(y) => [y] case None => [];
      assert Search.RootIds(hp) == Search.RootIds(hf);
      assert PruneForest(ns, term) == hp + p;
      assert Search.FilterForest(ns, term) == hf + f;
      RootIdsAppend(hp, p);
      RootIdsAppend(hf, f);
    }
  }
}
