/**
 The keep-subtree search of both combobox variants (`searchNodes` with its
 inner `filterTree`): a node survives when its label matches or one of its
 children survives; survivors keep their order; a survivor without surviving
 children loses its `children` field; and every node on the way down to a
 survivor is recorded for auto-expansion. Also the first-match lookup of the
 generic variant's search effect.
 */
module Search {
  import opened Wrappers
  import opened Text
  import opened Tree

  /** `filterTree(node, parents)` without its expansion side effect. */
  function FilterNode(n: Node, term: string): (r: Option<Node>)
    decreases n, 1
    ensures r.Some? ==> r.value.id == n.id && r.value.caption == n.caption && r.value.kind == n.kind
    ensures r.Some? ==> r.value.children.Absent? || |r.value.children.list| > 0
    ensures r.Some? && r.value.children.Absent? ==> Matches(n.caption, term)
    ensures Matches(n.caption, term) ==> r.Some?
    ensures r.Some? && r.value.children.Present? ==>
              HasKids(n) && r.value.children.list == FilterForest(n.children.list, term)
  {
    var kept := if n.children.Present? && |n.children.list| > 0 then FilterForest(n.children.list, term) else [];
    if Matches(n.caption, term) || |kept| > 0 then
      Some(n.(children := if |kept| > 0 then Present(kept) else Absent))
    else None
  }

  /** `nodes.map(filterTree).filter(node => node !== null)` */
  function FilterForest(ns: seq<Node>, term: string): (r: seq<Node>)
    decreases ns, 0
    ensures |r| <= |ns|
  {
    if |ns| == 0 then []
    else
      (match FilterNode(ns[0], term) case Some(x) => [x] case None => [])
      + FilterForest(ns[1..], term)
  }

  /** The ids of a list, in order. */
  function RootIds(s: seq<Node>): (r: seq<string>)
    ensures |r| == |s| && forall i :: 0 <= i < |s| ==> r[i] == s[i].id
  {
    seq(|s|, i requires 0 <= i < |s| => s[i].id)
  }

  /** Dropping the first node drops the first id. */
  lemma RootIdsTail(ns: seq<Node>)
    requires |ns| > 0
    ensures RootIds(ns)[0] == ns[0].id && RootIds(ns)[1..] == RootIds(ns[1..])
  {
  }

  /** `a` is `b` with some elements dropped. */
  predicate IsSubsequence(a: seq<string>, b: seq<string>) {
    |a| == 0 || (|b| > 0 && ((a[0] == b[0] && IsSubsequence(a[1..], b[1..])) || IsSubsequence(a, b[1..])))
  }

  /** Survivors keep their relative order: the ids of the result are a
      subsequence of the ids of the input. */
  lemma {:induction false} FilterKeepsOrder(ns: seq<Node>, term: string)
    ensures IsSubsequence(RootIds(FilterForest(ns, term)), RootIds(ns))
  {
    if |ns| > 0 {
      FilterKeepsOrder(ns[1..], term);
      var tail := FilterForest(ns[1..], term);
      RootIdsTail(ns);
      match FilterNode(ns[0], term)
      case Some(x) =>
        assert FilterForest(ns, term) == [x] + tail;
        assert ([x] + tail)[1..] == tail;
        RootIdsTail([x] + tail);
      case None =>
        assert FilterForest(ns, term) == tail;
    }
  }

  /** Some node of the list matches the term. */
  ghost predicate AnyMatch(s: seq<Node>, term: string) {
    exists x :: x in s && Matches(x.caption, term)
  }

  lemma AnyMatchAppend(a: seq<Node>, b: seq<Node>, term: string)
    ensures AnyMatch(a + b, term) <==> AnyMatch(a, term) || AnyMatch(b, term)
  {
    if AnyMatch(a + b, term) {
      var x :| x in a + b && Matches(x.caption, term);
      assert x in a || x in b;
    }
    if AnyMatch(a, term) {
      var x :| x in a && Matches(x.caption, term);
      assert x in a + b;
    }
    if AnyMatch(b, term) {
      var x :| x in b && Matches(x.caption, term);
      assert x in a + b;
    }
  }

  /** A single node holds a match exactly when its label matches. */
  lemma AnyMatchOne(n: Node, term: string)
    ensures AnyMatch([n], term) <==> Matches(n.caption, term)
  {
    if AnyMatch([n], term) {
      var x :| x in [n] && Matches(x.caption, term);
    }
  }

  /** A node survives exactly when some node of its subtree matches. */
  lemma {:induction false} FilterNodeKeepsIff(n: Node, term: string)
    decreases n, 1
    ensures FilterNode(n, term).Some? <==> AnyMatch(Flatten([n]), term)
  {
    FlattenOne(n);
    AnyMatchAppend([n], Flatten(Kids(n)), term);
    AnyMatchOne(n, term);
    if n.children.Present? {
      FilterForestKeepsIff(n.children.list, term);
    }
  }

  /** The filtered forest is non-empty exactly when some node matches. */
  lemma {:induction false} FilterForestKeepsIff(ns: seq<Node>, term: string)
    decreases ns, 0
    ensures |FilterForest(ns, term)| > 0 <==> AnyMatch(Flatten(ns), term)
  {
    if |ns| > 0 {
      FilterNodeKeepsIff(ns[0], term);
      FilterForestKeepsIff(ns[1..], term);
      FlattenCons(ns);
      AnyMatchAppend(Flatten([ns[0]]), Flatten(ns[1..]), term);
    }
  }

  /** Every node of the result either matches or keeps a non-empty list of
      surviving children. */
  lemma {:induction false} FilterSound(ns: seq<Node>, term: string)
    ensures forall x :: x in Flatten(FilterForest(ns, term)) ==>
              Matches(x.caption, term) || (x.children.Present? && |x.children.list| > 0)
    ensures forall x :: x in Flatten(FilterForest(ns, term)) ==>
              x.children.Present? ==> |x.children.list| > 0
  {
    if |ns| > 0 {
      var n := ns[0];
      var tail := FilterForest(ns[1..], term);
      FilterSound(ns[1..], term);
      match FilterNode(n, term)
      case None =>
        assert FilterForest(ns, term) == tail;
      case Some(y) =>
        assert FilterForest(ns, term) == [y] + tail;
        FlattenAppend([y], tail);
        if y.children.Present? {
          assert y.children.list == FilterForest(n.children.list, term);
          FilterSound(n.children.list, term);
          assert Flatten([y]) == [y] + Flatten(y.children.list) + [];
        } else {
          assert Flatten([y]) == [y] + [] + [];
        }
    }
  }

  /** No matching node is lost: each one has a counterpart, with the same id
      and label, in the result. */
  lemma {:induction false} FilterComplete(ns: seq<Node>, term: string, d: Node)
    requires d in Flatten(ns) && Matches(d.caption, term)
    ensures exists x :: x in Flatten(FilterForest(ns, term)) && x.id == d.id && x.caption == d.caption
  {
    var n := ns[0];
    var tail := FilterForest(ns[1..], term);
    var below := if n.children.Present? then Flatten(n.children.list) else [];
    assert Flatten(ns) == [n] + below + Flatten(ns[1..]);
    var result := FilterForest(ns, term);
    if d in Flatten(ns[1..]) {
      FilterComplete(ns[1..], term, d);
      var x :| x in Flatten(tail) && x.id == d.id && x.caption == d.caption;
      assert result == (match FilterNode(n, term) case Some(y) => [y] case None => []) + tail;
      FlattenAppend(result[..|result| - |tail|], tail);
      assert result[..|result| - |tail|] + tail == result;
      assert x in Flatten(result);
    } else {
      var y := FilterNode(n, term);
      if d == n {
        assert y.Some?;
      } else {
        assert d in below;
        FilterComplete(n.children.list, term, d);
        var kept := FilterForest(n.children.list, term);
        var x :| x in Flatten(kept) && x.id == d.id && x.caption == d.caption;
        assert |kept| > 0;
        assert y == Some(n.(children := Present(kept)));
        assert Flatten([y.value]) == [y.value] + Flatten(kept) + [];
      }
      assert result == [y.value] + tail;
      FlattenAppend([y.value], tail);
      assert Flatten([y.value]) == [y.value] + Flatten(Kids(y.value)) + [];
    }
  }

  /** The ids carried by the nodes of a list. */
  ghost function IdSet(s: seq<Node>): set<string> {
    set x | x in s :: x.id
  }

  lemma IdSetAppend(a: seq<Node>, b: seq<Node>)
    ensures IdSet(a + b) == IdSet(a) + IdSet(b)
  {
  }

  /** The search invents no ids: every node of the result carries the id of
      a node of the input. */
  lemma {:induction false} FilterKeepsIds(ns: seq<Node>, term: string)
    ensures IdSet(Flatten(FilterForest(ns, term))) <= IdSet(Flatten(ns))
  {
    if |ns| > 0 {
      var n := ns[0];
      var tail := FilterForest(ns[1..], term);
      var below := if n.children.Present? then Flatten(n.children.list) else [];
      assert Flatten(ns) == [n] + below + Flatten(ns[1..]);
      IdSetAppend([n] + below, Flatten(ns[1..]));
      IdSetAppend([n], below);
      FilterKeepsIds(ns[1..], term);
      match FilterNode(n, term)
      case None =>
        assert FilterForest(ns, term) == tail;
      case Some(y) =>
        assert FilterForest(ns, term) == [y] + tail;
        FlattenAppend([y], tail);
        IdSetAppend(Flatten([y]), Flatten(tail));
        assert IdSet([y]) == IdSet([n]);
        if y.children.Present? {
          assert y.children.list == FilterForest(n.children.list, term);
          FilterKeepsIds(n.children.list, term);
          assert Flatten([y]) == [y] + Flatten(y.children.list) + [];
          IdSetAppend([y], Flatten(y.children.list));
        } else {
          assert Flatten([y]) == [y] + [] + [];
        }
    }
  }

  /** Ids of the listed parents, as `parents.forEach(parent => ids.add(parent.id))`. */
  function IdsOf(parents: seq<Node>): (r: set<string>)
    ensures forall p :: p in parents ==> p.id in r
  {
    set p | p in parents :: p.id
  }

  /** The ids `filterTree(node, parents)` adds to `newExpandedIds`: when the
      node survives, all its parents, and the node itself when some child
      survives; plus whatever its children's calls add. */
  function CollectNode(n: Node, parents: seq<Node>, term: string): set<string>
    decreases n, 1
  {
    var below := if n.children.Present? && |n.children.list| > 0
                 then CollectForest(n.children.list, parents + [n], term) else {};
    var kept := if n.children.Present? && |n.children.list| > 0 then FilterForest(n.children.list, term) else [];
    below
    + (if Matches(n.caption, term) || |kept| > 0
       then IdsOf(parents) + (if |kept| > 0 then {n.id} else {}) else {})
  }

  function CollectForest(ns: seq<Node>, parents: seq<Node>, term: string): set<string>
    decreases ns, 0
  {
    if |ns| == 0 then {}
    else CollectNode(ns[0], parents, term) + CollectForest(ns[1..], parents, term)
  }

  /** The ids of the nodes of a forest that carry a children field. */
  ghost function OpenIds(ns: seq<Node>): set<string> {
    set x | x in Flatten(ns) && x.children.Present? :: x.id
  }

  lemma OpenIdsAppend(a: seq<Node>, b: seq<Node>)
    ensures OpenIds(a + b) == OpenIds(a) + OpenIds(b)
  {
    FlattenAppend(a, b);
  }

  lemma {:induction false} CollectNodeIsOpenIds(n: Node, parents: seq<Node>, term: string)
    decreases n, 1
    ensures CollectNode(n, parents, term)
         == (match FilterNode(n, term) case Some(x) => IdsOf(parents) + OpenIds([x]) case None => {})
  {
    var kept := if n.children.Present? && |n.children.list| > 0 then FilterForest(n.children.list, term) else [];
    var below := if n.children.Present? && |n.children.list| > 0
                 then CollectForest(n.children.list, parents + [n], term) else {};
    if n.children.Present? && |n.children.list| > 0 {
      CollectForestIsOpenIds(n.children.list, parents + [n], term);
      IdsOfSnoc(parents, n);
    } else {
      assert OpenIds(kept) == {};
    }
    assert below == (if |kept| > 0 then IdsOf(parents) + {n.id} else {}) + OpenIds(kept);
    match FilterNode(n, term)
    case None =>
      assert kept == [];
    case Some(x) =>
      OneOpenIds(x);
  }

  lemma IdsOfSnoc(parents: seq<Node>, n: Node)
    ensures IdsOf(parents + [n]) == IdsOf(parents) + {n.id}
  {
  }

  /** The open ids of a single tree: its own id when it has a children
      field, plus those of its children. */
  lemma OneOpenIds(x: Node)
    ensures OpenIds([x]) == (if x.children.Present? then {x.id} + OpenIds(x.children.list) else {})
  {
    if x.children.Present? {
      assert Flatten([x]) == [x] + Flatten(x.children.list) + [];
    } else {
      assert Flatten([x]) == [x];
    }
  }

  /** What the collection adds for a list of siblings: the parents when
      anything survives, plus the surviving nodes that keep children. */
  lemma {:induction false} CollectForestIsOpenIds(ns: seq<Node>, parents: seq<Node>, term: string)
    decreases ns, 0
    ensures CollectForest(ns, parents, term)
         == (if |FilterForest(ns, term)| > 0 then IdsOf(parents) else {}) + OpenIds(FilterForest(ns, term))
  {
    if |ns| == 0 {
      assert OpenIds([]) == {};
    } else {
      CollectNodeIsOpenIds(ns[0], parents, term);
      CollectForestIsOpenIds(ns[1..], parents, term);
      var tail := FilterForest(ns[1..], term);
      match FilterNode(ns[0], term)
      case None =>
        assert FilterForest(ns, term) == tail;
      case Some(x) =>
        assert FilterForest(ns, term) == [x] + tail;
        OpenIdsAppend([x], tail);
    }
  }

  /** `newExpandedIds` after filtering the whole forest. */
  function AutoExpand(ns: seq<Node>, term: string): (r: set<string>)
    ensures r == OpenIds(FilterForest(ns, term))
  {
    CollectForestIsOpenIds(ns, [], term);
    assert IdsOf([]) == {};
    CollectForest(ns, [], term)
  }

  /** When every node that has a children field is open, nothing is hidden. */
  lemma {:induction false} VisibleWhenOpen(ns: seq<Node>, expanded: set<string>)
    requires forall x :: x in Flatten(ns) && x.children.Present? ==> x.id in expanded
    ensures Visible(ns, expanded, false) == Flatten(ns)
  {
    if |ns| > 0 {
      if ns[0].children.Present? {
        VisibleWhenOpen(ns[0].children.list, expanded);
      }
      VisibleWhenOpen(ns[1..], expanded);
    }
  }

  /** The result of `searchNodes` together with the expansion set it leaves. */
  datatype SearchResult = SearchResult(nodes: seq<Node>, expanded: set<string>)

  /** `searchNodes`: the empty term leaves the forest and the expansion set
      alone; otherwise the forest is filtered and, unless `defaultExpanded`,
      the auto-expansion set replaces the old one, opening exactly the
      surviving nodes that keep children, so that every survivor is visible. */
  function SearchNodes(ns: seq<Node>, term: string, defaultExpanded: bool, expanded: set<string>): (r: SearchResult)
    ensures term == "" ==> r == SearchResult(ns, expanded)
    ensures defaultExpanded ==> r.expanded == expanded
    ensures term != "" && !defaultExpanded ==> r.expanded == OpenIds(r.nodes)
    ensures term != "" && !defaultExpanded ==> Visible(r.nodes, r.expanded, false) == Flatten(r.nodes)
    ensures term != "" ==> forall x :: x in Flatten(r.nodes) ==>
              Matches(x.caption, term) || (x.children.Present? && |x.children.list| > 0)
    ensures term != "" ==> (|r.nodes| > 0 <==> AnyMatch(Flatten(ns), term))
  {
    if term == "" then SearchResult(ns, expanded)
    else
      var filtered := FilterForest(ns, term);
      FilterSound(ns, term);
      FilterForestKeepsIff(ns, term);
      var auto := AutoExpand(ns, term);
      VisibleWhenOpen(filtered, auto);
      SearchResult(filtered, if defaultExpanded then expanded else auto)
  }

  /** The first node of a list, in order, whose label matches. */
  function FirstMatching(s: seq<Node>, term: string): (r: Option<string>)
    ensures r.Some? ==> exists x :: x in s && x.id == r.value && Matches(x.caption, term)
    ensures r.None? <==> !AnyMatch(s, term)
  {
    if |s| == 0 then None
    else if Matches(s[0].caption, term) then Some(s[0].id)
    else
      assert forall x :: x in s ==> x == s[0] || x in s[1..];
      FirstMatching(s[1..], term)
  }

  lemma {:induction false} FirstMatchingAppend(a: seq<Node>, b: seq<Node>, term: string)
    ensures FirstMatching(a + b, term) == FirstMatching(a, term).OrElse(FirstMatching(b, term))
  {
    if |a| == 0 {
      assert a + b == b;
    } else {
      assert (a + b)[0] == a[0];
      assert (a + b)[1..] == a[1..] + b;
      FirstMatchingAppend(a[1..], b, term);
    }
  }

  /** `findFirstMatch` of the generic variant's search effect: a pre-order
      search that descends into every non-empty children list regardless of
      expansion. A child result is only taken when it is truthy, so an empty
      id found below is skipped. */
  function FirstMatch(ns: seq<Node>, term: string): (r: Option<string>)
    ensures r.Some? ==> exists x :: x in Flatten(ns) && x.id == r.value && Matches(x.caption, term)
  {
    if |ns| == 0 then None
    else if Matches(ns[0].caption, term) then Some(ns[0].id)
    else
      var below := if ns[0].children.Present? && |ns[0].children.list| > 0
                   then FirstMatch(ns[0].children.list, term) else None;
      if below.Some? && below.value != "" then below else FirstMatch(ns[1..], term)
  }

  /** One step of pre-order: past a non-matching root, the first match is
      the first one below it, else the first one after it. */
  lemma FirstMatchingPastRoot(ns: seq<Node>, term: string)
    requires |ns| > 0 && !Matches(ns[0].caption, term)
    ensures FirstMatching(Flatten(ns), term)
         == FirstMatching(Flatten(Kids(ns[0])), term).OrElse(FirstMatching(Flatten(ns[1..]), term))
  {
    var n := ns[0];
    var below := Flatten(Kids(n));
    var rest := Flatten(ns[1..]);
    assert Flatten(ns) == [n] + (below + rest);
    assert ([n] + (below + rest))[1..] == below + rest;
    FirstMatchingAppend(below, rest, term);
  }

  /** Every id of the list is truthy, that is, not the empty string. */
  ghost predicate TruthyIds(s: seq<Node>) {
    forall x :: x in s ==> x.id != ""
  }

  /** Truthy ids hold of a forest's first tree's descendants and of its
      other trees. */
  lemma TruthyParts(ns: seq<Node>)
    requires |ns| > 0 && TruthyIds(Flatten(ns))
    ensures TruthyIds(Flatten(Kids(ns[0]))) && TruthyIds(Flatten(ns[1..]))
  {
    FlattenCons(ns);
    FlattenOne(ns[0]);
    assert Flatten(ns) == [ns[0]] + Flatten(Kids(ns[0])) + Flatten(ns[1..]);
  }

  /** Over truthy ids a found match is truthy. */
  lemma TruthyMatch(s: seq<Node>, term: string)
    requires TruthyIds(s) && FirstMatching(s, term).Some?
    ensures FirstMatching(s, term).value != ""
  {
  }

  /** With non-empty ids (so no result is falsy), the first match is the
      first matching node of the full pre-order flattening. */
  lemma {:induction false} FirstMatchIsFirstInPreOrder(ns: seq<Node>, term: string)
    requires TruthyIds(Flatten(ns))
    ensures FirstMatch(ns, term) == FirstMatching(Flatten(ns), term)
  {
    if |ns| > 0 && !Matches(ns[0].caption, term) {
      var n := ns[0];
      TruthyParts(ns);
      FirstMatchingPastRoot(ns, term);
      FirstMatchIsFirstInPreOrder(ns[1..], term);
      if HasKids(n) {
        FirstMatchIsFirstInPreOrder(n.children.list, term);
        if FirstMatching(Flatten(Kids(n)), term).Some? {
          TruthyMatch(Flatten(Kids(n)), term);
        }
      } else {
        assert Flatten(Kids(n)) == [];
      }
    }
  }
}
