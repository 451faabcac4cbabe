/**
 Keyboard navigation shared by both combobox variants: the component state,
 its first render, the expand and collapse toggles,
 moving the focus down and up the visible list with wrap-around, descending
 into and climbing out of branches, and handing keyboard control to the
 dropdown. Every handler reads the state as it was before the event, as
 React's batched updates do.
 */
module Navigation {
  import opened Wrappers
  import opened Tree
  import Expansion

  /** The component state: the focused id (`null` is `None`), whether the
      dropdown is shown and whether it holds keyboard control, the expansion
      set and the forest currently shown. */
  datatype State = State(
    focused: Option<string>,
    visible: bool,
    controlled: bool,
    expanded: set<string>,
    filtered: seq<Node>)

  /** The keys the handlers look at; every other key is `OtherKey`. */
  datatype Key = ArrowDown | ArrowUp | ArrowRight | ArrowLeft | Enter | Escape | Tab | Space | OtherKey

  /** A key press; `ctrl` is the Control modifier. */
  datatype KeyEvent = KeyEvent(key: Key, ctrl: bool)

  /** What the component reports to its host, in order. */
  datatype Output =
    | Selected(node: Node, parentPath: seq<Node>, via: Option<Key>)
    | Changed(value: string)
    | CaretAt(position: nat)
    | TransferredBack
    | Quit
    | ExpandFired(node: Node)

  /** The state after an event and what was reported during it. */
  datatype Step = Step(state: State, out: seq<Output>)

  /** The value a controlled host holds after an event: it stores each
      value reported through `onChange` (`onChange={setValue}`), so the
      last one reported wins; with none reported the value is unchanged. */
  function HostValue(value: string, out: seq<Output>): (r: string)
    ensures (forall o :: o in out ==> !o.Changed?) ==> r == value
    ensures r != value ==> Changed(r) in out
    ensures out != [] && out[|out| - 1].Changed? ==> r == out[|out| - 1].value
    ensures out != [] && !out[|out| - 1].Changed? ==> r == HostValue(value, out[..|out| - 1])
    decreases |out|
  {
    if out == [] then value
    else if out[|out| - 1].Changed? then out[|out| - 1].value
    else HostValue(value, out[..|out| - 1])
  }

  /** The first render: nothing focused, hidden, the full forest, and every
      branch open in `defaultExpanded` mode. */
  function Initial(data: seq<Node>, defaultExpanded: bool): (s: State)
    ensures s.focused.None? && !s.visible && !s.controlled && s.filtered == data
    ensures defaultExpanded ==> s.expanded == BranchIds(Flatten(data))
    ensures !defaultExpanded ==> s.expanded == {}
  {
    State(None, false, false, InitialExpanded(data, defaultExpanded), data)
  }

  /** `handleNodeExpand`: outside `defaultExpanded` mode the node is opened
      and the host's `onExpand` is told; otherwise nothing happens. */
  function ExpandNode(defaultExpanded: bool, s: State, n: Node): (r: Step)
    ensures defaultExpanded ==> r == Step(s, [])
    ensures !defaultExpanded ==>
              r.state == s.(expanded := r.state.expanded) && r.state.expanded == s.expanded + {n.id}
              && r.out == [ExpandFired(n)]
  {
    if !defaultExpanded then Step(s.(expanded := Expansion.Expand(s.expanded, n.id)), [ExpandFired(n)])
    else Step(s, [])
  }

  /** `handleNodeCollapse`: outside `defaultExpanded` mode the node is
      closed; nothing is reported. */
  function CollapseNode(defaultExpanded: bool, s: State, n: Node): (r: State)
    ensures defaultExpanded ==> r == s
    ensures !defaultExpanded ==> r == s.(expanded := r.expanded) && r.expanded == s.expanded - {n.id}
  {
    if !defaultExpanded then s.(expanded := Expansion.Collapse(s.expanded, n.id)) else s
  }

  /** `focusedNodeId` is truthy: present and not the empty string. */
  predicate HasFocus(f: Option<string>) {
    f.Some? && f.value != ""
  }

  /** The list currently shown. */
  function Shown(s: State, defaultExpanded: bool): seq<Node> {
    Visible(s.filtered, s.expanded, defaultExpanded)
  }

  /** Some node of the list carries the id. */
  predicate Lists(vis: seq<Node>, id: string) {
    exists i :: 0 <= i < |vis| && vis[i].id == id
  }

  /** `visibleNodes.findIndex(node => node.id === focusedNodeId)` */
  function FindIndex(vis: seq<Node>, focus: Option<string>): (r: int)
    ensures -1 <= r < |vis|
    ensures r >= 0 ==> focus.Some? && vis[r].id == focus.value
    ensures r >= 0 ==> forall k :: 0 <= k < r ==> vis[k].id != focus.value
    ensures r == -1 ==> focus.None? || !Lists(vis, focus.value)
  {
    if focus.None? || |vis| == 0 then -1
    else if vis[0].id == focus.value then 0
    else
      var r := FindIndex(vis[1..], focus);
      assert forall k :: 1 <= k < |vis| ==> vis[k] == vis[1..][k - 1];
      if r == -1 then -1 else r + 1
  }

  /** `visibleNodes.find(node => node.id === focusedNodeId)` */
  function Find(vis: seq<Node>, focus: Option<string>): (r: Option<Node>)
    ensures r.Some? ==> r.value in vis && focus == Some(r.value.id)
    ensures r.None? ==> focus.None? || !Lists(vis, focus.value)
  {
    var i := FindIndex(vis, focus);
    if i == -1 then None else Some(vis[i])
  }

  /** `goNext` / `handleArrowDown`: the node after the focused one, the
      first node after the last one or when the focus is not listed, and no
      change for an empty list. */
  function Next(vis: seq<Node>, focus: Option<string>): (r: Option<string>)
    ensures |vis| == 0 ==> r == focus
    ensures |vis| > 0 ==> r.Some? && Lists(vis, r.value)
  {
    var i := FindIndex(vis, focus);
    if i < |vis| - 1 then Some(vis[i + 1].id)
    else if |vis| > 0 then Some(vis[0].id)
    else focus
  }

  /** `goPrevious` / `handleArrowUp` once visibility has been checked: the
      node before the focused one, the last node from the first one or
      when the focus is not listed, no change for an empty list. */
  function Prev(vis: seq<Node>, focus: Option<string>): (r: Option<string>)
    ensures |vis| == 0 ==> r == focus
    ensures |vis| > 0 ==> r.Some? && Lists(vis, r.value)
  {
    var i := FindIndex(vis, focus);
    if i > 0 then Some(vis[i - 1].id)
    else if |vis| > 0 then Some(vis[|vis| - 1].id)
    else focus
  }

  /** With distinct ids, the index of a listed id is its position. */
  lemma FindIndexAt(vis: seq<Node>, i: nat)
    requires DistinctIds(vis) && i < |vis|
    ensures FindIndex(vis, Some(vis[i].id)) == i
  {
    assert Lists(vis, vis[i].id);
  }

  /** The position after `i` in a list of length `n`, wrapping to the start. */
  function Succ(i: nat, n: nat): nat {
    if i + 1 < n then i + 1 else 0
  }

  /** The position before `i` in a list of length `n`, wrapping to the end. */
  function Pred(i: nat, n: nat): nat
    requires n > 0
  {
    if i > 0 then i - 1 else n - 1
  }

  /** From a listed id, one step down moves to the next position, wrapping. */
  lemma NextAt(vis: seq<Node>, i: nat)
    requires DistinctIds(vis) && i < |vis|
    ensures Next(vis, Some(vis[i].id)) == Some(vis[Succ(i, |vis|)].id)
  {
    FindIndexAt(vis, i);
  }

  /** From a listed id, one step up moves to the previous position, wrapping. */
  lemma PrevAt(vis: seq<Node>, i: nat)
    requires DistinctIds(vis) && i < |vis|
    ensures Prev(vis, Some(vis[i].id)) == Some(vis[Pred(i, |vis|)].id)
  {
    FindIndexAt(vis, i);
  }

  /** From an unlisted focus, down goes to the first node and up to the last. */
  lemma UnlistedFocus(vis: seq<Node>, focus: Option<string>)
    requires |vis| > 0 && (focus.None? || !Lists(vis, focus.value))
    ensures Next(vis, focus) == Some(vis[0].id)
    ensures Prev(vis, focus) == Some(vis[|vis| - 1].id)
  {
  }

  /** Up undoes down for a listed focus ... */
  lemma PrevUndoesNext(vis: seq<Node>, i: nat)
    requires DistinctIds(vis) && i < |vis|
    ensures Prev(vis, Next(vis, Some(vis[i].id))) == Some(vis[i].id)
  {
    NextAt(vis, i);
    PrevAt(vis, Succ(i, |vis|));
  }

  /** ... and down undoes up. */
  lemma NextUndoesPrev(vis: seq<Node>, i: nat)
    requires DistinctIds(vis) && i < |vis|
    ensures Next(vis, Prev(vis, Some(vis[i].id))) == Some(vis[i].id)
  {
    PrevAt(vis, i);
    NextAt(vis, Pred(i, |vis|));
  }

  /** `n` presses of the down arrow. */
  function NextN(vis: seq<Node>, focus: Option<string>, n: nat): Option<string>
    decreases n
  {
    if n == 0 then focus else NextN(vis, Next(vis, focus), n - 1)
  }

  /** `n` presses are `a` presses followed by the remaining `n - a`. */
  lemma {:induction false} NextNSplit(vis: seq<Node>, focus: Option<string>, n: nat, a: nat)
    requires a <= n
    decreases a
    ensures NextN(vis, focus, n) == NextN(vis, NextN(vis, focus, a), n - a)
  {
    if a > 0 {
      NextNSplit(vis, Next(vis, focus), n - 1, a - 1);
    }
  }

  /** Without reaching the end, `k` presses move `k` positions down. */
  lemma {:induction false} NextNAt(vis: seq<Node>, i: nat, k: nat)
    requires DistinctIds(vis) && i + k < |vis|
    decreases k
    ensures NextN(vis, Some(vis[i].id), k) == Some(vis[i + k].id)
  {
    if k > 0 {
      NextAt(vis, i);
      NextNAt(vis, i + 1, k - 1);
    }
  }

  /** Pressing the down arrow once per listed node returns the focus to
      where it started. */
  lemma {:induction false} NextCycles(vis: seq<Node>, i: nat)
    requires DistinctIds(vis) && i < |vis|
    ensures NextN(vis, Some(vis[i].id), |vis|) == Some(vis[i].id)
  {
    var a: nat := |vis| - i;
    ToFirst(vis, i);
    NextNSplit(vis, Some(vis[i].id), |vis|, a);
    assert |vis| - a == i;
    NextNAt(vis, 0, i);
  }

  /** From position `i`, `|vis| - i` presses reach the first node. */
  lemma {:induction false} ToFirst(vis: seq<Node>, i: nat)
    requires DistinctIds(vis) && i < |vis|
    ensures NextN(vis, Some(vis[i].id), |vis| - i) == Some(vis[0].id)
  {
    var n := |vis|;
    var a: nat := n - 1 - i;
    NextNAt(vis, i, a);
    NextNSplit(vis, Some(vis[i].id), n - i, a);
    WrapAtEnd(vis);
    assert n - i - a == 1;
  }

  /** One press from the last node reaches the first. */
  lemma WrapAtEnd(vis: seq<Node>)
    requires DistinctIds(vis) && |vis| > 0
    ensures NextN(vis, Some(vis[|vis| - 1].id), 1) == Some(vis[0].id)
  {
    NextAt(vis, |vis| - 1);
    assert NextN(vis, Some(vis[|vis| - 1].id), 1) == NextN(vis, Next(vis, Some(vis[|vis| - 1].id)), 0);
  }

  /** `goNext` / `handleArrowDown` */
  function GoNext(s: State, defaultExpanded: bool): (r: State)
    ensures r == s.(focused := r.focused)
    ensures r.focused == Next(Shown(s, defaultExpanded), s.focused)
    ensures |Shown(s, defaultExpanded)| > 0 ==> r.focused.Some? && Lists(Shown(r, defaultExpanded), r.focused.value)
  {
    s.(focused := Next(Shown(s, defaultExpanded), s.focused))
  }

  /** `goPrevious` / `handleArrowUp`: nothing happens while hidden. */
  function GoPrevious(s: State, defaultExpanded: bool): (r: State)
    ensures r == s.(focused := r.focused)
    ensures !s.visible ==> r == s
    ensures s.visible ==> r.focused == Prev(Shown(s, defaultExpanded), s.focused)
    ensures s.visible && |Shown(s, defaultExpanded)| > 0 ==>
              r.focused.Some? && Lists(Shown(r, defaultExpanded), r.focused.value)
  {
    if !s.visible then s
    else s.(focused := Prev(Shown(s, defaultExpanded), s.focused))
  }

  /** `goDeeper` / `handleArrowRight`: a shown, focused node with a non-empty
      children list is opened and its first child focused; in
      `defaultExpanded` mode, or otherwise, nothing happens. */
  function GoDeeper(s: State, defaultExpanded: bool): (r: State)
    ensures r.visible == s.visible && r.controlled == s.controlled && r.filtered == s.filtered
    ensures !s.visible || !HasFocus(s.focused) || defaultExpanded ==> r == s
    ensures r != s ==>
              exists p :: p in Shown(s, defaultExpanded) && Some(p.id) == s.focused && HasKids(p)
                && r.expanded == s.expanded + {p.id} && r.focused == Some(p.children.list[0].id)
    ensures s.visible && HasFocus(s.focused) && !defaultExpanded ==>
              var p := Find(Shown(s, defaultExpanded), s.focused);
              r == (if p.Some? && HasKids(p.value)
                    then s.(expanded := s.expanded + {s.focused.value}, focused := Some(p.value.children.list[0].id))
                    else s)
  {
    if !s.visible || !HasFocus(s.focused) then s
    else
      match Find(Shown(s, defaultExpanded), s.focused)
      case None => s
      case Some(p) =>
        if !HasKids(p) || defaultExpanded then s
        else s.(expanded := s.expanded + {s.focused.value}, focused := Some(p.children.list[0].id))
  }

  /** The focused id is carried by a shown node that has a children field
      and is open: the left arrow closes it. */
  predicate OpenAtFocus(s: State, defaultExpanded: bool) {
    var node := Find(Shown(s, defaultExpanded), s.focused);
    node.Some? && node.value.children.Present? && node.value.id in s.expanded
  }

  /** `goUp` / `handleArrowLeft`: nothing happens without a focus or in
      `defaultExpanded` mode; a shown focused node that has a children field
      and is open is closed; otherwise the focus moves to the first open
      parent found, if any. */
  function GoUp(s: State, defaultExpanded: bool): (r: State)
    ensures r.visible == s.visible && r.controlled == s.controlled && r.filtered == s.filtered
    ensures !HasFocus(s.focused) || defaultExpanded ==> r == s
    ensures r.expanded != s.expanded ==>
              r.focused == s.focused && r.expanded == s.expanded - {s.focused.value}
              && s.focused.value in s.expanded
    ensures r.focused != s.focused ==>
              r.expanded == s.expanded && r.focused.Some?
              && exists p :: p in Shown(s, defaultExpanded) && p.id == r.focused.value
                   && HasChildId(Kids(p), s.focused.value)
    ensures HasFocus(s.focused) && !defaultExpanded && OpenAtFocus(s, defaultExpanded) ==>
              r == s.(expanded := s.expanded - {s.focused.value})
    ensures HasFocus(s.focused) && !defaultExpanded && !OpenAtFocus(s, defaultExpanded) ==>
              r == match FindParent(s.focused.value, s.filtered, s.expanded, defaultExpanded)
                   case Some(p) => s.(focused := Some(p.id))
                   case None => s
  {
    if !HasFocus(s.focused) || defaultExpanded then s
    else
      var parent := FindParent(s.focused.value, s.filtered, s.expanded, defaultExpanded);
      var node := Find(Shown(s, defaultExpanded), s.focused);
      if node.Some? && node.value.children.Present? && node.value.id in s.expanded then
        s.(expanded := s.expanded - {node.value.id})
      else if parent.Some? then s.(focused := Some(parent.value.id))
      else s
  }

  /** `transferControl`: the dropdown takes keyboard control and keeps a
      focus it still shows, else focuses its first shown node. */
  function TransferControl(s: State, defaultExpanded: bool): (r: State)
    ensures r == s.(controlled := true, focused := r.focused)
    ensures HasFocus(s.focused) && Lists(Shown(s, defaultExpanded), s.focused.value) ==> r.focused == s.focused
    ensures !(HasFocus(s.focused) && Lists(Shown(s, defaultExpanded), s.focused.value)) && |s.filtered| > 0 ==>
              r.focused == Some(s.filtered[0].id)
    ensures |s.filtered| == 0 ==> r.focused == s.focused
  {
    var vis := Shown(s, defaultExpanded);
    var c := s.(controlled := true);
    if HasFocus(s.focused) && Lists(vis, s.focused.value) then c
    else if |vis| > 0 then c.(focused := Some(vis[0].id))
    else c
  }

  /** The first shown node is the first root. */
  lemma ShownStartsAtRoot(ns: seq<Node>, expanded: set<string>, defaultExpanded: bool)
    ensures |Visible(ns, expanded, defaultExpanded)| > 0 <==> |ns| > 0
    ensures |ns| > 0 ==> Visible(ns, expanded, defaultExpanded)[0] == ns[0]
  {
  }

  /** Going deeper keeps the focus on a shown node: the opened parent stays
      shown, and its children follow it. */
  lemma DeeperFocusShown(s: State, defaultExpanded: bool)
    ensures var r := GoDeeper(s, defaultExpanded);
            r != s ==> r.focused.Some? && Lists(Shown(r, defaultExpanded), r.focused.value)
  {
    var r := GoDeeper(s, defaultExpanded);
    if r != s {
      var p :| p in Shown(s, defaultExpanded) && Some(p.id) == s.focused
              && HasKids(p) && r.expanded == s.expanded + {p.id} && r.focused == Some(p.children.list[0].id);
      VisibleMonotone(s.filtered, s.expanded, r.expanded, defaultExpanded);
      var x := p.children.list[0];
      assert OpensTo(p, x, r.expanded, defaultExpanded);
      OpenChildrenVisible(s.filtered, r.expanded, defaultExpanded, p, x);
      var v := Shown(r, defaultExpanded);
      var i :| 0 <= i < |v| && v[i] == x;
    }
  }

  /** Climbing to the parent keeps the focus on a shown node. */
  lemma UpFocusShown(s: State, defaultExpanded: bool)
    ensures var r := GoUp(s, defaultExpanded);
            r.focused != s.focused ==> r.focused.Some? && Lists(Shown(r, defaultExpanded), r.focused.value)
  {
    var r := GoUp(s, defaultExpanded);
    if r.focused != s.focused {
      var p :| p in Shown(s, defaultExpanded) && p.id == r.focused.value && HasChildId(Kids(p), s.focused.value);
      var v := Shown(r, defaultExpanded);
      var i :| 0 <= i < |v| && v[i] == p;
    }
  }

  /** Climbing from a focused node that is not an open shown node with a
      children field moves to its parent, if any. */
  lemma UpFromClosed(c: State, defaultExpanded: bool)
    requires HasFocus(c.focused) && !defaultExpanded && !OpenAtFocus(c, defaultExpanded)
    ensures GoUp(c, defaultExpanded)
         == match FindParent(c.focused.value, c.filtered, c.expanded, defaultExpanded)
            case Some(p) => c.(focused := Some(p.id))
            case None => c
  {
  }

  /** Going deeper and then up again, when the child reached has a non-empty
      id and is not open itself, closes nothing and moves the focus to the
      first shown node that lists that child. */
  lemma UpAfterDeeper(s: State, defaultExpanded: bool)
    requires GoDeeper(s, defaultExpanded) != s
    requires GoDeeper(s, defaultExpanded).focused.value != ""
    requires GoDeeper(s, defaultExpanded).focused.value !in GoDeeper(s, defaultExpanded).expanded
    ensures var c := GoDeeper(s, defaultExpanded);
            var first := FirstParent(Shown(c, defaultExpanded), c.focused.value);
            first.Some? && GoUp(c, defaultExpanded) == c.(focused := Some(first.value.id))
  {
    var c := GoDeeper(s, defaultExpanded);
    var p :| p in Shown(s, defaultExpanded) && Some(p.id) == s.focused && HasKids(p)
            && c.expanded == s.expanded + {p.id} && c.focused == Some(p.children.list[0].id);
    var x := p.children.list[0];
    var v := Shown(c, defaultExpanded);
    VisibleMonotone(s.filtered, s.expanded, c.expanded, defaultExpanded);
    assert p in v;
    assert HasChildId(Kids(p), x.id) by {
      assert x in Kids(p);
    }
    FindParentIsFirstVisibleParent(x.id, c.filtered, c.expanded, defaultExpanded);
    assert !OpenAtFocus(c, defaultExpanded);
    UpFromClosed(c, defaultExpanded);
  }
}
