/**
 The generic combobox (`Ui/TreeCombobox.tsx`) as a state machine. It differs
 from the classic one in four ways: Ctrl+Space re-runs the search and keeps
 a focus that is still shown; Escape first hands keyboard control back to
 the input and only then closes; Enter and Tab select, reporting the key,
 with no text splice; and the search effect focuses the first matching
 node in pre-order rather than the first survivor.
 */
module Generic {
  import opened Wrappers
  import opened Text
  import opened Tree
  import Search
  import Expansion
  import opened Navigation

  /** What the host passes in: the full forest, the input value and
      `defaultExpanded`. */
  datatype Env = Env(data: seq<Node>, value: string, defaultExpanded: bool)

  /** The events the component reacts to. */
  datatype Event =
    | KeyDown(k: KeyEvent)
    | SearchRun
    | Click(node: Node)
    | ExpandClick(node: Node)
    | CollapseClick(node: Node)
    | OutsideClick
    | InputChange(text: string)

  /** `handleNodeSelect`: the selection is reported with the node's
      ancestors from the full data and the key that chose it, and the
      dropdown closes and gives up control. */
  function Select(env: Env, s: State, n: Node, via: Option<Key>): (r: Step)
    ensures r.state == s.(visible := false, controlled := false)
    ensures r.out == [Selected(n, ParentPath(n.id, env.data), via)]
  {
    Step(s.(visible := false, controlled := false), [Selected(n, ParentPath(n.id, env.data), via)])
  }

  /** `handleEnter`: with a focus that is shown, the focus is cleared and
      the node selected; otherwise nothing happens. */
  function HandleEnter(env: Env, s: State, key: Key): (r: Step)
    ensures !HasFocus(s.focused) || !Lists(Shown(s, env.defaultExpanded), s.focused.value) ==> r == Step(s, [])
    ensures HasFocus(s.focused) && Lists(Shown(s, env.defaultExpanded), s.focused.value) ==>
              r.state == s.(focused := None, visible := false, controlled := false)
              && |r.out| == 1 && r.out[0].Selected? && r.out[0].via == Some(key)
              && Some(r.out[0].node.id) == s.focused && r.out[0].node in Shown(s, env.defaultExpanded)
              && r.out[0].parentPath == ParentPath(r.out[0].node.id, env.data)
  {
    if !HasFocus(s.focused) then Step(s, [])
    else
      match Find(Shown(s, env.defaultExpanded), s.focused)
      case Some(n) => Select(env, s.(focused := None), n, Some(key))
      case None => Step(s, [])
  }

  /** `quit`: with control, control goes back to the input and the focus is
      cleared (`onTransferControlBack`); without it, the dropdown closes
      (`onQuit`). */
  function QuitStep(s: State): (r: Step)
    ensures |r.out| == 1
    ensures s.controlled ==> r == Step(s.(controlled := false, focused := None), [TransferredBack])
    ensures !s.controlled ==> r == Step(s.(visible := false), [Quit])
  {
    if s.controlled then Step(s.(controlled := false, focused := None), [TransferredBack])
    else Step(s.(visible := false), [Quit])
  }

  /** `handleForceOpen`: the forest is searched again with the current
      value (the full forest when it is empty), the dropdown is shown and
      takes control. The control transfer looks at the forest and the
      expansion set from before the event. */
  function ForceOpen(env: Env, s: State): (r: State)
    ensures r.visible && r.controlled
    ensures r.filtered == (if env.value == "" then env.data else Search.FilterForest(env.data, env.value))
    ensures r.focused == TransferControl(s, env.defaultExpanded).focused
    ensures env.value == "" || env.defaultExpanded ==> r.expanded == s.expanded
    ensures env.value != "" && !env.defaultExpanded ==> r.expanded == Search.AutoExpand(env.data, env.value)
  {
    var res := Search.SearchNodes(env.data, env.value, env.defaultExpanded, s.expanded);
    TransferControl(s, env.defaultExpanded).(filtered := res.nodes, expanded := res.expanded, visible := true)
  }

  /** `handleKeyDown`. Ctrl+Space opens by force; the rest of the handler
      then finds nothing to do for the space key. While hidden only the down
      arrow acts (show and take control); Escape quits; while shown without
      control only the down arrow acts (take control); with control the
      arrows navigate and Enter or Tab select. */
  function KeyDown(env: Env, s: State, k: KeyEvent): (r: Step)
    ensures r.out != [] ==> s.visible && (k.key == Escape || (s.controlled && (k.key == Enter || k.key == Tab)))
    ensures s.visible && k.key == Escape ==> r == QuitStep(s)
    ensures !s.visible && k.key == ArrowDown ==> r == Step(TransferControl(s, env.defaultExpanded).(visible := true), [])
    ensures s.visible && !s.controlled && k.key == ArrowDown ==> r == Step(TransferControl(s, env.defaultExpanded), [])
    ensures s.visible && s.controlled && k.key == ArrowDown ==> r == Step(GoNext(s, env.defaultExpanded), [])
    ensures s.visible && s.controlled && k.key == ArrowUp ==> r == Step(GoPrevious(s, env.defaultExpanded), [])
    ensures s.visible && s.controlled && k.key == ArrowRight ==> r == Step(GoDeeper(s, env.defaultExpanded), [])
    ensures s.visible && s.controlled && k.key == ArrowLeft ==> r == Step(GoUp(s, env.defaultExpanded), [])
    ensures k.ctrl && k.key == Space ==> r == Step(ForceOpen(env, s), [])
    ensures s.visible && s.controlled && (k.key == Enter || k.key == Tab) ==> r == HandleEnter(env, s, k.key)
  {
    var de := env.defaultExpanded;
    if k.ctrl && k.key == Space then Step(ForceOpen(env, s), [])
    else if !s.visible then
      if k.key == ArrowDown then Step(TransferControl(s, de).(visible := true), [])
      else Step(s, [])
    else if k.key == Escape then QuitStep(s)
    else if !s.controlled then
      if k.key == ArrowDown then Step(TransferControl(s, de), [])
      else Step(s, [])
    else
      match k.key
      case ArrowDown => Step(GoNext(s, de), [])
      case ArrowUp => Step(GoPrevious(s, de), [])
      case ArrowRight => Step(GoDeeper(s, de), [])
      case ArrowLeft => Step(GoUp(s, de), [])
      case Enter => HandleEnter(env, s, Enter)
      case Tab => HandleEnter(env, s, Tab)
      case _ => Step(s, [])
  }

  /** The search effect. A non-empty value filters the full forest, opens
      the surviving branches (unless `defaultExpanded`), shows the dropdown
      exactly when something survives, and focuses the first matching node
      found by `findFirstMatch` when its id is truthy. An empty value
      restores the full forest and, while hidden, clears the focus. */
  function SearchRun(env: Env, s: State): (r: State)
    ensures r.controlled == s.controlled
    ensures env.value != "" ==> r.filtered == Search.FilterForest(env.data, env.value)
    ensures env.value != "" ==> (r.visible <==> Search.AnyMatch(Flatten(env.data), env.value))
    ensures env.value != "" ==>
              r.expanded == (if env.defaultExpanded then s.expanded else Search.AutoExpand(env.data, env.value))
    ensures env.value != "" && r.focused != s.focused ==>
              r.focused.Some? && r.focused.value != ""
              && exists x :: x in Flatten(r.filtered) && x.id == r.focused.value && Matches(x.caption, env.value)
    ensures env.value == "" ==> r.filtered == env.data && r.expanded == s.expanded && r.visible == s.visible
    ensures env.value == "" && !s.visible ==> r.focused.None?
    ensures env.value == "" && s.visible ==> r.focused == s.focused
  {
    if env.value != "" then
      var res := Search.SearchNodes(env.data, env.value, env.defaultExpanded, s.expanded);
      var t := s.(filtered := res.nodes, expanded := res.expanded, visible := |res.nodes| > 0);
      if |res.nodes| > 0 then
        match Search.FirstMatch(res.nodes, env.value)
        case Some(id) => if id != "" then t.(focused := Some(id)) else t
        case None => t
      else t
    else
      var t := s.(filtered := env.data);
      if !s.visible then t.(focused := None) else t
  }

  /** One event. A click on an item selects it with no key; a click outside
      the component hides the dropdown; typing takes control away from the
      dropdown and is passed to the host. */
  function Handle(env: Env, s: State, ev: Event): (r: Step)
    ensures ev.Click? ==> r.out == [Selected(ev.node, ParentPath(ev.node.id, env.data), None)]
    ensures ev.OutsideClick? ==> r == Step(s.(visible := false), [])
    ensures ev.InputChange? ==> r == Step(s.(controlled := false), [Changed(ev.text)])
  {
    match ev
    case KeyDown(k) => KeyDown(env, s, k)
    case SearchRun => Step(SearchRun(env, s), [])
    case Click(n) => Select(env, s, n, None)
    case ExpandClick(n) => ExpandNode(env.defaultExpanded, s, n)
    case CollapseClick(n) => Step(CollapseNode(env.defaultExpanded, s, n), [])
    case OutsideClick => Step(s.(visible := false), [])
    case InputChange(v) => Step(s.(controlled := false), [Changed(v)])
  }

  /** One event as React runs it: the handler, then the search effect when
      the handler changed one of the effect's dependencies, the value or
      `isDropdownVisible`. The host stores every value reported through
      `onChange` within the same batch, so the single run of the effect
      sees the host's new value. When the effect itself shows the dropdown
      it runs once more, and that second run changes nothing
      (`SearchRunIdempotent`). */
  function Dispatch(env: Env, s: State, ev: Event): (r: Step)
    ensures r.out == Handle(env, s, ev).out
    ensures r.state.controlled == Handle(env, s, ev).state.controlled
    ensures var h := Handle(env, s, ev);
            h.state.visible == s.visible && HostValue(env.value, h.out) == env.value ==> r == h
    ensures var h := Handle(env, s, ev);
            var v := HostValue(env.value, h.out);
            (h.state.visible != s.visible || v != env.value) && v != "" ==>
              r.state.filtered == Search.FilterForest(env.data, v)
              && (r.state.visible <==> Search.AnyMatch(Flatten(env.data), v))
  {
    var h := Handle(env, s, ev);
    var v := HostValue(env.value, h.out);
    if h.state.visible != s.visible || v != env.value then
      Step(SearchRun(env.(value := v), h.state), h.out)
    else h
  }

  /** In `defaultExpanded` mode no event ever changes the expansion set. */
  lemma DefaultExpandedKeepsExpansion(env: Env, s: State, ev: Event)
    requires env.defaultExpanded
    ensures Handle(env, s, ev).state.expanded == s.expanded
  {
  }

  /** Escape is two-phase: with control it hands control back and keeps the
      dropdown shown; pressed again it closes the dropdown. Each press
      reports exactly one thing. */
  lemma EscapeTwiceQuits(env: Env, s: State)
    requires s.visible && s.controlled
    ensures var first := KeyDown(env, s, KeyEvent(Escape, false));
            var second := KeyDown(env, first.state, KeyEvent(Escape, false));
            first.out == [TransferredBack] && first.state.visible && !first.state.controlled
            && first.state.focused.None?
            && second.out == [Quit] && !second.state.visible
  {
  }

  /** While hidden, every key but the down arrow and Ctrl+Space is ignored,
      Escape included. */
  lemma HiddenIgnoresKeys(env: Env, s: State, k: KeyEvent)
    requires !s.visible && k.key != ArrowDown && !(k.ctrl && k.key == Space)
    ensures KeyDown(env, s, k) == Step(s, [])
  {
  }

  /** While shown without control, only Escape and the down arrow act. */
  lemma UncontrolledIgnoresKeys(env: Env, s: State, k: KeyEvent)
    requires s.visible && !s.controlled && k.key != ArrowDown && k.key != Escape && !(k.ctrl && k.key == Space)
    ensures KeyDown(env, s, k) == Step(s, [])
  {
  }

  /** Enter and Tab select the same node and differ only in the key reported. */
  lemma EnterAndTabAgree(env: Env, s: State)
    requires s.visible && s.controlled
    ensures var e := KeyDown(env, s, KeyEvent(Enter, false));
            var t := KeyDown(env, s, KeyEvent(Tab, false));
            e.state == t.state && |e.out| == |t.out|
            && (|e.out| == 1 ==> e.out[0].Selected? && t.out[0] == e.out[0].(via := Some(Tab)))
  {
  }

  /** Tab with control on a shown focus chooses that node: the selection is
      reported once with the key Tab, the focus is cleared and the dropdown
      closes and gives up control. */
  lemma TabSelectsFocused(env: Env, s: State, ctrl: bool)
    requires s.visible && s.controlled && HasFocus(s.focused)
    requires Lists(Shown(s, env.defaultExpanded), s.focused.value)
    ensures var r := KeyDown(env, s, KeyEvent(Tab, ctrl));
            r.state == s.(focused := None, visible := false, controlled := false)
            && |r.out| == 1 && r.out[0].Selected? && r.out[0].via == Some(Tab)
            && Some(r.out[0].node.id) == s.focused && r.out[0].node in Shown(s, env.defaultExpanded)
  {
  }

  /** Handing over control keeps a focus that is still shown, so re-opening
      after typing does not lose the user's place. */
  lemma ArrowDownKeepsShownFocus(env: Env, s: State)
    requires s.visible && !s.controlled
    requires HasFocus(s.focused) && Lists(Shown(s, env.defaultExpanded), s.focused.value)
    ensures KeyDown(env, s, KeyEvent(ArrowDown, false)).state == s.(controlled := true)
  {
  }

  /** With control, the up arrow undoes the down arrow on a shown focus
      when the shown ids are distinct. */
  lemma UpUndoesDown(env: Env, s: State, i: nat)
    requires s.visible && s.controlled
    requires DistinctIds(Shown(s, env.defaultExpanded)) && i < |Shown(s, env.defaultExpanded)|
    requires s.focused == Some(Shown(s, env.defaultExpanded)[i].id)
    ensures var down := KeyDown(env, s, KeyEvent(ArrowDown, false)).state;
            KeyDown(env, down, KeyEvent(ArrowUp, false)) == Step(s, [])
  {
    PrevUndoesNext(Shown(s, env.defaultExpanded), i);
  }

  /** Typing always takes control away from the dropdown. */
  lemma TypingReleasesControl(env: Env, s: State, v: string)
    ensures var r := Handle(env, s, InputChange(v));
            !r.state.controlled && r.out == [Changed(v)]
  {
  }

  /** With non-empty ids, a search that finds something focuses the first
      matching node of the filtered forest in full pre-order. */
  lemma SearchFocusesFirstPreOrderMatch(env: Env, s: State)
    requires env.value != ""
    requires forall x :: x in Flatten(env.data) ==> x.id != ""
    requires Search.AnyMatch(Flatten(env.data), env.value)
    ensures var r := SearchRun(env, s);
            Search.FirstMatching(Flatten(r.filtered), env.value).Some?
            && r.focused == Search.FirstMatching(Flatten(r.filtered), env.value)
  {
    var f := Search.FilterForest(env.data, env.value);
    Search.FilterKeepsIds(env.data, env.value);
    forall x | x in Flatten(f)
      ensures x.id != ""
    {
      assert x.id in Search.IdSet(Flatten(f));
      assert x.id in Search.IdSet(Flatten(env.data));
    }
    Search.FirstMatchIsFirstInPreOrder(f, env.value);
    Search.FilterForestKeepsIff(env.data, env.value);
    var d :| d in Flatten(env.data) && Matches(d.caption, env.value);
    Search.FilterComplete(env.data, env.value, d);
    var x :| x in Flatten(f) && x.id == d.id && x.caption == d.caption;
    assert Search.AnyMatch(Flatten(f), env.value);
  }

  /** Toggling a closed node open and shut again restores the expansion set. */
  lemma ExpandThenCollapse(env: Env, s: State, n: Node)
    requires n.id !in s.expanded
    ensures var e := Handle(env, s, ExpandClick(n)).state;
            Handle(env, e, CollapseClick(n)).state == s
  {
    if !env.defaultExpanded {
      Expansion.CollapseUndoesExpand(s.expanded, n.id);
    }
  }

  /** Running the search effect twice in a row is running it once. */
  lemma SearchRunIdempotent(env: Env, s: State)
    ensures SearchRun(env, SearchRun(env, s)) == SearchRun(env, s)
  {
  }

  /** Escape on a shown dropdown without control hides it and reports
      `onQuit`; the hiding re-runs the search effect, which shows the
      dropdown again at once when the value is non-empty and still matches. */
  lemma QuitThenEffect(env: Env, s: State, ctrl: bool)
    requires s.visible && !s.controlled
    ensures var r := Dispatch(env, s, Event.KeyDown(KeyEvent(Escape, ctrl)));
            r.out == [Quit] && !r.state.controlled
            && (r.state.visible <==> env.value != "" && Search.AnyMatch(Flatten(env.data), env.value))
  {
  }

  /** Likewise a click outside: with a non-empty value that still matches,
      the dropdown does not stay hidden. */
  lemma OutsideClickThenEffect(env: Env, s: State)
    requires s.visible
    ensures var r := Dispatch(env, s, OutsideClick);
            r.out == [] && (r.state.visible <==> env.value != "" && Search.AnyMatch(Flatten(env.data), env.value))
  {
  }

  /** Typing: control goes back to the input, the host stores the new text
      and the effect runs on it. */
  lemma TypingRunsSearch(env: Env, s: State, t: string)
    requires t != env.value && t != ""
    ensures var r := Dispatch(env, s, InputChange(t));
            r.out == [Changed(t)] && !r.state.controlled
            && r.state.filtered == Search.FilterForest(env.data, t)
            && (r.state.visible <==> Search.AnyMatch(Flatten(env.data), t))
  {
  }
}
