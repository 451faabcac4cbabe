/**
 The classic combobox (`TreeCombobox.tsx`) as a state machine: key presses,
 the search effect that re-runs when the input value changes, clicks on
 items and on their expand toggles, clicks outside, input focus and typing.
 Selecting a node splices its label into the input value at the caret.
 */
module Classic {
  import opened Wrappers
  import opened Text
  import opened Tree
  import Search
  import Expansion
  import Splice
  import opened Navigation

  /** What the host passes in: the full forest, the controlled input value
      with its caret, and `defaultExpanded`. */
  datatype Env = Env(data: seq<Node>, value: string, caret: nat, defaultExpanded: bool)

  /** The events the component reacts to. */
  datatype Event =
    | KeyDown(k: KeyEvent)
    | SearchRun
    | Click(node: Node)
    | ExpandClick(node: Node)
    | CollapseClick(node: Node)
    | OutsideClick
    | InputFocus
    | InputChange(text: string)

  /** "Focus the first element when taking control": the first node of the
      list, if there is one. */
  function FocusFirst(s: State, vis: seq<Node>): (r: State)
    ensures r == s.(focused := r.focused)
    ensures |vis| > 0 ==> r.focused == Some(vis[0].id)
    ensures |vis| == 0 ==> r == s
  {
    if |vis| > 0 then s.(focused := Some(vis[0].id)) else s
  }

  /** `handleNodeSelect`, as written: when the word before the caret is
      empty the label is inserted there and the new value handed to
      `onChange`; when it is not, the spliced value is computed but never
      reported, so the host's value is unchanged (see the findings). Either
      way the selection is reported with the node's ancestors taken from the
      full data, the caret is moved after the label, and the dropdown closes
      and gives up control. The focus is kept. */
  function Select(env: Env, s: State, n: Node): (r: Step)
    ensures r.state == s.(visible := false, controlled := false)
    ensures 2 <= |r.out| <= 3
    ensures r.out[|r.out| - 2] == Selected(n, ParentPath(n.id, env.data), None)
    ensures var c := Splice.Clamp(env.value, env.caret);
            var w := Splice.WordStart(env.value, c);
            (|r.out| == 3 <==> w == c)
            && (w == c ==> r.out[0] == Changed(env.value[..c] + n.caption + env.value[c..]))
            && r.out[|r.out| - 1] == CaretAt(w + |n.caption|)
  {
    var e := Splice.Splice(env.value, env.caret, n.caption);
    Splice.AsWrittenAt(env.value, env.caret, n.caption);
    var selected := Selected(n, ParentPath(n.id, env.data), None);
    Step(s.(visible := false, controlled := false),
         match Splice.SelectionChangeAsWritten(env.value, env.caret, n.caption)
         case Some(v) => [Changed(v), selected, CaretAt(e.caret)]
         case None => [selected, CaretAt(e.caret)])
  }

  /** `handleKeyDown`. Ctrl+Space restores the full forest, shows the
      dropdown with control and focuses its first node; while hidden only
      the down arrow acts (show, take control, focus the first node); while
      shown without control likewise, without the showing; with control the
      arrows navigate, Enter selects the focused shown node and Escape
      hides the dropdown, gives up control and clears the focus. */
  function KeyDown(env: Env, s: State, k: KeyEvent): (r: Step)
    ensures r.state.filtered == (if k.ctrl && k.key == Space then env.data else s.filtered)
    ensures r.out != [] ==> s.visible && s.controlled && k.key == Enter
    ensures r.state.expanded != s.expanded ==> s.visible && s.controlled && (k.key == ArrowRight || k.key == ArrowLeft)
    ensures !s.visible && k.key == ArrowDown ==>
              r == Step(FocusFirst(s.(visible := true, controlled := true), Shown(s, env.defaultExpanded)), [])
    ensures s.visible && !s.controlled && k.key == ArrowDown ==>
              r == Step(FocusFirst(s.(controlled := true), Shown(s, env.defaultExpanded)), [])
    ensures s.visible && s.controlled && k.key == ArrowDown ==> r == Step(GoNext(s, env.defaultExpanded), [])
    ensures s.visible && s.controlled && k.key == ArrowUp ==> r == Step(GoPrevious(s, env.defaultExpanded), [])
    ensures s.visible && s.controlled && k.key == ArrowRight ==> r == Step(GoDeeper(s, env.defaultExpanded), [])
    ensures s.visible && s.controlled && k.key == ArrowLeft ==> r == Step(GoUp(s, env.defaultExpanded), [])
    ensures s.visible && s.controlled && k.key == Escape ==>
              r == Step(s.(visible := false, controlled := false, focused := None), [])
  {
    var de := env.defaultExpanded;
    if k.ctrl && k.key == Space then
      Step(FocusFirst(s.(filtered := env.data, visible := true, controlled := true),
                      Visible(env.data, s.expanded, de)), [])
    else if !s.visible then
      if k.key == ArrowDown then Step(FocusFirst(s.(visible := true, controlled := true), Shown(s, de)), [])
      else Step(s, [])
    else if !s.controlled then
      if k.key == ArrowDown then Step(FocusFirst(s.(controlled := true), Shown(s, de)), [])
      else Step(s, [])
    else
      match k.key
      case ArrowDown => Step(GoNext(s, de), [])
      case ArrowUp => Step(GoPrevious(s, de), [])
      case ArrowRight => Step(GoDeeper(s, de), [])
      case ArrowLeft => Step(GoUp(s, de), [])
      case Enter =>
        if !HasFocus(s.focused) then Step(s, [])
        else
          (match Find(Shown(s, de), s.focused)
           case Some(n) => Select(env, s, n)
           case None => Step(s, []))
      case Escape => Step(s.(visible := false, controlled := false, focused := None), [])
      case _ => Step(s, [])
  }

  /** The search effect. A non-empty value filters the full forest, opens
      the surviving branches (unless `defaultExpanded`), shows the dropdown
      exactly when something survives and, while the dropdown has control,
      focuses the first survivor. An empty value restores the full forest
      and, while hidden, clears the focus. */
  function SearchRun(env: Env, s: State): (r: State)
    ensures r.controlled == s.controlled
    ensures env.value != "" ==> r.filtered == Search.FilterForest(env.data, env.value)
    ensures env.value != "" ==> (r.visible <==> |r.filtered| > 0)
    ensures env.value != "" ==> (r.visible <==> Search.AnyMatch(Flatten(env.data), env.value))
    ensures env.value != "" && s.controlled && r.visible ==> r.focused == Some(r.filtered[0].id)
    ensures env.value != "" && !(s.controlled && r.visible) ==> r.focused == s.focused
    ensures env.value != "" ==>
              r.expanded == (if env.defaultExpanded then s.expanded else Search.AutoExpand(env.data, env.value))
    ensures env.value != "" && !env.defaultExpanded ==>
              Visible(r.filtered, r.expanded, false) == Flatten(r.filtered)
    ensures env.value == "" ==> r.filtered == env.data && r.expanded == s.expanded && r.visible == s.visible
    ensures env.value == "" && !s.visible ==> r.focused.None?
    ensures env.value == "" && s.visible ==> r.focused == s.focused
  {
    var de := env.defaultExpanded;
    if env.value != "" then
      var res := Search.SearchNodes(env.data, env.value, de, s.expanded);
      var t := s.(filtered := res.nodes, expanded := res.expanded, visible := |res.nodes| > 0);
      if s.controlled && |res.nodes| > 0 then
        FocusFirst(t, Visible(res.nodes, s.expanded, de))
      else t
    else
      var t := s.(filtered := env.data);
      if !s.visible then t.(focused := None) else t
  }

  /** One event. A click on an item selects it; a click outside hides the
      dropdown; focusing the input shows it; typing is passed to the host
      unchanged. */
  function Handle(env: Env, s: State, ev: Event): (r: Step)
    ensures ev.OutsideClick? ==> r == Step(s.(visible := false), [])
    ensures ev.InputFocus? ==> r == Step(s.(visible := true), [])
    ensures ev.InputChange? ==> r == Step(s, [Changed(ev.text)])
  {
    match ev
    case KeyDown(k) => KeyDown(env, s, k)
    case SearchRun => Step(SearchRun(env, s), [])
    case Click(n) => Select(env, s, n)
    case ExpandClick(n) => ExpandNode(env.defaultExpanded, s, n)
    case CollapseClick(n) => Step(CollapseNode(env.defaultExpanded, s, n), [])
    case OutsideClick => Step(s.(visible := false), [])
    case InputFocus => Step(s.(visible := true), [])
    case InputChange(v) => Step(s, [Changed(v)])
  }

  /** One event as React runs it: the handler, then the search effect when
      the handler changed one of the effect's dependencies, the value or
      `isDropdownControlled`. The host stores every value reported through
      `onChange` within the same batch, so the single run of the effect
      sees the host's new value. The effect never changes control or the
      value, so it does not run twice. */
  function Dispatch(env: Env, s: State, ev: Event): (r: Step)
    ensures r.out == Handle(env, s, ev).out
    ensures r.state.controlled == Handle(env, s, ev).state.controlled
    ensures var h := Handle(env, s, ev);
            h.state.controlled == s.controlled && HostValue(env.value, h.out) == env.value ==> r == h
    ensures var h := Handle(env, s, ev);
            var v := HostValue(env.value, h.out);
            (h.state.controlled != s.controlled || v != env.value) && v != "" ==>
              r.state.filtered == Search.FilterForest(env.data, v)
              && (r.state.visible <==> Search.AnyMatch(Flatten(env.data), v))
  {
    var h := Handle(env, s, ev);
    var v := HostValue(env.value, h.out);
    if h.state.controlled != s.controlled || v != env.value then
      Step(SearchRun(env.(value := v), h.state), h.out)
    else h
  }

  /** In `defaultExpanded` mode no event ever changes the expansion set. */
  lemma DefaultExpandedKeepsExpansion(env: Env, s: State, ev: Event)
    requires env.defaultExpanded
    ensures Handle(env, s, ev).state.expanded == s.expanded
  {
  }

  /** While hidden, every key but the down arrow and Ctrl+Space is ignored. */
  lemma HiddenIgnoresKeys(env: Env, s: State, k: KeyEvent)
    requires !s.visible && k.key != ArrowDown && !(k.ctrl && k.key == Space)
    ensures KeyDown(env, s, k) == Step(s, [])
  {
  }

  /** While shown without control, likewise. */
  lemma UncontrolledIgnoresKeys(env: Env, s: State, k: KeyEvent)
    requires s.visible && !s.controlled && k.key != ArrowDown && !(k.ctrl && k.key == Space)
    ensures KeyDown(env, s, k) == Step(s, [])
  {
  }

  /** The down arrow on a hidden dropdown shows it with control and focuses
      the first root of the current forest. */
  lemma ArrowDownOpens(env: Env, s: State)
    requires !s.visible && |s.filtered| > 0
    ensures var r := KeyDown(env, s, KeyEvent(ArrowDown, false)).state;
            r.visible && r.controlled && r.focused == Some(s.filtered[0].id)
  {
  }

  /** Ctrl+Space shows the full forest with control, focused on its first root. */
  lemma CtrlSpaceFocusesFirstRoot(env: Env, s: State)
    requires |env.data| > 0
    ensures var r := KeyDown(env, s, KeyEvent(Space, true)).state;
            r.filtered == env.data && r.visible && r.controlled && r.focused == Some(env.data[0].id)
  {
  }

  /** Escape with control hides the dropdown, gives up control and clears
      the focus, reporting nothing. */
  lemma EscapeReleases(env: Env, s: State, ctrl: bool)
    requires s.visible && s.controlled
    ensures KeyDown(env, s, KeyEvent(Escape, ctrl))
         == Step(s.(visible := false, controlled := false, focused := None), [])
  {
  }

  /** With control, the up and down arrows keep the focus on a shown node. */
  lemma ArrowsKeepFocusShown(env: Env, s: State, key: Key)
    requires s.visible && s.controlled && (key == ArrowDown || key == ArrowUp || key == ArrowRight)
    requires |Shown(s, env.defaultExpanded)| > 0
    requires key == ArrowRight ==> HasFocus(s.focused) && Lists(Shown(s, env.defaultExpanded), s.focused.value)
    ensures var r := KeyDown(env, s, KeyEvent(key, false)).state;
            r.focused.Some? && Lists(Shown(r, env.defaultExpanded), r.focused.value)
  {
    if key == ArrowRight {
      var r := GoDeeper(s, env.defaultExpanded);
      DeeperFocusShown(s, env.defaultExpanded);
      if r == s {
        assert Lists(Shown(r, env.defaultExpanded), r.focused.value);
      }
    }
  }

  /** Enter on a focused shown node selects it: the selection carries the
      ancestors from the full data, the caret follows the label, the
      dropdown closes, and a new value is reported only when the label was
      inserted rather than replacing a word. */
  lemma EnterSelectsFocused(env: Env, s: State, n: Node)
    requires s.visible && s.controlled && HasFocus(s.focused)
    requires Find(Shown(s, env.defaultExpanded), s.focused) == Some(n)
    ensures var r := KeyDown(env, s, KeyEvent(Enter, false));
            var e := Splice.Splice(env.value, env.caret, n.caption);
            var selected := Selected(n, ParentPath(n.id, env.data), None);
            !r.state.visible && !r.state.controlled
            && r.out == match Splice.SelectionChangeAsWritten(env.value, env.caret, n.caption)
                        case Some(v) => [Changed(v), selected, CaretAt(e.caret)]
                        case None => [selected, CaretAt(e.caret)]
  {
    assert KeyDown(env, s, KeyEvent(Enter, false)) == Select(env, s, n);
  }

  /** The component-level face of the finding: choosing "XYZ" with the
      caret after "de" in "abc de" reports the selection and the caret but
      no new value. */
  lemma ReplacementReportsNoValue(env: Env, s: State, n: Node)
    requires env.value == "abc de" && env.caret == 6 && n.caption == "XYZ"
    ensures forall o :: o in Select(env, s, n).out ==> !o.Changed?
  {
    Splice.AsWrittenDropsReplacement();
  }

  /** Enter with no focus, or with a focus that is not shown, does nothing. */
  lemma EnterWithoutShownFocus(env: Env, s: State)
    requires s.visible && s.controlled
    requires !HasFocus(s.focused) || !Lists(Shown(s, env.defaultExpanded), s.focused.value)
    ensures KeyDown(env, s, KeyEvent(Enter, false)) == Step(s, [])
  {
  }

  /** A selection's parent path names the ancestors of the selected node:
      a chain from a root down to a node listing it. */
  lemma SelectionPathIsAncestry(env: Env, s: State, n: Node)
    ensures var out := Select(env, s, n).out;
            var p := out[|out| - 2].parentPath;
            p != [] ==> p[0] in env.data && ChainFrom(p, 0) && HasChildId(Kids(p[|p| - 1]), n.id)
  {
  }

  /** With control, the up arrow undoes the down arrow on a shown focus
      when the shown ids are distinct. */
  lemma UpUndoesDown(env: Env, s: State, i: nat)
    requires s.visible && s.controlled
    requires DistinctIds(Shown(s, env.defaultExpanded)) && i < |Shown(s, env.defaultExpanded)|
    requires s.focused == Some(Shown(s, env.defaultExpanded)[i].id)
    ensures var down := KeyDown(env, s, KeyEvent(ArrowDown, false)).state;
            KeyDown(env, down, KeyEvent(ArrowUp, false)) == Step(s, [])
  {
    PrevUndoesNext(Shown(s, env.defaultExpanded), i);
  }

  /** Toggling a closed node open and shut again restores the expansion set. */
  lemma ExpandThenCollapse(env: Env, s: State, n: Node)
    requires n.id !in s.expanded
    ensures var e := Handle(env, s, ExpandClick(n)).state;
            Handle(env, e, CollapseClick(n)).state == s
  {
    if !env.defaultExpanded {
      Expansion.CollapseUndoesExpand(s.expanded, n.id);
    }
  }

  /** Escape under control gives up control, so the search effect runs
      again: the dropdown, hidden by the handler, is shown again at once
      when the value is non-empty and still matches. The focus stays
      cleared and nothing is reported. */
  lemma EscapeThenEffect(env: Env, s: State, ctrl: bool)
    requires s.visible && s.controlled
    ensures var r := Dispatch(env, s, Event.KeyDown(KeyEvent(Escape, ctrl)));
            r.out == [] && !r.state.controlled && r.state.focused.None?
            && (r.state.visible <==> env.value != "" && Search.AnyMatch(Flatten(env.data), env.value))
  {
    EscapeReleases(env, s, ctrl);
  }

  /** Choosing a node when the word before the caret is empty: the host
      stores the spliced value, and the effect's single run on it shows the
      dropdown again exactly when that value still matches. Selection
      keeps the focus and the dropdown no longer has control, so the focus
      stays on the chosen row. (An empty label chosen without control
      changes no dependency, and the effect does not run.) */
  lemma InsertingSelectionReshows(env: Env, s: State, n: Node)
    requires Splice.WordStart(env.value, Splice.Clamp(env.value, env.caret)) == Splice.Clamp(env.value, env.caret)
    ensures var c := Splice.Clamp(env.value, env.caret);
            var v := env.value[..c] + n.caption + env.value[c..];
            var r := Dispatch(env, s, Click(n));
            v != "" && (s.controlled || n.caption != "") ==>
              !r.state.controlled && r.state.focused == s.focused
              && r.state.filtered == Search.FilterForest(env.data, v)
              && (r.state.visible <==> Search.AnyMatch(Flatten(env.data), v))
  {
    var c := Splice.Clamp(env.value, env.caret);
    var v := env.value[..c] + n.caption + env.value[c..];
    var out := Select(env, s, n).out;
    assert |out| == 3 && out[0] == Changed(v);
    assert out[..2][..1] == [Changed(v)];
    assert HostValue(env.value, out) == HostValue(env.value, out[..2]) == HostValue(env.value, out[..2][..1]);
  }

  /** Choosing "Foo" with the caret in an empty input, with the focus on
      its row and the node in the data: the host's value becomes "Foo", the
      effect shows the dropdown again and the focus stays where it was. */
  lemma ChoosingIntoEmptyInputReshows(env: Env, s: State, n: Node)
    requires n.caption == "Foo" && n in env.data
    requires env.value == "" && env.caret == 0 && s.focused == Some(n.id)
    ensures var r := Dispatch(env, s, Click(n));
            r.state.visible && r.state.focused == Some(n.id) && r.out[0] == Changed("Foo")
  {
    FooIntoEmpty(n);
    InsertingSelectionReshows(env, s, n);
    assert n in Flatten(env.data);
    assert Select(env, s, n).out[0] == Changed("Foo");
  }

  /** The string facts behind the example: the label matches itself, and
      the caret of an empty input starts an empty word. */
  lemma FooIntoEmpty(n: Node)
    requires n.caption == "Foo"
    ensures Matches(n.caption, "Foo")
    ensures Splice.Clamp("", 0) == 0 && Splice.WordStart("", 0) == 0
    ensures ""[..0] + n.caption + ""[0..] == "Foo"
  {
    var low := Lower("Foo");
    assert OccursAt(low, low, 0);
  }

  /** Typing: the host stores the new text and the effect runs on it. */
  lemma TypingRunsSearch(env: Env, s: State, t: string)
    requires t != env.value && t != ""
    ensures var r := Dispatch(env, s, InputChange(t));
            r.out == [Changed(t)] && r.state.controlled == s.controlled
            && r.state.filtered == Search.FilterForest(env.data, t)
            && (r.state.visible <==> Search.AnyMatch(Flatten(env.data), t))
  {
  }
}
