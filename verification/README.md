# Tree combobox engine in Dafny

A model of the search, navigation and text-splice engine behind a React tree
combobox. The combobox is a text input with a dropdown that shows a tree of
nodes (branches and leaves). Typing filters the tree and opens the branches
on the way to each match. The arrow keys move a focus through the shown rows
and open or close branches. Enter (and, in the generic variant, Tab) selects
the focused node.

The engine exists in two near-duplicate components:

- the classic `TreeCombobox.tsx`, which splices the chosen label into the
  input text at the caret;
- the generic `Ui/TreeCombobox.tsx`, which reports the selection together
  with the key that made it, and uses a two-phase Escape.

The demo host adds two pieces, and both are modelled: a prune-at-match search
(`useGetHandbook.ts`) and a search-driven expansion collector (`demo.tsx`).

Modules, one per file:

- `Wrappers` (`wrappers.dfy`): `Option`.
- `Text` (`text.dfy`): the string functions the code calls (`toLowerCase`,
  `includes`, `indexOf`, `lastIndexOf`) and the unused `findLastSearchMatch`.
- `Tree` (`tree.dfy`): the node datatype, the "visible" pre-order flattening,
  the parent lookup, the breadcrumb path and the initial expansion set.
- `Search` (`search.dfy`): the keep-subtree filter with its auto-expansion
  set, and the first-match lookup of the generic variant.
- `Handbook` (`handbook.dfy`): the host's prune-at-match filter.
- `Expansion` (`expansion.dfy`): adding and removing one id, and the host's
  `collectExpandedIds`.
- `Splice` (`splice.dfy`): the classic variant's text splice on selection.
- `Navigation` (`navigation.dfy`): what both variants share: the state
  record, the first render, the expand and collapse toggles, focus movement
  and the four navigation handlers.
- `Classic` (`classic.dfy`) and `Generic` (`generic.dfy`): each component as a
  pure step function from a state and an event to a new state and the list of
  callbacks it fires.

Modelling choices:

- **Node fields.** A node's `label` is the field `caption`, because `label`
  is a Dafny keyword.
- **Children.** The optional `children` field is its own datatype
  `Children = Absent | Present(list)`. This keeps an absent field and an
  empty list apart: the host's pruning search emits `[]`, the flattening
  treats `[]` as present, and the right arrow needs a non-empty list.
- **Truthy ids.** `!focusedNodeId` is false for the empty string, so
  `HasFocus` requires an id that is present and non-empty.
- **Batched updates.** Each handler reads the state from before the event,
  because React batches the updates.
- **The search effect.** The components' search effect is the event
  `SearchRun`; the host fires it on its own when the data changes.
  `Dispatch` runs one event the way React does: the handler first, then
  the effect once if the handler changed one of its dependencies. These
  are the value and `isDropdownControlled` in the classic variant, and the
  value and `isDropdownVisible` in the generic one. The host is
  controlled (`App.tsx` wires `onChange` to its state setter), so the
  value the effect sees is the last one reported through `onChange` in
  the same event (`HostValue`). In particular the classic selection's
  insertion branch changes the value in the same batch as control.

Where the code and its written description differ, the model follows the
code:

- **Classic Escape.** It hides the dropdown, gives up control and clears the
  focus in one step. Only the generic variant is two-phase.
- **Arrows in `defaultExpanded` mode.** The left arrow does nothing at all
  (`goUp` and `handleArrowLeft` return at once). The right arrow does nothing
  either.
- **Caret at the end of a word.** The splice replaces the whole word before
  the caret: `("abc de", 3, "X")` gives `("X de", 1)`, not an insertion.
- **Choosing the same label twice.** Choosing the same space-free label again
  at the new caret leaves the value unchanged, rather than inserting a second
  copy (`Splice.ReselectIsIdempotent`).

## Model

| member | source | states |
|---|---|---|
| Text.Lower | src/components/TreeCombobox/TreeCombobox.tsx:156 | lowering keeps the length |
| Text.LowerAt | src/components/TreeCombobox/TreeCombobox.tsx:156 | each character is folded on its own, in place |
| Text.IndexFrom | src/components/TreeCombobox/TreeCombobox.tsx:232 | `indexOf` from a start: an occurrence at or after it with none earlier, or -1 when there is none at all |
| Text.LastIndexUpTo | src/components/TreeCombobox/TreeCombobox.tsx:237 | the last occurrence starting at or before a bound, or -1 when none starts there |
| Text.LastIndexOf | src/components/TreeCombobox/TreeCombobox.tsx:237 | `lastIndexOf`: an occurrence with none after it, or -1 exactly when there is no occurrence |
| Text.LastIndexOfChar | src/components/TreeCombobox/TreeCombobox.tsx:226 | the last position holding the character, with none after it; -1 when absent |
| Text.Contains | src/components/TreeCombobox/TreeCombobox.tsx:159 | `includes` holds exactly when the term occurs at some position |
| Text.FindLastSearchMatch | src/components/TreeCombobox/TreeCombobox.tsx:223-243 | both ends are -1 together; an empty term gives -1; a span has the term's length and holds the term case-insensitively; -1 only when the text does not contain the term |
| Text.LastWordPreferred | src/components/TreeCombobox/TreeCombobox.tsx:230-234 | a hit after the last space is preferred: the span starts past that space, at the first hit after it |
| Text.FallbackIsLastOccurrence | src/components/TreeCombobox/TreeCombobox.tsx:236-240 | otherwise the span is the last occurrence: no occurrence starts after it |
| Tree.Visible | src/components/TreeCombobox/TreeCombobox.tsx:113-125 | the visible listing holds every root |
| Tree.VisibleAppend | src/components/TreeCombobox/TreeCombobox.tsx:123 | the visible listing of a concatenation is the concatenation of the listings |
| Tree.VisibleAtRoot | src/components/TreeCombobox/TreeCombobox.tsx:116-123 | pre-order at any root: the earlier roots' rows, the root, its subtree only when it has a children field and is open, then the later roots' rows |
| Tree.VisibleAllClosed | src/components/TreeCombobox/TreeCombobox.tsx:118 | with no root open the listing is exactly the root list |
| Tree.VisibleCollapsed | src/components/TreeCombobox/TreeCombobox.tsx:113-125 | with an empty set and no `defaultExpanded` the listing equals the roots |
| Tree.VisibleFullyExpanded | src/components/TreeCombobox/TreeCombobox.tsx:118 | with `defaultExpanded` the listing is the full pre-order flattening |
| Tree.VisibleWithin | src/components/TreeCombobox/TreeCombobox.tsx:113-125 | every visible row is a node of the forest |
| Tree.VisibleMonotone | src/components/TreeCombobox/TreeCombobox.tsx:118 | opening more nodes never hides a row |
| Tree.OpenChildrenVisible | src/components/TreeCombobox/TreeCombobox.tsx:118-120 | the children of a visible open node are visible |
| Tree.VisibleReachable | src/components/TreeCombobox/TreeCombobox.tsx:116-123 | a visible row is a root or a child of a visible open node |
| Tree.VisibleIff | src/components/TreeCombobox/TreeCombobox.tsx:113-125 | a node is visible if and only if it is a root or a child of a visible open node |
| Tree.FirstParent | src/components/TreeCombobox/TreeCombobox.tsx:135 | reference lookup: the first listed node having a child with the id, or none when no listed node has one |
| Tree.FindParent | src/components/TreeCombobox/TreeCombobox.tsx:133-144 | a found parent is visible and has a direct child with the id |
| Tree.FindParentIsFirstVisibleParent | src/components/TreeCombobox/TreeCombobox.tsx:133-144 | the lookup returns the first visible node that has a child with the id |
| Tree.PathIn | src/components/TreeCombobox/TreeCombobox.tsx:203-217 | a found path extends the prefix with a root of the list, is a parent-child chain from there and ends at the id; none exactly when the pre-order search meets no node with the id |
| Tree.OccursIff | src/components/TreeCombobox/TreeCombobox.tsx:203-217 | the pre-order search meets the id exactly when some node of the forest carries it |
| Tree.BuildPath | src/components/TreeCombobox/TreeCombobox.tsx:200-221 | empty if and only if the id is absent; otherwise a chain from a root, each element a direct child of the previous one, ending at the id |
| Tree.ParentPath | src/components/TreeCombobox/TreeCombobox.tsx:502 | the path without its last element: empty for an absent id, otherwise a chain from a root to a node with the id among its children, one shorter than the full path |
| Tree.CollectIsBranchIds | src/components/TreeCombobox/TreeCombobox.tsx:86-95 | descending only through non-empty lists still collects the id of every node with a non-empty list |
| Tree.InitialExpanded | src/components/TreeCombobox/TreeCombobox.tsx:83-97 | empty without `defaultExpanded`; otherwise exactly the ids of nodes with a non-empty children list |
| Tree.UniqueVisible | src/components/TreeCombobox/TreeCombobox.tsx:113-125 | with unique ids in the forest, no id repeats in the visible listing |
| Search.FilterNode | src/components/TreeCombobox/TreeCombobox.tsx:158-181 | a survivor keeps its id, label and kind; its children are absent or non-empty; absent children mean its own label matched; a matching node always survives; present children are exactly the survivors of its own children, in order |
| Search.FilterForest | src/components/TreeCombobox/TreeCombobox.tsx:183-185 | the filtered list is no longer than the input |
| Search.FilterKeepsOrder | src/components/TreeCombobox/TreeCombobox.tsx:183-185 | the survivors' ids are a subsequence of the input's ids |
| Search.FilterNodeKeepsIff | src/components/TreeCombobox/TreeCombobox.tsx:158-181 | a node survives if and only if some node of its subtree matches |
| Search.FilterForestKeepsIff | src/components/TreeCombobox/TreeCombobox.tsx:183-185 | the result is non-empty if and only if some node of the forest matches |
| Search.FilterSound | src/components/TreeCombobox/TreeCombobox.tsx:168-177 | every node of the result matches or keeps a non-empty list of survivors |
| Search.FilterComplete | src/components/TreeCombobox/TreeCombobox.tsx:158-181 | every matching node has a counterpart with the same id and label in the result |
| Search.FilterKeepsIds | src/components/TreeCombobox/TreeCombobox.tsx:174-177 | the result carries only ids from the input |
| Search.CollectNodeIsOpenIds | src/components/TreeCombobox/TreeCombobox.tsx:168-172 | a node's recorded ids are its parents' ids when it survives, plus the ids of its surviving subtree's nodes that keep children |
| Search.CollectForestIsOpenIds | src/components/TreeCombobox/TreeCombobox.tsx:183-185 | a list's recorded ids are the parents' ids when something survives, plus the ids of the survivors that keep children |
| Search.AutoExpand | src/components/TreeCombobox/TreeCombobox.tsx:155-189 | the auto-expansion set is exactly the ids of the surviving nodes that keep children |
| Search.VisibleWhenOpen | src/components/TreeCombobox/TreeCombobox.tsx:118 | when every node with a children field is open, the visible listing is the full flattening |
| Search.SearchNodes | src/components/TreeCombobox/TreeCombobox.tsx:152-192 | an empty term leaves forest and set alone; `defaultExpanded` keeps the set; otherwise the set opens exactly the survivors with children, so every survivor is visible; every survivor matches or keeps children; the result is non-empty if and only if something matches |
| Search.FirstMatching | src/components/TreeCombobox/Ui/TreeCombobox.tsx:394-405 | reference: the first matching node of a list in order; none exactly when nothing matches |
| Search.FirstMatch | src/components/TreeCombobox/Ui/TreeCombobox.tsx:394-405 | a found id belongs to a matching node of the forest |
| Search.FirstMatchingPastRoot | src/components/TreeCombobox/Ui/TreeCombobox.tsx:395-403 | past a non-matching root, the first match is the first one below it, else the first one after it |
| Search.FirstMatchIsFirstInPreOrder | src/components/TreeCombobox/Ui/TreeCombobox.tsx:394-405 | with non-empty ids, `findFirstMatch` returns the first matching node of the full pre-order flattening |
| Handbook.PruneNode | src/useGetHandbook.ts:12-44 | a survivor keeps id, label and kind; a matching branch is kept with children `[]`; a leaf is kept unchanged if and only if it matches; a kept non-matching branch had children and keeps the pruned list of them |
| Handbook.PruneForest | src/useGetHandbook.ts:46-48 | the result is no longer than the input |
| Handbook.SearchHandbook | src/useGetHandbook.ts:5-53 | an empty term returns the forest; every survivor is justified; the root ids keep their order |
| Handbook.PruneNodeSound | src/useGetHandbook.ts:12-44 | a surviving node matches, or is a branch whose non-empty children all satisfy the same property |
| Handbook.PruneSound | src/useGetHandbook.ts:46-48 | every surviving root is justified in that sense |
| Handbook.PruneKeepsOrder | src/useGetHandbook.ts:46-48 | the surviving roots' ids are a subsequence of the input's |
| Handbook.PruneNodeKeepsIff | src/useGetHandbook.ts:12-44 | on well-kinded data a node survives if and only if its subtree holds a match |
| Handbook.PruneForestKeepsIff | src/useGetHandbook.ts:46-48 | on well-kinded data the result is non-empty if and only if something matches |
| Handbook.SameHead | src/useGetHandbook.ts:12-44 | a tree survives the pruning search if and only if it survives the keep-subtree search |
| Handbook.SameRootsAsKeepSubtree | src/useGetHandbook.ts:46-48 | on well-kinded data both searches keep the same roots, in the same order |
| Expansion.Expand | src/demo.tsx:69-71 | the id is added and no other id changes |
| Expansion.Collapse | src/demo.tsx:73-79 | the id is removed and no other id changes |
| Expansion.CollapseUndoesExpand | src/demo.tsx:69-79 | collapsing undoes expanding a closed id |
| Expansion.ExpandUndoesCollapse | src/demo.tsx:69-79 | expanding undoes collapsing an open id |
| Expansion.CollectNodeIsReached | src/demo.tsx:27-35 | a branch with children adds its parents and every branch with children reached below it; any other node adds nothing |
| Expansion.CollectForestIsReached | src/demo.tsx:27-37 | a list adds the parents when some root is a branch with children, plus every branch with children reached through such branches |
| Expansion.SearchExpansion | src/demo.tsx:23-40 | the set is replaced only for a non-empty search over non-empty data, and then by the reached branch ids |
| Expansion.BranchReachWithin | src/demo.tsx:27-33 | every reached node is a node of the data |
| Expansion.OnlyBranchIds | src/demo.tsx:28-30 | every added id is the id of a branch with children in the data |
| Expansion.NoLeafIds | src/demo.tsx:28-30 | with unique ids, no leaf's id is ever added |
| Expansion.ReachAllWhenWellKinded | src/demo.tsx:27-37 | when leaves own no children, the collection reaches every node |
| Expansion.SearchExpansionOpensAllBranches | src/demo.tsx:23-40 | on such data the collected set is the components' all-branches initial set |
| Splice.Clamp | src/components/TreeCombobox/TreeCombobox.tsx:452 | the caret is within the value and unchanged when it already was, as every caret the browser reports is |
| Splice.WordStart | src/components/TreeCombobox/TreeCombobox.tsx:456-458 | the word start is at or before the caret, is the start or follows a space, and no space lies between it and the caret |
| Splice.WordStartUnique | src/components/TreeCombobox/TreeCombobox.tsx:456-458 | those three properties determine the word start |
| Splice.Splice | src/components/TreeCombobox/TreeCombobox.tsx:463-498 | some word start exists such that the prefix before it is kept, the label follows, the text after the caret is kept, and the caret lands just after the label; the length changes by the label less the replaced word |
| Splice.InsertAtCaret | src/components/TreeCombobox/TreeCombobox.tsx:485-498 | with a space or nothing before the caret, the label is inserted at the caret |
| Splice.ReplaceWord | src/components/TreeCombobox/TreeCombobox.tsx:463-484 | otherwise the word before the caret is replaced by the label |
| Splice.ReplaceMidValue | src/components/TreeCombobox/TreeCombobox.tsx:463-475 | ("abc de", 3, "X") gives ("X de", 1) |
| Splice.InsertIntoEmpty | src/components/TreeCombobox/TreeCombobox.tsx:485-490 | ("", 0, "Foo") gives ("Foo", 3) |
| Splice.ReplaceLastWord | src/components/TreeCombobox/TreeCombobox.tsx:463-475 | ("abc de", 6, "XYZ") gives ("abc XYZ", 7) |
| Splice.InsertAfterSpace | src/components/TreeCombobox/TreeCombobox.tsx:485-490 | ("abc ", 4, "X") gives ("abc X", 5) |
| Splice.ReselectIsIdempotent | src/components/TreeCombobox/TreeCombobox.tsx:452-498 | choosing the same space-free label again at the new caret changes nothing |
| Splice.SelectionChangeAsWritten | src/components/TreeCombobox/TreeCombobox.tsx:463-493 | as written, `onChange` is called if and only if the word before the caret is empty, and then with the spliced value |
| Splice.AsWrittenDropsReplacement | src/components/TreeCombobox/TreeCombobox.tsx:472-479 | as written, ("abc de", 6, "XYZ") fires no `onChange`, although the spliced value is "abc XYZ" |
| Splice.SelectionChange | src/components/TreeCombobox/TreeCombobox.tsx:472-493 | corrected: `onChange` always receives the spliced value |
| Splice.SelectionEmitsLabel | src/components/TreeCombobox/TreeCombobox.tsx:482-498 | corrected: the emitted value holds the label just before the new caret |
| Navigation.FindIndex | src/components/TreeCombobox/TreeCombobox.tsx:248 | `findIndex`: the first position with the focused id, or -1 when there is no focus or it is not listed |
| Navigation.Find | src/components/TreeCombobox/TreeCombobox.tsx:273 | `find`: a listed node with the focused id, or none when it is not listed |
| Navigation.Next | src/components/TreeCombobox/TreeCombobox.tsx:245-255 | an empty list leaves the focus alone; otherwise the new focus is listed |
| Navigation.Prev | src/components/TreeCombobox/TreeCombobox.tsx:257-268 | likewise for the up arrow |
| Navigation.FindIndexAt | src/components/TreeCombobox/TreeCombobox.tsx:248 | with distinct ids, the index of a listed id is its position |
| Navigation.NextAt | src/components/TreeCombobox/TreeCombobox.tsx:250-254 | from position i the down arrow goes to i+1, and from the last position to the first |
| Navigation.PrevAt | src/components/TreeCombobox/TreeCombobox.tsx:263-267 | from position i the up arrow goes to i-1, and from the first position to the last |
| Navigation.UnlistedFocus | src/components/TreeCombobox/TreeCombobox.tsx:248-266 | an unknown focus goes to the first row on down and to the last row on up |
| Navigation.PrevUndoesNext | src/components/TreeCombobox/TreeCombobox.tsx:245-268 | up undoes down for a listed focus |
| Navigation.NextUndoesPrev | src/components/TreeCombobox/TreeCombobox.tsx:245-268 | down undoes up for a listed focus |
| Navigation.NextNAt | src/components/TreeCombobox/TreeCombobox.tsx:250-251 | k presses from position i reach position i+k when that stays in the list |
| Navigation.NextCycles | src/components/TreeCombobox/TreeCombobox.tsx:245-255 | with distinct ids, one press per row returns the focus to where it started |
| Navigation.GoNext | src/components/TreeCombobox/Ui/TreeCombobox.tsx:171-180 | only the focus changes, to the `Next` of the shown rows, so with rows shown it lands on a shown row |
| Navigation.GoPrevious | src/components/TreeCombobox/Ui/TreeCombobox.tsx:182-193 | only the focus changes; nothing happens while hidden; otherwise the focus becomes the `Prev` of the shown rows, a shown row when there are any |
| Navigation.GoDeeper | src/components/TreeCombobox/Ui/TreeCombobox.tsx:195-205 | nothing happens while hidden, without a focus or in `defaultExpanded` mode; otherwise, when the first shown node with the focused id has a non-empty list, that id is opened and its first child focused, and nothing happens when it has none |
| Navigation.GoUp | src/components/TreeCombobox/Ui/TreeCombobox.tsx:207-227 | nothing happens without a focus or in `defaultExpanded` mode; when the first shown node with the focused id has a children field and is open it is closed and the focus kept; otherwise the focus moves to the parent lookup's result, a shown node listing the focused id, or stays |
| Navigation.TransferControl | src/components/TreeCombobox/Ui/TreeCombobox.tsx:262-273 | control is taken; a focus still shown is kept, otherwise the first root is focused; an empty forest leaves the focus alone |
| Navigation.ShownStartsAtRoot | src/components/TreeCombobox/TreeCombobox.tsx:113-125 | the listing is non-empty if and only if the forest is, and starts with the first root |
| Navigation.DeeperFocusShown | src/components/TreeCombobox/TreeCombobox.tsx:270-280 | after going deeper the new focus is a shown row |
| Navigation.UpFocusShown | src/components/TreeCombobox/TreeCombobox.tsx:282-304 | after moving up the new focus is a shown row |
| Navigation.UpFromClosed | src/components/TreeCombobox/TreeCombobox.tsx:287-303 | from a focused id that is not an open shown node with a children field, the left arrow moves to the parent lookup's result, if any |
| Navigation.UpAfterDeeper | src/components/TreeCombobox/TreeCombobox.tsx:270-304 | right then left, when the child is not open, closes nothing and focuses the first shown node listing that child |
| Navigation.HostValue | src/App.tsx:78-81 | with no value reported the host keeps its value; a changed value was reported; a last report of a value decides it |
| Navigation.Initial | src/components/TreeCombobox/TreeCombobox.tsx:81-101 | the first render is hidden, uncontrolled, unfocused, shows the full forest, and opens every branch exactly in `defaultExpanded` mode; the generic variant's `Ui/TreeCombobox.tsx` lines 32-51 are the same |
| Classic.FocusFirst | src/components/TreeCombobox/TreeCombobox.tsx:339-342 | only the focus changes: to the first row when there is one |
| Classic.Select | src/components/TreeCombobox/TreeCombobox.tsx:446-505 | closes and gives up control; reports a new value (the label inserted at the caret) only when the word before the caret is empty; then the node with its ancestors from the full data, then the caret after the label |
| Classic.KeyDown | src/components/TreeCombobox/TreeCombobox.tsx:326-405 | only Ctrl+Space changes the forest (to the full data); only Enter with control reports anything; only the right and left arrows with control change the expansion set; while hidden the down arrow shows the dropdown, takes control and focuses the first shown row, and while shown without control it takes control and does the same; with control the down, up, right and left arrows are exactly `GoNext`, `GoPrevious`, `GoDeeper` and `GoUp`, and Escape hides, gives up control and clears the focus |
| Classic.SearchRun | src/components/TreeCombobox/TreeCombobox.tsx:417-437 | a non-empty value shows the filtered forest exactly when something matches, focuses the first survivor under control and otherwise keeps the focus, replaces the expansion set with the auto-expansion set outside `defaultExpanded` mode, and makes every survivor visible; an empty value restores the data and clears the focus while hidden |
| Navigation.ExpandNode | src/components/TreeCombobox/TreeCombobox.tsx:507-512 | outside `defaultExpanded` mode the id is added and `onExpand` fires; otherwise nothing; the same as `Ui/TreeCombobox.tsx` lines 345-350 |
| Navigation.CollapseNode | src/components/TreeCombobox/TreeCombobox.tsx:514-522 | outside `defaultExpanded` mode the id is removed; otherwise nothing; the same as `Ui/TreeCombobox.tsx` lines 352-360 |
| Classic.Handle | src/components/TreeCombobox/TreeCombobox.tsx:551-565 | a click outside hides; focusing the input shows; typing (`handleInputChange`, lines 407-410) is forwarded unchanged |
| Classic.DefaultExpandedKeepsExpansion | src/components/TreeCombobox/TreeCombobox.tsx:187-189 | in `defaultExpanded` mode no event changes the expansion set |
| Classic.HiddenIgnoresKeys | src/components/TreeCombobox/TreeCombobox.tsx:346-359 | while hidden, every key but the down arrow and Ctrl+Space does nothing |
| Classic.UncontrolledIgnoresKeys | src/components/TreeCombobox/TreeCombobox.tsx:361-373 | while shown without control, every key but the down arrow and Ctrl+Space does nothing |
| Classic.ArrowDownOpens | src/components/TreeCombobox/TreeCombobox.tsx:347-357 | the down arrow on a hidden dropdown shows it with control, focused on the first root |
| Classic.CtrlSpaceFocusesFirstRoot | src/components/TreeCombobox/TreeCombobox.tsx:333-344 | Ctrl+Space shows the full data with control, focused on its first root |
| Classic.EscapeReleases | src/components/TreeCombobox/TreeCombobox.tsx:317-324 | Escape with control hides, gives up control, clears the focus and reports nothing |
| Classic.ArrowsKeepFocusShown | src/components/TreeCombobox/TreeCombobox.tsx:376-389 | with control, the down, up and right arrows leave the focus on a shown row |
| Classic.ReplacementReportsNoValue | src/components/TreeCombobox/TreeCombobox.tsx:463-484 | choosing "XYZ" with the caret after "de" in "abc de" reports no new value |
| Classic.Dispatch | src/components/TreeCombobox/TreeCombobox.tsx:417-437 | with neither control nor the host's value changed the event is the handler alone; otherwise the effect runs once on the host's new value, reports nothing, leaves control alone and, for a non-empty value, filters the data with it and shows the dropdown exactly when something matches |
| Classic.InsertingSelectionReshows | src/components/TreeCombobox/TreeCombobox.tsx:485-505 | choosing a node with an empty word before the caret runs the effect on the spliced value: the focus is kept, control is gone, and the dropdown is shown again exactly when that value matches |
| Classic.ChoosingIntoEmptyInputReshows | src/components/TreeCombobox/TreeCombobox.tsx:485-505 | choosing a node labelled "Foo", present in the data, into an empty input reports "Foo", shows the dropdown again and keeps the focus on its row |
| Classic.TypingRunsSearch | src/components/TreeCombobox/TreeCombobox.tsx:406-409 | typing new non-empty text reports it, and the effect filters the data with it and shows the dropdown exactly when something matches, without changing control |
| Classic.UpUndoesDown | src/components/TreeCombobox/TreeCombobox.tsx:377-386 | with control and distinct shown ids, the up arrow after the down arrow restores the state |
| Classic.EscapeThenEffect | src/components/TreeCombobox/TreeCombobox.tsx:317-324 | Escape under control, followed by the effect it triggers (line 437), clears the focus and control and leaves the dropdown shown exactly when the value is non-empty and matches |
| Classic.EnterSelectsFocused | src/components/TreeCombobox/TreeCombobox.tsx:306-315 | Enter on a focused shown node closes and reports the selection with its ancestors and the caret, preceded by the new value only when the label was inserted |
| Classic.EnterWithoutShownFocus | src/components/TreeCombobox/TreeCombobox.tsx:306-315 | Enter with no focus, or with a focus that is not shown, does nothing |
| Classic.SelectionPathIsAncestry | src/components/TreeCombobox/TreeCombobox.tsx:448-502 | the reported parent path is a chain from a root down to a node listing the selected id |
| Classic.ExpandThenCollapse | src/components/TreeCombobox/TreeCombobox.tsx:507-522 | opening a closed node and closing it again restores the state |
| Generic.Select | src/components/TreeCombobox/Ui/TreeCombobox.tsx:337-343 | reports the node, its ancestors from the full data and the key, then closes and gives up control |
| Generic.HandleEnter | src/components/TreeCombobox/Ui/TreeCombobox.tsx:229-239 | with a focus that is shown, the focus is cleared and exactly one selection of that node is reported with the key; otherwise nothing |
| Generic.QuitStep | src/components/TreeCombobox/Ui/TreeCombobox.tsx:241-252 | exactly one callback: with control, control goes back and the focus clears, the dropdown staying shown; without it, the dropdown hides |
| Generic.ForceOpen | src/components/TreeCombobox/Ui/TreeCombobox.tsx:254-260 | the dropdown is shown with control over the data filtered by the value (all of it for an empty value); the focus follows the control transfer on the old state; for a non-empty value outside `defaultExpanded` mode the expansion set becomes the auto-expansion set |
| Generic.KeyDown | src/components/TreeCombobox/Ui/TreeCombobox.tsx:280-335 | only Escape while shown, or Enter or Tab with control, report anything; Escape while shown is the quit step; while hidden the down arrow shows the dropdown and transfers control, and while shown without control it transfers control; with control the down, up, right and left arrows are exactly `GoNext`, `GoPrevious`, `GoDeeper` and `GoUp`; Ctrl+Space is exactly `ForceOpen`; with control Enter and Tab are exactly `HandleEnter` with that key |
| Generic.SearchRun | src/components/TreeCombobox/Ui/TreeCombobox.tsx:387-419 | a non-empty value filters the data, shows it exactly when something matches and replaces the expansion set with the auto-expansion set outside `defaultExpanded` mode; a new focus is a non-empty id of a matching node; an empty value restores the data and clears the focus while hidden |
| Generic.Handle | src/components/TreeCombobox/Ui/TreeCombobox.tsx:275-278 | typing gives up control and forwards the value; a click selects with no key; a click outside hides |
| Generic.DefaultExpandedKeepsExpansion | src/components/TreeCombobox/Ui/TreeCombobox.tsx:135-137 | in `defaultExpanded` mode no event changes the expansion set |
| Generic.Dispatch | src/components/TreeCombobox/Ui/TreeCombobox.tsx:387-419 | with neither visibility nor the host's value changed the event is the handler alone; otherwise the effect runs once on the host's new value, reports nothing, leaves control alone and, for a non-empty value, filters the data with it and shows the dropdown exactly when something matches |
| Generic.TypingRunsSearch | src/components/TreeCombobox/Ui/TreeCombobox.tsx:275-278 | typing new non-empty text gives up control and reports it, and the effect filters the data with it and shows the dropdown exactly when something matches |
| Generic.UpUndoesDown | src/components/TreeCombobox/Ui/TreeCombobox.tsx:307-316 | with control and distinct shown ids, the up arrow after the down arrow restores the state |
| Generic.SearchRunIdempotent | src/components/TreeCombobox/Ui/TreeCombobox.tsx:387-419 | a second run of the search effect changes nothing |
| Generic.QuitThenEffect | src/components/TreeCombobox/Ui/TreeCombobox.tsx:241-252 | Escape without control reports `onQuit`, and with the effect it triggers (line 419) the dropdown stays shown exactly when the value is non-empty and matches |
| Generic.OutsideClickThenEffect | src/components/TreeCombobox/Ui/TreeCombobox.tsx:385 | a click outside, followed by the effect it triggers, leaves the dropdown shown exactly when the value is non-empty and matches |
| Generic.EscapeTwiceQuits | src/components/TreeCombobox/Ui/TreeCombobox.tsx:294-297 | Escape under control hands control back and keeps the dropdown shown; a second Escape closes it; each reports exactly one callback |
| Generic.HiddenIgnoresKeys | src/components/TreeCombobox/Ui/TreeCombobox.tsx:286-292 | while hidden, every key but the down arrow and Ctrl+Space does nothing, Escape included |
| Generic.UncontrolledIgnoresKeys | src/components/TreeCombobox/Ui/TreeCombobox.tsx:299-304 | while shown without control, only Escape, the down arrow and Ctrl+Space act |
| Generic.TabSelectsFocused | src/components/TreeCombobox/Ui/TreeCombobox.tsx:327-333 | Tab with control on a shown focus reports that node once with the key Tab, clears the focus, closes and gives up control |
| Generic.EnterAndTabAgree | src/components/TreeCombobox/Ui/TreeCombobox.tsx:327-333 | Enter and Tab select the same node and differ only in the reported key |
| Generic.ArrowDownKeepsShownFocus | src/components/TreeCombobox/Ui/TreeCombobox.tsx:266-268 | taking control keeps a focus that is still shown |
| Generic.TypingReleasesControl | src/components/TreeCombobox/Ui/TreeCombobox.tsx:275-278 | typing always takes control away from the dropdown and forwards the value |
| Generic.SearchFocusesFirstPreOrderMatch | src/components/TreeCombobox/Ui/TreeCombobox.tsx:393-410 | with non-empty ids and a match, the focus becomes the first matching node of the filtered forest in full pre-order |
| Generic.ExpandThenCollapse | src/components/TreeCombobox/Ui/TreeCombobox.tsx:345-360 | opening a closed node and closing it again restores the state |

## Left out

- Rendering, styling and scrolling (`renderTreeItems`, the styled containers, both `TreeItem` components): presentation only.
- DOM caret handling (`setSelectionRange`, `requestAnimationFrame`, `dispatchEvent`, the caret-restoration effect, `handleSelect`): the model computes the new value and caret and reports the caret as `CaretAt`, but does not model the DOM.
- The document `mousedown` listeners and `useOutsideClick`: they appear only as the `OutsideClick` event.
- The timer, Promise and loading flag of the handbook hook: timing, not logic. `SearchHandbook` is the pure filter inside them.
- `selectedNodeId` of the classic variant: it only drives rendering.
- `maxResults`: it is accepted but never used.
- `Text.Lower`: it folds only ASCII and basic Cyrillic capitals (plus Ё), not the whole of Unicode `toLowerCase`.
- Tree.Visible: its own contract states only that every root is listed; the full characterisation is in `Tree.VisibleAtRoot` and `Tree.VisibleIff`.
- Generic.KeyDown: after Ctrl+Space the rest of the handler is not modelled. It runs on the old state but has no branch for the space key, so it changes nothing.
- Classic.Handle: it describes the handlers alone. The effect run that follows a new value or a change of control is in `Classic.Dispatch`.
- Classic.EscapeReleases: it describes the Escape handler alone. With the effect re-run it triggers, the dropdown reappears when the value is non-empty and still matches (`Classic.EscapeThenEffect`).
- Generic.EscapeTwiceQuits: it describes the two handler calls alone. The second press hides the dropdown, and the effect re-run this triggers shows it again when the value is non-empty and still matches (`Generic.QuitThenEffect`, `Generic.OutsideClickThenEffect` for a click outside).
- Splice.Splice: strings are sequences of code points, while the code counts UTF-16 code units (`selectionStart`, `slice`, `indexOf`, `lastIndexOf`, `length`). Carets, indices and lengths therefore agree with the code's only for text with no characters outside the Basic Multilingual Plane: choosing "😀" into an empty input puts the caret at 2 in the code and reports `CaretAt(1)` here. The same holds for `Classic.Select`, `Splice.WordStart` and the `Text` index functions.
- Splice.Clamp: a caret past the end of the value is clamped, whereas the code would use it unclamped in `start`. The browser never reports such a caret.
- Id uniqueness: the code never checks it. The lemmas that need it take `UniqueIds` or `DistinctIds` as a precondition.
- The host's global `keydown` listener, `App.tsx` and the fixture data: host shell.

## Findings

| source | as written | input that shows it | evidently intended | confidence | as-written member | corrected member |
|---|---|---|---|---|---|---|
| src/components/TreeCombobox/TreeCombobox.tsx:463-484 | when a word precedes the caret, the new value is computed but never handed to `onChange`; only a bare `change` event is dispatched, and it carries no value | value "abc de", caret 6, label "XYZ": no `onChange`, the value stays "abc de" | `onChange("abc XYZ")`, as the insertion branch does for its value | not executed | Splice.AsWrittenDropsReplacement | Splice.SelectionChange |

`Classic.Select` follows the code as written, and so does every Classic
lemma about selection. The corrected `Splice.SelectionChange` and
`Splice.SelectionEmitsLabel` state the intended behaviour on their own.
