# Combobox, expander group and `aria-describedby` logic of a React component library

This project models, in Dafny, the three pieces of state logic in a
design-system component library whose other components only render markup:

- **The multi-select combobox** (`BaseCombobox`). Its state has the full item
  list, the filtered list reported by the filter input, the popover flag, and
  the highlighted label. Items are objects with a `selected` field. The full
  list and the filtered list share these objects. Selecting an item overwrites
  that field in place, so the model uses a class `Item` and the change shows
  through both lists. The model covers the selection handler, the
  `getSelectedItems` reducer, the arrow-key handler with JavaScript's
  truncating `%`, and the case-insensitive `filter` predicate.
- **The expander group** (`BaseExpanderGroup`). It keeps a dictionary from
  child position to an open flag, counts the open entries, and keeps the
  `toState` that the "open all / close all" button broadcasts. The model also
  covers the button caption and the group's open class.
- **`getAriaDescribedByProp`**. It filters out falsy ids, joins the rest with
  one space and trims the result. The model returns a map from attribute name
  to value.

The model follows the code as written; in particular:

- The arrow keys look up the current highlight's index in the **full** item
  list. They take the step and read the label in the **filtered** list. With a
  filter active, the highlight can stall (`ArrowDownCanStall`). Without a
  filter, the highlight cycles through the list (`ArrowDownCyclesUnfiltered`).
- An empty filtered list is not guarded. The arrow handler computes `% 0`,
  which is `NaN`, and then reads `labelText` of `undefined`. The model returns
  `Fail(TypeError)` and leaves the state unchanged.
- The selection handler **sets** the flag to the value it is given and does not
  toggle it. A click toggles only because the caller passes `!item.selected`.
  The observer is called even when no item has the label.
- The initial `toState` is true exactly when the group has a child and every
  child starts open. It is recomputed only when the "all" button is clicked.

Files: `optional.dfy` (absent values), `aria.dfy`,
`combobox.dfy`, `expander_group.dfy`.

## Model

| member | source | states |
|---|---|---|
| `Aria.Truthy` | src/utils/aria.ts:21 | `!!id` holds iff the id is defined and has at least one character |
| `Aria.Existing` | src/utils/aria.ts:21 | a string is kept iff it is the value of some truthy id; kept ids are never empty, are no more than the input ids, and are none exactly when no id is truthy |
| `Aria.ExistingAppend` | src/utils/aria.ts:21 | filtering the ids keeps their order: it distributes over concatenation |
| `Aria.Join` | src/utils/aria.ts:23 | `join` of a non-empty list starts with the first string, and its length is the strings' total length plus one separator between each pair; the empty list joins to the empty string |
| `Aria.Trim` | src/utils/aria.ts:23 | the trimmed value is the slice of the input between its leading and trailing whitespace; it neither starts nor ends with whitespace, and everything cut off is ECMAScript whitespace |
| `Aria.GetAriaDescribedByProp` | src/utils/aria.ts:14-29 | the result has only the `aria-describedby` key, has it iff some id is truthy, and is the empty map when every id is `undefined` or empty |
| `Aria.FalsyIdIgnored` | src/utils/aria.ts:21-23 | inserting an `undefined` or empty id anywhere leaves the result unchanged |
| `Aria.SplitJoin` | src/utils/aria.ts:23 | splitting a space-join of whitespace-free ids at each space gives back the ids |
| `Aria.DescribedByRoundTrip` | src/utils/aria.ts:21-25 | for whitespace-free ids, trimming changes nothing, and splitting the value at spaces gives exactly the truthy ids in order, with no empty field |
| `Combobox.IndexOfLabel` | src/core/Form/Combobox/Combobox.tsx:89-92 | the index is -1 or the position of the first item with the label; no earlier item has it, and with -1 no item has it |
| `Combobox.UniqueLabelsPairwise` | src/core/Form/Combobox/Combobox.tsx:24 | the unique-label promise, stated item by item against earlier labels, holds iff no two positions carry the same label |
| `Combobox.IndexOfOwnLabel` | src/core/Form/Combobox/Combobox.tsx:123-126 | with unique labels, looking up an item's label finds that item's position |
| `Combobox.Pick` | src/core/Form/Combobox/Combobox.tsx:55-67 | the picked items are list items whose flag is set, every flagged item is picked, there are at most as many as items, and with every flag set the list comes back whole |
| `Combobox.PickAppend` | src/core/Form/Combobox/Combobox.tsx:55-67 | picking keeps list order: it distributes over concatenation |
| `Combobox.SelectedItemsMembership` | src/core/Form/Combobox/Combobox.tsx:55-67 | an object is among the selected items iff it is in the list and its `selected` field is true |
| `Combobox.GetSelectedItems` | src/core/Form/Combobox/Combobox.tsx:55-67 | the reduce loop returns the items whose `selected` field is set, in list order |
| `Combobox.SelectionUpdate` | src/core/Form/Combobox/Combobox.tsx:89-96 | the flags after the handler: for a label no item has they are unchanged; a flag changes only at an item carrying the label and only to the new value; the first item with the label gets the new value |
| `Combobox.SelectionIdempotent` | src/core/Form/Combobox/Combobox.tsx:89-96 | applying the selection update twice with the same label and value equals applying it once |
| `Combobox.SelectionOfAbsentLabel` | src/core/Form/Combobox/Combobox.tsx:92-99 | for a label no item has, every flag and the reported selection stay as they were |
| `Combobox.SelectionOfPresentLabel` | src/core/Form/Combobox/Combobox.tsx:89-96 | for a present label and distinct objects, only the first matching position changes, it gets the new value, and that item is reported iff the value is true |
| `Combobox.JsRemainder` | src/core/Form/Combobox/Combobox.tsx:129-130 | JavaScript's `%` by a positive divisor: the remainder lies strictly between `-n` and `n`, takes the sign of the dividend, and with the quotient rounded toward zero gives back the dividend |
| `Combobox.NextIndex` | src/core/Form/Combobox/Combobox.tsx:129 | `NaN` exactly for an empty list; otherwise the index is `(index + 1) mod n`, always in bounds, and the next position with wrap-around |
| `Combobox.PreviousIndex` | src/core/Form/Combobox/Combobox.tsx:130 | `NaN` exactly for an empty list; otherwise the index is `(index - 1 + n) mod n`, always in bounds; from -1 it lands on `n - 2` (or 0 when n = 1) |
| `Combobox.KeyDownEffect` | src/core/Form/Combobox/Combobox.tsx:123-160 | with `start` the index of the highlighted label in the full list (-1 when there is none or it is missing), on a non-empty filtered list ArrowDown highlights filtered item `(start + 1) mod n` and ArrowUp filtered item `(start - 1 + n) mod n` |
| `Combobox.KeyDownOutcomes` | src/core/Form/Combobox/Combobox.tsx:121-162 | an arrow key throws iff the filtered list is empty, and otherwise highlights the label of a filtered item; any other key is ignored |
| `Combobox.ArrowDownFromNothing` | src/core/Form/Combobox/Combobox.tsx:123-142 | with no highlight, ArrowDown highlights the first filtered item |
| `Combobox.ArrowUpFromNothing` | src/core/Form/Combobox/Combobox.tsx:145-151 | with no highlight, ArrowUp highlights the second-to-last filtered item (the only one when there is one) |
| `Combobox.UnknownHighlightIsNoHighlight` | src/core/Form/Combobox/Combobox.tsx:123-126 | a highlight whose label is not in the full list acts exactly like no highlight |
| `Combobox.ArrowDownThenUpUnfiltered` | src/core/Form/Combobox/Combobox.tsx:127-151 | without a filter and with unique labels, ArrowDown moves to the next position with wrap-around and ArrowUp moves back |
| `Combobox.ArrowDownUnfiltered` | src/core/Form/Combobox/Combobox.tsx:123-142 | without a filter and with unique labels, ArrowDown moves the highlight to the next position, from the last to the first |
| `Combobox.ArrowDownCyclesUnfiltered` | src/core/Form/Combobox/Combobox.tsx:127-142 | without a filter, m ArrowDown presses (m at most the list length) move the highlight m places around the list |
| `Combobox.ArrowDownFullCycle` | src/core/Form/Combobox/Combobox.tsx:127-142 | without a filter, as many ArrowDown presses as there are items bring the highlight back where it started |
| `Combobox.ArrowDownCanStall` | src/core/Form/Combobox/Combobox.tsx:123-133 | because the start index comes from the full list, ArrowDown on items A, B, C filtered to B, C leaves B highlighted |
| `Combobox.Includes` | src/core/Form/Combobox/Combobox.tsx:119 | `includes` holds iff the query occurs in the label at some offset |
| `Combobox.Filter` | src/core/Form/Combobox/Combobox.tsx:118-119 | an item matches iff the lowercased query occurs in the lowercased label at some offset; a query longer than the label never matches |
| `Combobox.FilterMatchesEmptyAndOwnLabel` | src/core/Form/Combobox/Combobox.tsx:118-119 | the empty query matches every item, and every item matches its own label |
| `Combobox.FilterIgnoresQueryCase` | src/core/Form/Combobox/Combobox.tsx:118-119 | lowercasing or uppercasing the query's letters never changes the match |
| `Combobox.HammerQuery` | src/core/Form/FilterInput/FilterInput.test.tsx:14-20 | under the combobox's case-insensitive filter, the query "Hammer" on the five tool names of the filter-input test data matches Jackhammer, Hammer and Sledgehammer, and not Spade or Powersaw |
| `Combobox.BaseCombobox.constructor` | src/core/Form/Combobox/Combobox.tsx:77-83 | initially the filtered list is the item list, the popover is hidden and nothing is highlighted |
| `Combobox.BaseCombobox.HandleItemSelected` | src/core/Form/Combobox/Combobox.tsx:85-102 | only the first item with the label changes its `selected` field, and the change shows through the filtered list too; lists, popover and highlight are unchanged; the observer, if given, receives the selected items of the updated list even when no item matched |
| `Combobox.BaseCombobox.SetFilteredItems` | src/core/Form/Combobox/Combobox.tsx:201 | the filtered list becomes the reported list and nothing else changes |
| `Combobox.BaseCombobox.SetPopoverVisibility` | src/core/Form/Combobox/Combobox.tsx:164-166 | the popover flag becomes the given value and nothing else changes |
| `Combobox.BaseCombobox.HandleKeyDown` | src/core/Form/Combobox/Combobox.tsx:121-162 | only the highlight can change: the key names `ArrowDown` and `ArrowUp` move it as the key arithmetic says, or fail with a `TypeError` on an empty filtered list; every other key name changes nothing |
| `ExpanderGroup.StartsOpen` | src/core/Expander/ExpanderGroup.tsx:83-85 | a child starts open iff it is a valid element and its `defaultOpen` or its `open` prop is `true`; an `undefined` or `false` prop does not open it |
| `ExpanderGroup.InitialStateOfExpanders` | src/core/Expander/ExpanderGroup.tsx:77-89 | the dictionary has one entry per valid child, at its position, holding whether `defaultOpen` or `open` is true |
| `ExpanderGroup.OpenExpandersCount` | src/core/Expander/ExpanderGroup.tsx:91-93 | the count is at most the number of entries, and is 0 iff no entry is open |
| `ExpanderGroup.CountAgainstChildren` | src/core/Expander/ExpanderGroup.tsx:91-93 | with keys among the child positions, the count is at most the number of children, and equals it iff every position has an open entry |
| `ExpanderGroup.OpenCountAfterUpdate` | src/core/Expander/ExpanderGroup.tsx:105-114 | setting one entry changes the count by exactly the difference between its new and old contribution |
| `ExpanderGroup.InitialToState` | src/core/Expander/ExpanderGroup.tsx:96-103 | the initial `toState` formula holds iff there is a child and every child is an element that starts open |
| `ExpanderGroup.BaseExpanderGroup.constructor` | src/core/Expander/ExpanderGroup.tsx:96-103 | the initial dictionary is built from the children, and `toState` is true iff every one of at least one child starts open |
| `ExpanderGroup.BaseExpanderGroup.HandleExpanderOpenChange` | src/core/Expander/ExpanderGroup.tsx:105-114 | entry `index` becomes the new state; every other entry and `toState` are unchanged; an in-range index keeps the keys among the child positions |
| `ExpanderGroup.BaseExpanderGroup.AllExpandersOpen` | src/core/Expander/ExpanderGroup.tsx:116-120 | despite the name, true iff some child position is not open |
| `ExpanderGroup.BaseExpanderGroup.HandleAllToggleClick` | src/core/Expander/ExpanderGroup.tsx:122-128 | `toState` becomes "some expander closed", the dictionary is unchanged, and the new `toState` is "open all" exactly when the button offered "open all" |
| `ExpanderGroup.BaseExpanderGroup.Caption` | src/core/Expander/ExpanderGroup.tsx:133-145 | the button shows `CloseAll` iff every child position is open |
| `ExpanderGroup.BaseExpanderGroup.HasOpenClass` | src/core/Expander/ExpanderGroup.tsx:133-141 | the group carries the open class iff some entry is open |

## Left out

- Rendering: the JSX, the `classnames` joins, ARIA attributes written into the markup, chips, and the styled-components wrappers.
- DOM side effects of the key handler: `preventDefault`, `focusToMenu` focus calls and `console.log`. The `AutoId` id generation is left out too.
- The `filterInputRef` state field and `setFilterInputRefElement`. They hold a DOM element for popover positioning.
- The filter input component is not part of this model. `filteredItems` arrives only through `SetFilteredItems`, and the model does not assume it is a sublist of `items`.
- The `onItemSelectionsChange` callback is a foreign call. `HandleItemSelected` returns the list the callback would receive, and `None` when no callback is given.
- The props array that `state.items` shares with the parent component. The model does not capture that the parent sees the change.
- React `setState` batching and asynchrony. Each handler is one atomic transition on the state it reads.
- Combobox.ToLowerCase: lowercases ASCII letters only. JavaScript's `toLowerCase` covers all of Unicode.
- React's child flattening in `React.Children.forEach` and `React.Children.count`. Children are one flat list, so `children.length` and `React.Children.count(children)` are both its length. A single child that is not in an array is not modelled.
- Props are fixed for the component's lifetime: the group's `children` and the combobox's `onItemSelectionsChange` are set when the component is built. In the source, a parent re-render with a different set of children leaves `openExpanders` as it was, while `allExpandersOpen` and the caption read the new child count; the model cannot express that state.
- How each expander reacts to the broadcast `toState` and reports back through the context. That code lives in the Expander component, which is not part of this model. The same goes for `ExpanderGroupItems`, which only clones elements.
- Combobox.ArrowDownCyclesUnfiltered: states the walk for up to `|items|` presses only. `ArrowDownFullCycle` covers the return to the start after `|items|` presses, and longer walks repeat that cycle.
