/**
 * The selection and highlight state of the multi-select combobox
 * (`BaseCombobox` in the component library).
 *
 * The state holds the full item list, the filtered list that the filter input
 * reports through `onFilter`, whether the popover is shown, and the label of
 * the item highlighted by the arrow keys. Items are JavaScript objects that the
 * full list and the filtered list share, and selecting an item overwrites the
 * `selected` field of that object in place; they are modelled as objects of
 * class `Item` so that the change is seen through both lists.
 */
module Combobox {
  import opened Optional

  /** One `ComboboxData` object. */
  class Item {
    /** The unique label shown in the list and matched by the filter. */
    const labelText: string
    var selected: bool
    /** Shown on the chip of a selected item instead of the label; rendering only. */
    const chipText: Option<string>
    /** Selection disabled for the user; rendering only. */
    const disabled: Option<bool>

    constructor (labelText: string, selected: bool, chipText: Option<string>, disabled: Option<bool>)
      ensures this.labelText == labelText && this.selected == selected
      ensures this.chipText == chipText && this.disabled == disabled
    {
      this.labelText := labelText;
      this.selected := selected;
      this.chipText := chipText;
      this.disabled := disabled;
    }
  }

  /**
   * The documented promise of the `labelText` prop: no label occurs twice.
   * Stated position by position: each item's label differs from every
   * earlier label (`UniqueLabelsPairwise` gives the pairwise form).
   */
  predicate UniqueLabels(items: seq<Item>) {
    UniqueUpTo(items, |items|)
  }

  /** The first `n` labels of `items` are pairwise different. */
  predicate UniqueUpTo(items: seq<Item>, n: nat)
    requires n <= |items|
  {
    n == 0 ||
    (UniqueUpTo(items, n - 1) && forall j :: 0 <= j < n - 1 ==> items[j].labelText != items[n - 1].labelText)
  }

  /** `UniqueLabels` says exactly that no two positions carry the same label. */
  lemma UniqueLabelsPairwise(items: seq<Item>)
    ensures UniqueLabels(items) <==>
      forall i, j :: 0 <= i < j < |items| ==> items[i].labelText != items[j].labelText
  {
    UniqueUpToPairwise(items, |items|);
  }

  lemma {:induction false} UniqueUpToPairwise(items: seq<Item>, n: nat)
    requires n <= |items|
    ensures UniqueUpTo(items, n) <==>
      forall i, j :: 0 <= i < j < n ==> items[i].labelText != items[j].labelText
  {
    if n > 0 {
      UniqueUpToPairwise(items, n - 1);
    }
  }

  /**
   * The position of the first item whose label is `label`, or -1. This is
   * both `items.indexOf(items.filter(same label)[0])` of the selection handler
   * and `items.findIndex(same label)` of the key handler.
   */
  function IndexOfLabel(items: seq<Item>, text: string): (k: int)
    ensures -1 <= k < |items|
    ensures k >= 0 ==> items[k].labelText == text
    ensures forall j :: 0 <= j < |items| && (k < 0 || j < k) ==> items[j].labelText != text
  {
    IndexFrom(items, text, 0)
  }

  /** The position of the first item at or after `from` whose label is `text`, or -1. */
  function IndexFrom(items: seq<Item>, text: string, from: nat): (k: int)
    requires from <= |items|
    ensures -1 <= k < |items|
    ensures k >= 0 ==> from <= k && items[k].labelText == text
    ensures forall j :: from <= j < |items| && (k < 0 || j < k) ==> items[j].labelText != text
    decreases |items| - from
  {
    if from == |items| then -1
    else if items[from].labelText == text then from
    else IndexFrom(items, text, from + 1)
  }

  /** With unique labels, the label of an item leads back to that item's position. */
  lemma IndexOfOwnLabel(items: seq<Item>, i: int)
    requires UniqueLabels(items) && 0 <= i < |items|
    ensures IndexOfLabel(items, items[i].labelText) == i
  {
    UniqueLabelsPairwise(items);
  }

  // ----- Selection -----------------------------------------------------------

  /** The `selected` flags of `items`, position by position. */
  ghost function Flags(items: seq<Item>): (r: seq<bool>)
    reads items
    ensures |r| == |items|
    ensures forall j :: 0 <= j < |items| ==> r[j] == items[j].selected
  {
    if items == [] then [] else [items[0].selected] + Flags(items[1..])
  }

  /**
   * The items whose flag is set, in list order: what `getSelectedItems`
   * returns when `flags` are the items' current `selected` fields.
   */
  function Pick(items: seq<Item>, flags: seq<bool>): (r: seq<Item>)
    requires |flags| == |items|
    ensures |r| <= |items|
    ensures forall x :: x in r ==> exists j :: 0 <= j < |items| && items[j] == x && flags[j]
    ensures forall j :: 0 <= j < |items| && flags[j] ==> items[j] in r
    ensures (forall j :: 0 <= j < |items| ==> flags[j]) ==> r == items
  {
    if items == [] then []
    else (if flags[0] then [items[0]] else []) + Pick(items[1..], flags[1..])
  }

  /** Picking keeps the list order: it distributes over concatenation. */
  lemma {:induction false} PickAppend(a: seq<Item>, fa: seq<bool>, b: seq<Item>, fb: seq<bool>)
    requires |fa| == |a| && |fb| == |b|
    ensures Pick(a + b, fa + fb) == Pick(a, fa) + Pick(b, fb)
  {
    if a == [] {
      assert a + b == b && fa + fb == fb;
    } else {
      assert (a + b)[1..] == a[1..] + b;
      assert (fa + fb)[1..] == fa[1..] + fb;
      PickAppend(a[1..], fa[1..], b, fb);
    }
  }

  /** Picking from one more position appends that item when its flag is set. */
  lemma PickSnoc(items: seq<Item>, flags: seq<bool>, i: int)
    requires |flags| == |items| && 0 <= i < |items|
    ensures Pick(items[..i + 1], flags[..i + 1]) ==
      Pick(items[..i], flags[..i]) + if flags[i] then [items[i]] else []
  {
    assert items[..i + 1] == items[..i] + [items[i]];
    assert flags[..i + 1] == flags[..i] + [flags[i]];
    PickAppend(items[..i], flags[..i], [items[i]], [flags[i]]);
    assert Pick([items[i]], [flags[i]]) == if flags[i] then [items[i]] else [];
  }

  /** An object is reported as selected exactly when it is in the list and its flag is set. */
  lemma SelectedItemsMembership(items: seq<Item>, x: Item)
    ensures x in Pick(items, Flags(items)) <==> x in items && x.selected
  {
    var flags := Flags(items);
    if x in items && x.selected {
      var j :| 0 <= j < |items| && items[j] == x;
      assert flags[j];
    }
  }

  /**
   * `getSelectedItems(items)`: a `reduce` that pushes every selected item
   * onto an accumulator.
   */
  method GetSelectedItems(items: seq<Item>) returns (selectedItems: seq<Item>)
    ensures selectedItems == Pick(items, Flags(items))
  {
    ghost var flags := Flags(items);
    selectedItems := [];
    var i := 0;
    while i < |items|
      invariant 0 <= i <= |items|
      invariant selectedItems == Pick(items[..i], flags[..i])
    {
      var item := items[i];
      PickSnoc(items, flags, i);
      if item.selected {
        selectedItems := selectedItems + [item];
      }
      i := i + 1;
    }
    assert items[..i] == items;
    assert flags[..i] == flags;
  }

  /**
   * The flags after `handleItemSelected(label, b)` when they were `flags`
   * before: the first item labelled `label` gets `b`; since that object may
   * stand at several positions, every position holding it changes with it.
   */
  function SelectionUpdate(items: seq<Item>, flags: seq<bool>, text: string, b: bool): (r: seq<bool>)
    requires |flags| == |items|
    ensures |r| == |flags|
    ensures (forall j :: 0 <= j < |items| ==> items[j].labelText != text) ==> r == flags
    ensures forall j :: 0 <= j < |items| && r[j] != flags[j] ==> r[j] == b && items[j].labelText == text
    ensures forall j ::
      (0 <= j < |items| && items[j].labelText == text && forall i :: 0 <= i < j ==> items[i].labelText != text)
      ==> r[j] == b
  {
    var k := IndexOfLabel(items, text);
    seq(|items|, j requires 0 <= j < |items| => if k >= 0 && items[j] == items[k] then b else flags[j])
  }

  /** Setting the flag again with the same arguments changes nothing: the handler sets, it does not toggle. */
  lemma SelectionIdempotent(items: seq<Item>, flags: seq<bool>, text: string, b: bool)
    requires |flags| == |items|
    ensures var once := SelectionUpdate(items, flags, text, b);
      SelectionUpdate(items, once, text, b) == once
  {
  }

  /** A label that no item carries leaves every flag, and so the reported selection, as it was. */
  lemma SelectionOfAbsentLabel(items: seq<Item>, flags: seq<bool>, text: string, b: bool)
    requires |flags| == |items|
    requires forall j :: 0 <= j < |items| ==> items[j].labelText != text
    ensures SelectionUpdate(items, flags, text, b) == flags
    ensures Pick(items, SelectionUpdate(items, flags, text, b)) == Pick(items, flags)
  {
    assert SelectionUpdate(items, flags, text, b) == flags;
  }

  /**
   * When the list holds each object once, exactly one flag changes: that of
   * the first item with the label, which now reads `b`; the reported
   * selection holds that item iff `b`.
   */
  lemma SelectionOfPresentLabel(items: seq<Item>, flags: seq<bool>, text: string, b: bool)
    requires |flags| == |items|
    requires forall i, j :: 0 <= i < j < |items| ==> items[i] != items[j]
    requires exists j :: 0 <= j < |items| && items[j].labelText == text
    ensures var k := IndexOfLabel(items, text);
      && 0 <= k < |items|
      && SelectionUpdate(items, flags, text, b) == flags[k := b]
      && (items[k] in Pick(items, flags[k := b]) <==> b)
  {
    var k := IndexOfLabel(items, text);
    assert SelectionUpdate(items, flags, text, b) == flags[k := b];
  }

  // ----- Keyboard highlight --------------------------------------------------

  /** The case of `switch (event.key)` in `handleKeyDown` that a key press takes. */
  datatype Key = ArrowDown | ArrowUp | OtherKey

  /** Which case `switch (event.key)` takes for the key name `eventKey`. */
  function KeyOf(eventKey: string): (k: Key)
    ensures k == ArrowDown <==> eventKey == "ArrowDown"
    ensures k == ArrowUp <==> eventKey == "ArrowUp"
    ensures k == OtherKey <==> eventKey != "ArrowDown" && eventKey != "ArrowUp"
  {
    if eventKey == "ArrowDown" then ArrowDown
    else if eventKey == "ArrowUp" then ArrowUp
    else OtherKey
  }

  /** Reading `labelText` of `undefined`, which the key handler does when it indexes with `NaN`. */
  datatype KeyError = TypeError

  /** The outcome of an event handler: it completed, or it threw. */
  datatype Outcome<+E> = Pass | Fail(error: E)

  /**
   * JavaScript's `%` on a positive divisor: the remainder takes the sign of
   * the dividend. A result of `-0` stands for the same array element as 0.
   */
  function JsRemainder(a: int, n: int): (r: int)
    requires n > 0
    ensures -n < r < n
    ensures a >= 0 ==> r >= 0
    ensures a <= 0 ==> r <= 0
    ensures a == JsQuotient(a, n) * n + r
  {
    if a >= 0 then a % n else -((-a) % n)
  }

  /** The quotient rounded toward zero, which goes with `JsRemainder`. */
  function JsQuotient(a: int, n: int): int
    requires n > 0
  {
    if a >= 0 then a / n else -((-a) / n)
  }

  /** For `0 <= a < 2 * n`, the remainder is `a` or `a - n`. */
  lemma ModSmall(a: int, n: int)
    requires n > 0 && 0 <= a < 2 * n
    ensures a % n == if a < n then a else a - n
  {
  }

  /**
   * `getNextIndex()`: `(index + 1) % items.length`; `None` is `NaN`, the
   * result for an empty list. For every index `findIndex` can return it is
   * an index of the list; for a position of the list it is the next one,
   * wrapping from the last to the first.
   */
  function NextIndex(index: int, n: nat): (r: Option<int>)
    ensures r.None? <==> n == 0
    ensures n > 0 && index >= -1 ==> r == Some((index + 1) % n) && 0 <= r.value < n
    ensures n > 0 && -1 <= index < n ==> r == Some(if index + 1 < n then index + 1 else 0)
  {
    if n == 0 then None
    else
      if index + 1 >= 0 && index + 1 < 2 * n then ModSmall(index + 1, n); Some(JsRemainder(index + 1, n))
      else Some(JsRemainder(index + 1, n))
  }

  /**
   * `getPreviousIndex()`: `(index - 1 + items.length) % items.length`. For
   * every index `findIndex` can return it is an index of the list; for a
   * position of the list it is the previous one, wrapping from the first to
   * the last; from -1 (no highlight) it is the second-to-last position, or
   * on a one-element list the remainder -0, which is the first element.
   */
  function PreviousIndex(index: int, n: nat): (r: Option<int>)
    ensures r.None? <==> n == 0
    ensures n > 0 && index >= -1 ==> r == Some((index - 1 + n) % n) && 0 <= r.value < n
    ensures n > 0 && -1 <= index < n ==>
      r == Some(if index >= 1 then index - 1 else if index == 0 then n - 1 else if n >= 2 then n - 2 else 0)
  {
    if n == 0 then None
    else
      if index - 1 + n >= 0 && index - 1 + n < 2 * n then ModSmall(index - 1 + n, n); Some(JsRemainder(index - 1 + n, n))
      else Some(JsRemainder(index - 1 + n, n))
  }

  /** What a key press does to the highlight. */
  datatype KeyEffect = Highlight(labelText: string) | Ignore | Throw(error: KeyError)

  /** `items[i].labelText`, where an index outside the list yields `undefined` and the read throws. */
  function LabelAt(filtered: seq<Item>, i: Option<int>): KeyEffect {
    if i.Some? && 0 <= i.value < |filtered| then Highlight(filtered[i.value].labelText)
    else Throw(TypeError)
  }

  /**
   * `handleKeyDown`: the start index is looked up in the FULL list `items`,
   * while the step is taken, and the label read, in `filtered`.
   */
  function KeyDownEffect(items: seq<Item>, filtered: seq<Item>, current: Option<string>, key: Key): (r: KeyEffect)
    ensures var start := if current.Some? then IndexOfLabel(items, current.value) else -1;
      var n := |filtered|;
      && (key == ArrowDown && n > 0 ==> r == Highlight(filtered[(start + 1) % n].labelText))
      && (key == ArrowUp && n > 0 ==> r == Highlight(filtered[(start - 1 + n) % n].labelText))
  {
    var index := if current.Some? then IndexOfLabel(items, current.value) else -1;
    match key
    case ArrowDown => LabelAt(filtered, NextIndex(index, |filtered|))
    case ArrowUp => LabelAt(filtered, PreviousIndex(index, |filtered|))
    case OtherKey => Ignore
  }

  /**
   * An arrow key throws exactly when the filtered list is empty; otherwise it
   * highlights an element of the filtered list. Every other key is ignored.
   */
  lemma KeyDownOutcomes(items: seq<Item>, filtered: seq<Item>, current: Option<string>, key: Key)
    ensures var e := KeyDownEffect(items, filtered, current, key);
      && (e.Throw? <==> !key.OtherKey? && filtered == [])
      && (e.Ignore? <==> key.OtherKey?)
      && (e.Highlight? ==> exists j :: 0 <= j < |filtered| && filtered[j].labelText == e.labelText)
  {
  }

  /** With nothing highlighted, ArrowDown highlights the first filtered item. */
  lemma ArrowDownFromNothing(items: seq<Item>, filtered: seq<Item>)
    requires filtered != []
    ensures KeyDownEffect(items, filtered, None, ArrowDown) == Highlight(filtered[0].labelText)
  {
  }

  /**
   * With nothing highlighted, ArrowUp highlights the second-to-last filtered
   * item, not the last one (the first one on a one-item list).
   */
  lemma ArrowUpFromNothing(items: seq<Item>, filtered: seq<Item>)
    requires filtered != []
    ensures var n := |filtered|;
      KeyDownEffect(items, filtered, None, ArrowUp) ==
        Highlight(filtered[if n >= 2 then n - 2 else 0].labelText)
  {
  }

  /** A highlight that names no item of the full list counts as no highlight. */
  lemma UnknownHighlightIsNoHighlight(items: seq<Item>, filtered: seq<Item>, text: string, key: Key)
    requires forall j :: 0 <= j < |items| ==> items[j].labelText != text
    ensures KeyDownEffect(items, filtered, Some(text), key) == KeyDownEffect(items, filtered, None, key)
  {
  }

  /** Without an active filter and with unique labels, ArrowDown moves one place on, wrapping around. */
  lemma ArrowDownUnfiltered(items: seq<Item>, i: int)
    requires UniqueLabels(items) && 0 <= i < |items|
    ensures KeyDownEffect(items, items, Some(items[i].labelText), ArrowDown) ==
      Highlight(items[if i + 1 < |items| then i + 1 else 0].labelText)
  {
    IndexOfOwnLabel(items, i);
  }

  /**
   * Without an active filter (the filtered list is the full list) and with
   * unique labels, ArrowDown moves the highlight from position i to the next
   * position, wrapping from the last to the first, and ArrowUp undoes it.
   */
  lemma ArrowDownThenUpUnfiltered(items: seq<Item>, i: int)
    requires UniqueLabels(items) && 0 <= i < |items|
    ensures var j := if i + 1 < |items| then i + 1 else 0;
      && KeyDownEffect(items, items, Some(items[i].labelText), ArrowDown) == Highlight(items[j].labelText)
      && KeyDownEffect(items, items, Some(items[j].labelText), ArrowUp) == Highlight(items[i].labelText)
  {
    var j := if i + 1 < |items| then i + 1 else 0;
    IndexOfOwnLabel(items, i);
    IndexOfOwnLabel(items, j);
  }

  /** The highlight after pressing ArrowDown `m` times (a throwing press leaves it as it was). */
  function PressArrowDown(items: seq<Item>, filtered: seq<Item>, current: Option<string>, m: nat): Option<string> {
    if m == 0 then current
    else
      var before := PressArrowDown(items, filtered, current, m - 1);
      match KeyDownEffect(items, filtered, before, ArrowDown)
      case Highlight(text) => Some(text)
      case _ => before
  }

  /** Position `x` of a list of length `n`, for `x < 2 * n`, counted around the end. */
  function Wrap(x: int, n: int): int {
    if x < n then x else x - n
  }

  /** Without an active filter, a press after reaching position `p` reaches the next position. */
  lemma PressUnfilteredStep(items: seq<Item>, current: Option<string>, m: nat, p: int)
    requires UniqueLabels(items) && 0 <= p < |items| && m > 0
    requires PressArrowDown(items, items, current, m - 1) == Some(items[p].labelText)
    ensures PressArrowDown(items, items, current, m) == Some(items[Wrap(p + 1, |items|)].labelText)
  {
    ArrowDownUnfiltered(items, p);
    var before := PressArrowDown(items, items, current, m - 1);
    assert KeyDownEffect(items, items, before, ArrowDown) == Highlight(items[Wrap(p + 1, |items|)].labelText);
  }

  /**
   * Without an active filter and with unique labels, `m` presses of ArrowDown
   * move the highlight `m` places around the list, wrapping from the last
   * position to the first.
   */
  lemma {:induction false} ArrowDownCyclesUnfiltered(items: seq<Item>, i: int, m: nat)
    requires UniqueLabels(items) && 0 <= i < |items| && m <= |items|
    ensures PressArrowDown(items, items, Some(items[i].labelText), m) == Some(items[Wrap(i + m, |items|)].labelText)
  {
    if m == 0 {
      assert PressArrowDown(items, items, Some(items[i].labelText), 0) == Some(items[i].labelText);
    } else {
      ArrowDownCyclesUnfiltered(items, i, m - 1);
      CycleStep(items, i, m);
    }
  }

  /** The induction step of `ArrowDownCyclesUnfiltered`. */
  lemma CycleStep(items: seq<Item>, i: int, m: nat)
    requires UniqueLabels(items) && 0 <= i < |items| && 0 < m <= |items|
    requires PressArrowDown(items, items, Some(items[i].labelText), m - 1) ==
      Some(items[Wrap(i + (m - 1), |items|)].labelText)
    ensures PressArrowDown(items, items, Some(items[i].labelText), m) == Some(items[Wrap(i + m, |items|)].labelText)
  {
    var p := Wrap(i + (m - 1), |items|);
    assert 0 <= p < |items| && Wrap(p + 1, |items|) == Wrap(i + m, |items|);
    PressUnfilteredStep(items, Some(items[i].labelText), m, p);
  }

  /** Without an active filter, `|items|` presses of ArrowDown bring the highlight back where it started. */
  lemma ArrowDownFullCycle(items: seq<Item>, i: int)
    requires UniqueLabels(items) && 0 <= i < |items|
    ensures PressArrowDown(items, items, Some(items[i].labelText), |items|) == Some(items[i].labelText)
  {
    ArrowDownCyclesUnfiltered(items, i, |items|);
    assert Wrap(i + |items|, |items|) == i;
  }

  /**
   * With a filter active the start index comes from the full list, so the
   * highlight can stall: items A, B, C filtered to B, C with B highlighted
   * (position 1 of the full list) moves to filtered[(1 + 1) % 2], which is B again.
   */
  lemma ArrowDownCanStall(a: Item, b: Item, c: Item)
    requires a.labelText == "A" && b.labelText == "B" && c.labelText == "C"
    ensures KeyDownEffect([a, b, c], [b, c], Some("B"), ArrowDown) == Highlight("B")
  {
    assert IndexFrom([a, b, c], "B", 1) == 1;
    assert IndexOfLabel([a, b, c], "B") == 1;
  }

  // ----- Filter --------------------------------------------------------------

  /** `toLowerCase` on one character, for the ASCII letters. */
  function LowerChar(c: char): char {
    if 'A' <= c <= 'Z' then (c as int + 32) as char else c
  }

  /** `toUpperCase` on one character, for the ASCII letters. */
  function UpperChar(c: char): char {
    if 'a' <= c <= 'z' then (c as int - 32) as char else c
  }

  function ToLowerCase(s: string): (r: string)
    ensures |r| == |s|
  {
    seq(|s|, i requires 0 <= i < |s| => LowerChar(s[i]))
  }

  function ToUpperCase(s: string): (r: string)
    ensures |r| == |s|
  {
    seq(|s|, i requires 0 <= i < |s| => UpperChar(s[i]))
  }

  /** `t` occurs in `s` starting at position `i`. */
  predicate OccursAt(s: string, t: string, i: int) {
    0 <= i <= |s| - |t| && s[i..i + |t|] == t
  }

  /** `String.prototype.includes`: `t` occurs in `s` at some offset. */
  function Includes(s: string, t: string): (r: bool)
    ensures r <==> exists i :: OccursAt(s, t, i)
  {
    if t <= s then
      assert OccursAt(s, t, 0);
      true
    else if s == [] then false
    else
      var r := Includes(s[1..], t);
      assert !OccursAt(s, t, 0);
      assert forall i :: 1 <= i ==> (OccursAt(s, t, i) <==> OccursAt(s[1..], t, i - 1));
      assert r ==> exists i :: OccursAt(s, t, i) by {
        if r {
          var i :| OccursAt(s[1..], t, i);
          assert OccursAt(s, t, i + 1);
        }
      }
      r
  }

  /** The combobox's `filter`: case-insensitive substring match of the query in the label. */
  function Filter(data: Item, query: string): (r: bool)
    ensures r <==> exists i :: OccursAt(ToLowerCase(data.labelText), ToLowerCase(query), i)
    ensures r ==> |query| <= |data.labelText|
  {
    Includes(ToLowerCase(data.labelText), ToLowerCase(query))
  }

  /** The empty query matches every item; every item matches its own label. */
  lemma FilterMatchesEmptyAndOwnLabel(data: Item)
    ensures Filter(data, "")
    ensures Filter(data, data.labelText)
  {
    var l := ToLowerCase(data.labelText);
    assert l[0..|l|] == l;
  }

  /** Changing the case of the query's letters never changes the outcome. */
  lemma FilterIgnoresQueryCase(data: Item, query: string)
    ensures Filter(data, query) == Filter(data, ToLowerCase(query))
    ensures Filter(data, query) == Filter(data, ToUpperCase(query))
  {
    assert ToLowerCase(ToLowerCase(query)) == ToLowerCase(query);
    assert ToLowerCase(ToUpperCase(query)) == ToLowerCase(query);
  }

  /** The items "Jackhammer", "Hammer", "Sledgehammer", "Spade", "Powersaw" queried with "Hammer". */
  lemma HammerQuery(jack: Item, hammer: Item, sledge: Item, spade: Item, saw: Item)
    requires jack.labelText == "Jackhammer" && hammer.labelText == "Hammer"
    requires sledge.labelText == "Sledgehammer" && spade.labelText == "Spade"
    requires saw.labelText == "Powersaw"
    ensures Filter(jack, "Hammer") && Filter(hammer, "Hammer") && Filter(sledge, "Hammer")
    ensures !Filter(spade, "Hammer") && !Filter(saw, "Hammer")
  {
    var q := "hammer";
    ToolNamesLowered();
    OccursInMiddle("jack", q, "");
    OccursInMiddle("", q, "");
    assert "" + q + "" == q;
    OccursInMiddle("sledge", q, "");
    assert 'h' !in "powersaw";
    NotIncludedWithoutFirstChar("powersaw", q);
  }

  /** The lower-cased tool names, each written around the lower-cased query where it occurs. */
  lemma ToolNamesLowered()
    ensures ToLowerCase("Hammer") == "hammer"
    ensures ToLowerCase("Jackhammer") == "jack" + "hammer" + ""
    ensures ToLowerCase("Sledgehammer") == "sledge" + "hammer" + ""
    ensures ToLowerCase("Spade") == "spade"
    ensures ToLowerCase("Powersaw") == "powersaw"
  {
    assert ToLowerCase("Hammer") == "hammer";
    assert ToLowerCase("Jackhammer") == "jackhammer";
    assert ToLowerCase("Sledgehammer") == "sledgehammer";
  }

  /** A non-empty string whose first character does not occur in `s` is not included in `s`. */
  lemma NotIncludedWithoutFirstChar(s: string, t: string)
    requires t != [] && t[0] !in s
    ensures !Includes(s, t)
  {
  }

  lemma OccursInMiddle(a: string, t: string, b: string)
    ensures OccursAt(a + t + b, t, |a|)
  {
    assert (a + t + b)[|a|..|a| + |t|] == t;
  }

  // ----- The component state -------------------------------------------------

  class BaseCombobox {
    /** `state.items`. */
    var items: seq<Item>
    /** `state.filteredItems`, replaced by the filter input through `onFilter`. */
    var filteredItems: seq<Item>
    var showPopover: bool
    /** The highlighted label; `None` is `null`. */
    var currentSelection: Option<string>
    /** Whether the `onItemSelectionsChange` prop is given. */
    const hasSelectionObserver: bool

    /** The initial `state`: the filtered list is the full list, nothing shown, nothing highlighted. */
    constructor (propItems: seq<Item>, hasSelectionObserver: bool)
      ensures items == propItems && filteredItems == propItems
      ensures !showPopover && currentSelection == None
      ensures this.hasSelectionObserver == hasSelectionObserver
    {
      items := propItems;
      filteredItems := propItems;
      showPopover := false;
      currentSelection := None;
      this.hasSelectionObserver := hasSelectionObserver;
    }

    /**
     * `handleItemSelected(labelText, selected)`: overwrites the `selected`
     * field of the first item with that label, if any, and hands the
     * selected items of the updated list to the observer, if one is given,
     * whether or not the label was found.
     */
    method HandleItemSelected(labelText: string, selected: bool) returns (notified: Option<seq<Item>>)
      modifies items
      ensures items == old(items) && filteredItems == old(filteredItems)
      ensures showPopover == old(showPopover) && currentSelection == old(currentSelection)
      ensures Flags(items) == SelectionUpdate(items, old(Flags(items)), labelText, selected)
      ensures var k := IndexOfLabel(items, labelText);
        forall x :: x in filteredItems ==>
          x.selected == if k >= 0 && x == items[k] then selected else old(x.selected)
      ensures notified.Some? <==> hasSelectionObserver
      ensures notified.Some? ==> notified.value == Pick(items, Flags(items))
    {
      var k := IndexOfLabel(items, labelText);
      ghost var before := Flags(items);
      if k > -1 {
        items[k].selected := selected;
      }
      ghost var after := Flags(items);
      assert forall j :: 0 <= j < |items| ==>
        after[j] == if k >= 0 && items[j] == items[k] then selected else before[j];
      assert after == SelectionUpdate(items, before, labelText, selected);
      if hasSelectionObserver {
        var selectedItems := GetSelectedItems(items);
        notified := Some(selectedItems);
      } else {
        notified := None;
      }
    }

    /** The `onFilter` callback: the filter input hands over the new filtered list. */
    method SetFilteredItems(filtered: seq<Item>)
      modifies this`filteredItems
      ensures filteredItems == filtered
      ensures items == old(items) && showPopover == old(showPopover)
      ensures currentSelection == old(currentSelection)
    {
      filteredItems := filtered;
    }

    /** `setPopoverVisibility(toState)`. */
    method SetPopoverVisibility(toState: bool)
      modifies this`showPopover
      ensures showPopover == toState
      ensures items == old(items) && filteredItems == old(filteredItems)
      ensures currentSelection == old(currentSelection)
    {
      showPopover := toState;
    }

    /**
     * `handleKeyDown` on a key named `eventKey`: ArrowDown and ArrowUp move the highlight as
     * `KeyDownEffect` says, or throw on an empty filtered list; other keys
     * change nothing. Nothing but the highlight ever changes.
     */
    method HandleKeyDown(eventKey: string) returns (outcome: Outcome<KeyError>)
      modifies this`currentSelection
      ensures items == old(items) && filteredItems == old(filteredItems)
      ensures showPopover == old(showPopover)
      ensures var e := KeyDownEffect(items, filteredItems, old(currentSelection), KeyOf(eventKey));
        && (e.Highlight? ==> currentSelection == Some(e.labelText) && outcome == Pass)
        && (e.Ignore? ==> currentSelection == old(currentSelection) && outcome == Pass)
        && (e.Throw? ==> currentSelection == old(currentSelection) && outcome == Fail(e.error))
    {
      var index := if currentSelection.Some? then IndexOfLabel(items, currentSelection.value) else -1;
      var n := |filteredItems|;
      match KeyOf(eventKey) {
        case ArrowDown =>
          if n == 0 {
            outcome := Fail(TypeError);
          } else {
            var i := JsRemainder(index + 1, n);
            currentSelection := Some(filteredItems[i].labelText);
            outcome := Pass;
          }
        case ArrowUp =>
          if n == 0 {
            outcome := Fail(TypeError);
          } else {
            var i := JsRemainder(index - 1 + n, n);
            currentSelection := Some(filteredItems[i].labelText);
            outcome := Pass;
          }
        case OtherKey =>
          outcome := Pass;
      }
    }
  }
}
