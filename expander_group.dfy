/**
 * The open-state coordinator of a group of expanders (`BaseExpanderGroup`).
 *
 * The group keeps a dictionary from a child's position to whether that
 * expander is open, built from the children's `defaultOpen` / `open` props and
 * updated one entry at a time as expanders report their changes. It also keeps
 * `toggleAllExpanderState.toState`, the state the "open all / close all"
 * button last broadcast to every expander; it is computed when the group is
 * created and then only when that button is clicked.
 */
module ExpanderGroup {
  import opened Optional

  /**
   * One entry of `props.children`: an expander element with its two optional
   * boolean props, or anything that is not a valid React element.
   */
  datatype Child = Expander(defaultOpen: Option<bool>, open: Option<bool>) | NotAnElement

  /** `child.props.defaultOpen || child.props.open || false` for a valid element. */
  function StartsOpen(child: Child): (r: bool)
    ensures r <==> child.Expander? && Some(true) in {child.defaultOpen, child.open}
  {
    child.Expander? && (child.defaultOpen == Some(true) || child.open == Some(true))
  }

  /** The caption of the "all" button: `CloseAll` when every expander is open. */
  datatype AllButton = OpenAll | CloseAll

  /**
   * `InitialStateOfExpanders(children)`: one entry per valid element, at its
   * position, telling whether it starts open.
   */
  method InitialStateOfExpanders(children: seq<Child>) returns (openExpanders: map<int, bool>)
    ensures forall i :: i in openExpanders <==> 0 <= i < |children| && children[i].Expander?
    ensures forall i :: i in openExpanders ==> openExpanders[i] == StartsOpen(children[i])
  {
    openExpanders := map[];
    var index := 0;
    while index < |children|
      invariant 0 <= index <= |children|
      invariant forall i :: i in openExpanders <==> 0 <= i < index && children[i].Expander?
      invariant forall i :: i in openExpanders ==> openExpanders[i] == StartsOpen(children[i])
    {
      var child := children[index];
      if child.Expander? {
        openExpanders := openExpanders[index := child.defaultOpen == Some(true) || child.open == Some(true)];
      }
      index := index + 1;
    }
  }

  /** The dictionary `InitialStateOfExpanders` builds, as a value. */
  function InitialOpenMap(children: seq<Child>): (m: map<int, bool>)
    ensures forall i :: i in m <==> 0 <= i < |children| && children[i].Expander?
    ensures forall i :: i in m ==> m[i] == StartsOpen(children[i])
  {
    map i | 0 <= i < |children| && children[i].Expander? :: StartsOpen(children[i])
  }

  /** The keys whose entry says open. */
  function OpenKeys(openExpanders: map<int, bool>): (r: set<int>)
    ensures forall k :: k in r <==> k in openExpanders && openExpanders[k]
  {
    set k | k in openExpanders && openExpanders[k]
  }

  /**
   * `OpenExpandersCount(expanders)`: how many entries say open. It never
   * exceeds the number of entries, and it is 0 exactly when no entry says open.
   */
  function OpenExpandersCount(openExpanders: map<int, bool>): (count: nat)
    ensures count <= |openExpanders|
    ensures count == 0 <==> forall k :: k in openExpanders ==> !openExpanders[k]
  {
    var open := OpenKeys(openExpanders);
    SubsetCard(open, openExpanders.Keys);
    OpenKeysEmpty(openExpanders);
    |open|
  }

  lemma OpenKeysEmpty(openExpanders: map<int, bool>)
    ensures OpenKeys(openExpanders) == {} <==> forall k :: k in openExpanders ==> !openExpanders[k]
  {
    if forall k :: k in openExpanders ==> !openExpanders[k] {
      assert forall k :: k !in OpenKeys(openExpanders);
    }
  }

  lemma SubsetCard(a: set<int>, b: set<int>)
    requires a <= b
    ensures |a| <= |b|
    ensures |a| == |b| ==> a == b
  {
    assert b == a + (b - a);
    assert |b| == |a| + |b - a|;
    if |a| == |b| {
      assert b - a == {};
    }
  }

  /** The positions `0 .. n-1` of `n` children. */
  function Positions(n: nat): (r: set<int>)
    ensures forall i :: i in r <==> 0 <= i < n
    ensures |r| == n
  {
    if n == 0 then {} else Positions(n - 1) + {n - 1}
  }

  /**
   * For a dictionary whose keys are positions of the `n` children, the open
   * count is at most `n`, and it equals `n` exactly when every position has
   * an entry saying open.
   */
  lemma {:induction false} CountAgainstChildren(openExpanders: map<int, bool>, n: nat)
    requires forall k :: k in openExpanders ==> 0 <= k < n
    ensures OpenExpandersCount(openExpanders) <= n
    ensures OpenExpandersCount(openExpanders) == n <==>
      forall i :: 0 <= i < n ==> i in openExpanders && openExpanders[i]
  {
    var open := OpenKeys(openExpanders);
    var all := Positions(n);
    assert open <= all;
    SubsetCard(open, all);
    assert OpenExpandersCount(openExpanders) == |open|;
    if |open| == n {
      forall i | 0 <= i < n
        ensures i in openExpanders && openExpanders[i]
      {
        assert i in all;
      }
    }
    if forall i :: 0 <= i < n ==> i in openExpanders && openExpanders[i] {
      assert all <= open;
      assert open == all;
    }
  }

  /**
   * The open count after setting entry `index` to `newState`: the old entry's
   * contribution is replaced by that of the new one.
   */
  lemma OpenCountAfterUpdate(openExpanders: map<int, bool>, index: int, newState: bool)
    ensures OpenExpandersCount(openExpanders[index := newState]) ==
      OpenExpandersCount(openExpanders)
      - (if index in openExpanders && openExpanders[index] then 1 else 0)
      + (if newState then 1 else 0)
  {
    var before := OpenKeys(openExpanders);
    var after := OpenKeys(openExpanders[index := newState]);
    var rest := before - {index};
    assert after == if newState then rest + {index} else rest;
    if index in before {
      assert before == rest + {index};
    } else {
      assert before == rest;
    }
  }

  /**
   * The initial `toggleAllExpanderState.toState` is true exactly when the group
   * has a child and every child is an expander that starts open.
   */
  lemma InitialToState(children: seq<Child>)
    ensures (OpenExpandersCount(InitialOpenMap(children)) == |children| && |children| > 0) <==>
      (|children| > 0 && forall i :: 0 <= i < |children| ==> StartsOpen(children[i]))
  {
    var m := InitialOpenMap(children);
    CountAgainstChildren(m, |children|);
    if forall i :: 0 <= i < |children| ==> StartsOpen(children[i]) {
      assert forall i :: 0 <= i < |children| ==> i in m && m[i];
    }
  }

  class BaseExpanderGroup {
    /** `props.children`. */
    const children: seq<Child>
    /** `state.openExpanders`. */
    var openExpanders: map<int, bool>
    /** `state.toggleAllExpanderState.toState`. */
    var toState: bool

    /** Every entry belongs to a child position. */
    predicate Valid()
      reads this
    {
      forall k :: k in openExpanders ==> 0 <= k < |children|
    }

    /**
     * The initial `state`: the dictionary of starting states, and `toState`
     * true when every one of at least one child starts open.
     */
    constructor (children: seq<Child>)
      ensures this.children == children
      ensures openExpanders == InitialOpenMap(children)
      ensures toState <==> |children| > 0 && forall i :: 0 <= i < |children| ==> StartsOpen(children[i])
      ensures Valid()
    {
      this.children := children;
      var initial := InitialStateOfExpanders(children);
      assert initial == InitialOpenMap(children);
      openExpanders := initial;
      InitialToState(children);
      toState := OpenExpandersCount(initial) == |children| && |children| > 0;
    }

    /** Whether the entry of position `i` says open. */
    predicate IsOpen(i: int)
      reads this
    {
      i in openExpanders && openExpanders[i]
    }

    /**
     * `handleExpanderOpenChange(index, newState)`: an expander reports its new
     * state; only its own entry changes, and `toState` is not recomputed.
     */
    method HandleExpanderOpenChange(index: int, newState: bool)
      modifies this`openExpanders
      ensures openExpanders == old(openExpanders)[index := newState]
      ensures forall k :: k != index ==> (k in openExpanders <==> k in old(openExpanders))
      ensures forall k :: k != index && k in openExpanders ==> openExpanders[k] == old(openExpanders)[k]
      ensures toState == old(toState)
      ensures old(Valid()) && 0 <= index < |children| ==> Valid()
    {
      var updated := openExpanders;
      updated := updated[index := newState];
      openExpanders := updated;
    }

    /**
     * `allExpandersOpen()`: despite its name, true when fewer expanders are
     * open than there are children, that is, when some expander is closed.
     */
    function AllExpandersOpen(): (someClosed: bool)
      reads this
      ensures Valid() ==> (someClosed <==> exists i :: 0 <= i < |children| && !IsOpen(i))
    {
      var result := |children| > OpenExpandersCount(openExpanders);
      if Valid() then
        CountAgainstChildren(openExpanders, |children|);
        assert forall i :: IsOpen(i) <==> i in openExpanders && openExpanders[i];
        result
      else result
    }

    /**
     * `handleAllToggleClick()`: broadcast "open all" when some expander is
     * closed and "close all" when all are open, which is what the button's
     * caption offered; the dictionary is left as it is.
     */
    method HandleAllToggleClick()
      modifies this`toState
      ensures toState == AllExpandersOpen()
      ensures openExpanders == old(openExpanders)
      ensures Valid() ==> (toState <==> Caption() == OpenAll)
    {
      toState := AllExpandersOpen();
      if Valid() {
        CountAgainstChildren(openExpanders, |children|);
      }
    }

    /** `allOpen ? CloseAll : OpenAll` in `render`: `CloseAll` exactly when every child is open. */
    function Caption(): (caption: AllButton)
      reads this
      ensures Valid() ==> (caption == CloseAll <==> forall i :: 0 <= i < |children| ==> IsOpen(i))
    {
      var allOpen := OpenExpandersCount(openExpanders) == |children|;
      if Valid() then
        CountAgainstChildren(openExpanders, |children|);
        assert forall i :: IsOpen(i) <==> i in openExpanders && openExpanders[i];
        if allOpen then CloseAll else OpenAll
      else if allOpen then CloseAll else OpenAll
    }

    /** Whether the group carries the open class in `render`: some entry says open. */
    function HasOpenClass(): (hasOpen: bool)
      reads this
      ensures hasOpen <==> exists k :: k in openExpanders && openExpanders[k]
    {
      OpenExpandersCount(openExpanders) > 0
    }
  }
}
