/**
 * The `aria-describedby` helper of the component library (`getAriaDescribedByProp`).
 *
 * The helper receives a list of element ids, each of which may be `undefined`,
 * keeps the truthy ones (defined and non-empty), joins them with one space,
 * trims the result with JavaScript's `String.prototype.trim`, and returns an
 * object `{ 'aria-describedby': value }` that a component spreads into its
 * props; when no id is truthy it returns the empty object `{}`.
 *
 * The object is modelled as a `map<string, string>` from attribute name to
 * value, `undefined` as `None`.
 */
module Aria {
  import opened Optional

  /** The one attribute name the helper can produce. */
  const DescribedByKey: string := "aria-describedby"

  /** `!!id` for a `string | undefined`: defined and not the empty string. */
  function Truthy(id: Option<string>): (r: bool)
    ensures r <==> id.Some? && |id.value| >= 1
  {
    id.Some? && id.value != ""
  }

  /** `describedByIds.filter((id) => !!id)`: the truthy ids, in their order. */
  function Existing(ids: seq<Option<string>>): (r: seq<string>)
    ensures |r| <= |ids|
    ensures forall s :: s in r ==> s != ""
    ensures r == [] <==> forall i :: 0 <= i < |ids| ==> !Truthy(ids[i])
    ensures forall s :: s in r <==> IsTruthyId(ids, s)
  {
    if ids == [] then []
    else
      var rest := Existing(ids[1..]);
      forall s ensures IsTruthyId(ids, s) <==> (Truthy(ids[0]) && ids[0].value == s) || IsTruthyId(ids[1..], s) {
        if IsTruthyId(ids, s) {
          var i :| 0 <= i < |ids| && Truthy(ids[i]) && ids[i].value == s;
          if i > 0 {
            assert ids[1..][i - 1] == ids[i];
          }
        }
        if IsTruthyId(ids[1..], s) {
          var i :| 0 <= i < |ids[1..]| && Truthy(ids[1..][i]) && ids[1..][i].value == s;
          assert ids[i + 1] == ids[1..][i];
        }
      }
      (if Truthy(ids[0]) then [ids[0].value] else []) + rest
  }

  /** Some id of `ids` is truthy and equal to `s`. */
  predicate IsTruthyId(ids: seq<Option<string>>, s: string) {
    exists i :: 0 <= i < |ids| && Truthy(ids[i]) && ids[i].value == s
  }

  /** `Array.prototype.join(sep)` on strings: `[]` joins to `""`. */
  function Join(xs: seq<string>, sep: string): (r: string)
    ensures xs != [] ==> xs[0] <= r
    ensures |r| == TotalLength(xs) + if xs == [] then 0 else (|xs| - 1) * |sep|
  {
    if xs == [] then ""
    else if |xs| == 1 then xs[0]
    else xs[0] + sep + Join(xs[1..], sep)
  }

  /** The number of characters in all of `xs` together. */
  function TotalLength(xs: seq<string>): nat {
    if xs == [] then 0 else |xs[0]| + TotalLength(xs[1..])
  }

  /**
   * The characters `String.prototype.trim` removes: the ECMAScript
   * WhiteSpace code points (tab, vertical tab, form feed, the byte order mark
   * and every space separator of category Zs) and the LineTerminator code points.
   */
  predicate IsWhitespace(c: char) {
    c == '\U{0009}' || c == '\U{000B}' || c == '\U{000C}' || c == '\U{FEFF}' ||
    c == '\U{0020}' || c == '\U{00A0}' || c == '\U{1680}' ||
    ('\U{2000}' <= c <= '\U{200A}') || c == '\U{202F}' || c == '\U{205F}' || c == '\U{3000}' ||
    c == '\U{000A}' || c == '\U{000D}' || c == '\U{2028}' || c == '\U{2029}'
  }

  /** The end of the whitespace run of `s` that starts at `i`. */
  function LeadEnd(s: string, i: nat): (j: nat)
    requires i <= |s|
    ensures i <= j <= |s|
    ensures forall k :: i <= k < j ==> IsWhitespace(s[k])
    ensures j == |s| || !IsWhitespace(s[j])
    decreases |s| - i
  {
    if i < |s| && IsWhitespace(s[i]) then LeadEnd(s, i + 1) else i
  }

  /** The start of the whitespace run of `s` that ends at `j`, not going below `lo`. */
  function TrailStart(s: string, lo: nat, j: nat): (i: nat)
    requires lo <= j <= |s|
    ensures lo <= i <= j
    ensures forall k :: i <= k < j ==> IsWhitespace(s[k])
    ensures i == lo || !IsWhitespace(s[i - 1])
  {
    if j > lo && IsWhitespace(s[j - 1]) then TrailStart(s, lo, j - 1) else j
  }

  /**
   * `String.prototype.trim`: the result is the slice of `s` that starts at the
   * first and ends at the last non-whitespace character; everything cut off
   * on either side is whitespace.
   */
  function Trim(s: string): (r: string)
    ensures var lead := LeadEnd(s, 0);
      && lead + |r| <= |s|
      && r == s[lead..lead + |r|]
      && (forall k :: 0 <= k < lead ==> IsWhitespace(s[k]))
      && (forall k :: lead + |r| <= k < |s| ==> IsWhitespace(s[k]))
    ensures r == [] || (!IsWhitespace(r[0]) && !IsWhitespace(r[|r| - 1]))
  {
    var lead := LeadEnd(s, 0);
    var stop := TrailStart(s, lead, |s|);
    assert stop == lead || lead == |s| || !IsWhitespace(s[stop - 1]);
    s[lead..stop]
  }

  /** `getAriaDescribedByProp(describedByIds)`. */
  function GetAriaDescribedByProp(ids: seq<Option<string>>): (props: map<string, string>)
    ensures props.Keys <= {DescribedByKey}
    ensures DescribedByKey in props <==> exists i :: 0 <= i < |ids| && Truthy(ids[i])
    ensures DescribedByKey in props ==> props[DescribedByKey] == Trim(Join(Existing(ids), " "))
    ensures (forall i :: 0 <= i < |ids| ==> !Truthy(ids[i])) ==> props == map[]
  {
    var existing := Existing(ids);
    if |existing| > 0 then map[DescribedByKey := Trim(Join(existing, " "))] else map[]
  }

  /** Filtering truthy ids keeps their relative order: it distributes over concatenation. */
  lemma {:induction false} ExistingAppend(a: seq<Option<string>>, b: seq<Option<string>>)
    ensures Existing(a + b) == Existing(a) + Existing(b)
  {
    if a == [] {
      assert a + b == b;
    } else {
      var head := if Truthy(a[0]) then [a[0].value] else [];
      assert (a + b)[0] == a[0];
      assert (a + b)[1..] == a[1..] + b;
      ExistingAppend(a[1..], b);
      assert Existing(a + b) == head + Existing(a[1..] + b);
      assert Existing(a) == head + Existing(a[1..]);
      var x, y := Existing(a[1..]), Existing(b);
      assert head + (x + y) == (head + x) + y;
    }
  }

  /**
   * An `undefined` or empty id anywhere in the list changes nothing in the
   * result: it contributes neither a token nor a separator.
   */
  lemma FalsyIdIgnored(a: seq<Option<string>>, x: Option<string>, b: seq<Option<string>>)
    requires !Truthy(x)
    ensures GetAriaDescribedByProp(a + [x] + b) == GetAriaDescribedByProp(a + b)
  {
    ExistingAppend(a + [x], b);
    ExistingAppend(a, [x]);
    ExistingAppend(a, b);
    assert Existing([x]) == [] by {
      assert [x][1..] == [];
    }
    assert Existing(a + [x] + b) == Existing(a + b);
  }

  /** Splits a string at each space character, keeping empty fields. */
  function SplitOnSpace(s: string): (parts: seq<string>)
    ensures |parts| >= 1
  {
    if s == [] then [""]
    else if s[0] == ' ' then [""] + SplitOnSpace(s[1..])
    else var rest := SplitOnSpace(s[1..]); [[s[0]] + rest[0]] + rest[1..]
  }

  /** An id with no whitespace inside it. */
  predicate IsToken(s: string) {
    forall k :: 0 <= k < |s| ==> !IsWhitespace(s[k])
  }

  lemma {:induction false} SplitToken(x: string, rest: string)
    requires IsToken(x)
    ensures SplitOnSpace(x + " " + rest) == [x] + SplitOnSpace(rest)
  {
    if x == [] {
      assert x + " " + rest == " " + rest;
      assert (" " + rest)[1..] == rest;
    } else {
      assert (x + " " + rest)[1..] == x[1..] + " " + rest;
      SplitToken(x[1..], rest);
      assert [x[0]] + x[1..] == x;
    }
  }

  lemma {:induction false} SplitSingle(x: string)
    requires IsToken(x)
    ensures SplitOnSpace(x) == [x]
  {
    if x != [] {
      SplitSingle(x[1..]);
      assert [x[0]] + x[1..] == x;
    }
  }

  lemma {:induction false} SplitJoin(xs: seq<string>)
    requires xs != []
    requires forall s :: s in xs ==> IsToken(s)
    ensures SplitOnSpace(Join(xs, " ")) == xs
  {
    if |xs| == 1 {
      SplitSingle(xs[0]);
    } else {
      SplitToken(xs[0], Join(xs[1..], " "));
      SplitJoin(xs[1..]);
    }
  }

  /** A join of non-empty tokens neither starts nor ends with whitespace. */
  lemma {:induction false} JoinEnds(xs: seq<string>)
    requires xs != []
    requires forall s :: s in xs ==> s != "" && IsToken(s)
    ensures var j := Join(xs, " ");
      j != [] && !IsWhitespace(j[0]) && !IsWhitespace(j[|j| - 1])
  {
    assert xs[0] in xs;
    if |xs| > 1 {
      assert forall s :: s in xs[1..] ==> s in xs;
      JoinEnds(xs[1..]);
      var j := Join(xs, " ");
      var tail := Join(xs[1..], " ");
      assert j == xs[0] + " " + tail;
      assert j[0] == xs[0][0];
      assert j[|j| - 1] == tail[|tail| - 1];
    }
  }

  /** Trimming leaves a string that already has no surrounding whitespace unchanged. */
  lemma TrimUnchanged(s: string)
    requires s != [] && !IsWhitespace(s[0]) && !IsWhitespace(s[|s| - 1])
    ensures Trim(s) == s
  {
  }

  /**
   * When every id is a whitespace-free token, the attribute value lists
   * exactly the truthy ids, in order, one per space-separated field: no
   * field is empty, so no double space comes from an empty or missing id.
   */
  lemma DescribedByRoundTrip(ids: seq<Option<string>>)
    requires forall i :: 0 <= i < |ids| && ids[i].Some? ==> IsToken(ids[i].value)
    ensures var props := GetAriaDescribedByProp(ids);
      DescribedByKey in props ==>
        && props[DescribedByKey] == Join(Existing(ids), " ")
        && SplitOnSpace(props[DescribedByKey]) == Existing(ids)
        && "" !in SplitOnSpace(props[DescribedByKey])
  {
    var existing := Existing(ids);
    if existing != [] {
      ExistingTokens(ids);
      JoinEnds(existing);
      TrimUnchanged(Join(existing, " "));
      SplitJoin(existing);
    }
  }

  lemma {:induction false} ExistingTokens(ids: seq<Option<string>>)
    requires forall i :: 0 <= i < |ids| && ids[i].Some? ==> IsToken(ids[i].value)
    ensures forall s :: s in Existing(ids) ==> IsToken(s)
  {
    if ids != [] {
      ExistingTokens(ids[1..]);
    }
  }
}
