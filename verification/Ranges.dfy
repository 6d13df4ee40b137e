/** Redis index ranges: inclusive, with negative indices counting from the end. */
module Ranges {
  import opened Ordering

  /** `DataStore._normalize_range`. */
  function NormalizeRange(length: nat, start: int, stop: int): (r: Option<(nat, nat)>)
    ensures r.Some? ==> r.value.0 <= r.value.1 < length
  {
    if length == 0 then None
    else
      var start := if start < 0 then start + length else start;
      var stop := if stop < 0 then stop + length else stop;
      var start := if start < 0 then 0 else start;
      if stop < 0 || start >= length then None
      else
        var stop := if stop >= length then length - 1 else stop;
        if start > stop then None else Some((start, stop))
  }

  /** Where an index points, before any clamping. */
  function Resolve(length: nat, index: int): int {
    if index < 0 then index + length else index
  }

  /** The plain reading of a range: positions between the two resolved ends. */
  ghost predicate Covers(length: nat, start: int, stop: int, i: nat) {
    i < length && Resolve(length, start) <= i <= Resolve(length, stop)
  }

  function Selected<T>(s: seq<T>, start: int, stop: int): seq<T> {
    match NormalizeRange(|s|, start, stop)
    case None => []
    case Some((first, last)) => s[first..last + 1]
  }

  function Reversed<T>(s: seq<T>): (r: seq<T>)
    ensures |r| == |s|
  {
    seq(|s|, i requires 0 <= i < |s| => s[|s| - 1 - i])
  }

  /** The elements of `s` from `start` to `stop`, both included, where an index below zero counts
  from the end, and what lies outside of `s` is left out. */
  ghost predicate Cut<T>(r: seq<T>, s: seq<T>, start: int, stop: int) {
    var lo := if start >= 0 then start else if start + |s| >= 0 then start + |s| else 0;
    var hi := if stop >= 0 then (if stop < |s| then stop else |s| - 1) else stop + |s|;
    && |r| == (if lo <= hi then hi - lo + 1 else 0)
    && forall k :: 0 <= k < |r| ==> lo + k < |s| && r[k] == s[lo + k]
  }

  lemma SelectedIsCut<T>(s: seq<T>, start: int, stop: int)
    ensures Cut(Selected(s, start, stop), s, start, stop)
  {
  }

  /** The first position a range can cover. */
  function First(length: nat, start: int): nat {
    var lo := Resolve(length, start);
    if lo < 0 then 0 else lo
  }

  /** The selection is as long as the run of covered positions ... */
  lemma SelectedIsCovered<T>(s: seq<T>, start: int, stop: int, i: nat)
    ensures Covers(|s|, start, stop, i) <==>
      First(|s|, start) <= i < First(|s|, start) + |Selected(s, start, stop)|
  {
  }

  /** ... and holds their elements in order. */
  lemma SelectedAt<T>(s: seq<T>, start: int, stop: int, k: nat)
    requires k < |Selected(s, start, stop)|
    ensures First(|s|, start) + k < |s| && Selected(s, start, stop)[k] == s[First(|s|, start) + k]
  {
    var (first, last) := NormalizeRange(|s|, start, stop).value;
    assert first == First(|s|, start);
    assert s[first..last + 1][k] == s[first + k];
  }

  /** The ascending range that a descending one turns into. */
  lemma SelectedReversed<T>(s: seq<T>, start: int, stop: int)
    ensures var range := NormalizeRange(|s|, start, stop);
      Selected(Reversed(s), start, stop) ==
        if range.None? then [] else Reversed(s[|s| - 1 - range.value.1..|s| - range.value.0])
  {
    if NormalizeRange(|s|, start, stop).Some? {
      var (first, last) := NormalizeRange(|s|, start, stop).value;
      hide NormalizeRange;
      var descending, ascending := Reversed(s)[first..last + 1], s[|s| - 1 - last..|s| - first];
      forall k | 0 <= k < |descending| ensures descending[k] == Reversed(ascending)[k] {
        assert descending[k] == Reversed(s)[first + k] == s[|s| - 1 - first - k];
      }
      assert descending == Reversed(ascending);
    }
  }

  /** The clamping that `range_entries` and `revrange_entries` write out themselves comes
  to the same range. */
  lemma NormalizeRangeSteps(length: nat, start: int, stop: int)
    ensures NormalizeRange(length, start, stop) ==
      var first := First(length, start);
      var last := if Resolve(length, stop) >= length then length - 1 else Resolve(length, stop);
      if length == 0 || first > last || first >= length then None else Some((first, last))
  {
  }

  lemma SelectedWithin<T>(s: seq<T>, first: nat, last: nat)
    requires first <= last < |s|
    ensures Selected(s, first, last) == s[first..last + 1]
  {
  }
}
