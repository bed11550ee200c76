/** `Array.prototype.myIncludes(searchElement, fromIndex)`. */
module Includes {
  import opened Js

  /** The start index the source computes: `fromIndex || 0`, and a negative
      value counted back from the end of the array, clamped at 0. */
  function StartIndex(length: nat, fromIndex: Option<int>): (s: int)
    // never negative
    ensures s >= 0
    // an omitted or zero (falsy) fromIndex starts at the front
    ensures fromIndex == None || fromIndex == Some(0) ==> s == 0
    // a positive fromIndex is used as it is, even past the end
    ensures fromIndex.Some? && fromIndex.value > 0 ==> s == fromIndex.value
    // a negative fromIndex -k starts k elements before the end, or at 0 if that is before the front
    ensures fromIndex.Some? && fromIndex.value < 0 ==>
              s <= length && (s == 0 || length - s == -fromIndex.value) &&
              (s == 0 <==> length <= -fromIndex.value)
  {
    var startIndex := if fromIndex.Some? && fromIndex.value != 0 then fromIndex.value else 0;
    if startIndex < 0 then
      if length + startIndex < 0 then 0 else length + startIndex
    else startIndex
  }

  /** Some element at index `start` or later is `=== searchElement`. */
  predicate FoundFrom(a: seq<Value>, searchElement: Value, start: int)
  {
    exists i :: start <= i < |a| && 0 <= i && StrictEquals(a[i], searchElement)
  }

  /** The source as written: `startIndex` is computed, but the loop starts at 0. */
  method MyIncludes(a: seq<Value>, searchElement: Value, fromIndex: Option<int>) returns (found: bool)
    // true exactly when some element is `=== searchElement`, whatever fromIndex is
    ensures found <==> exists i :: 0 <= i < |a| && StrictEquals(a[i], searchElement)
    ensures found == FoundFrom(a, searchElement, 0)
    ensures |a| == 0 ==> !found
  {
    var startIndex := StartIndex(|a|, fromIndex);
    var index := 0;
    while index < |a|
      invariant 0 <= index <= |a|
      invariant forall j :: 0 <= j < index ==> !StrictEquals(a[j], searchElement)
    {
      if StrictEquals(a[index], searchElement) {
        return true;
      }
      index := index + 1;
    }
    return false;
  }

  /** The search the start-index computation is evidently meant for: the loop
      starts at `startIndex`. */
  method MyIncludesFromIndex(a: seq<Value>, searchElement: Value, fromIndex: Option<int>) returns (found: bool)
    ensures found <==> exists i :: StartIndex(|a|, fromIndex) <= i < |a| && StrictEquals(a[i], searchElement)
    ensures found == FoundFrom(a, searchElement, StartIndex(|a|, fromIndex))
    ensures StartIndex(|a|, fromIndex) >= |a| ==> !found
  {
    var startIndex := StartIndex(|a|, fromIndex);
    var index := startIndex;
    while index < |a|
      invariant startIndex <= index
      invariant forall j :: startIndex <= j < index && j < |a| ==> !StrictEquals(a[j], searchElement)
    {
      if StrictEquals(a[index], searchElement) {
        return true;
      }
      index := index + 1;
    }
    return false;
  }

  /** As written, `[1, 2, 3].myIncludes(1, 1)` is true although 1 occurs only
      before the start index 1. */
  lemma LemmaFromIndexIgnored()
    ensures FoundFrom([Num(1), Num(2), Num(3)], Num(1), 0)
    ensures StartIndex(3, Some(1)) == 1
    ensures !FoundFrom([Num(1), Num(2), Num(3)], Num(1), StartIndex(3, Some(1)))
  {
    assert StrictEquals([Num(1), Num(2), Num(3)][0], Num(1));
  }

  /** The demonstration calls: `[1..5]` includes 3 but not 6; the fruits include
      'banana' and 'mango' but not 'grape'. */
  lemma LemmaDemoCalls()
    ensures FoundFrom([Num(1), Num(2), Num(3), Num(4), Num(5)], Num(3), 0)
    ensures !FoundFrom([Num(1), Num(2), Num(3), Num(4), Num(5)], Num(6), 0)
    ensures FoundFrom([Str("apple"), Str("banana"), Str("mango")], Str("banana"), 0)
    ensures !FoundFrom([Str("apple"), Str("banana"), Str("mango")], Str("grape"), 0)
    ensures FoundFrom([Str("apple"), Str("banana"), Str("mango")], Str("mango"), 0)
  {
    assert StrictEquals([Num(1), Num(2), Num(3), Num(4), Num(5)][2], Num(3));
    assert StrictEquals([Str("apple"), Str("banana"), Str("mango")][1], Str("banana"));
    assert StrictEquals([Str("apple"), Str("banana"), Str("mango")][2], Str("mango"));
  }
}
