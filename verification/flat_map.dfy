/** `Array.prototype.myFlat(depth = 1)` and its inner `flatten(arr, currentDepth)`. */
module FlatMap {
  import opened Js

  /** A JavaScript value as far as flattening can see it: an array of items,
      or anything else (a leaf). */
  datatype Item = Leaf(v: Value) | Nested(items: seq<Item>)

  /** A flattening depth. `Inf` is `Infinity`, for which `Infinity - 1 == Infinity`. */
  datatype Depth = Fin(n: int) | Inf

  /** `currentDepth - 1` */
  function Pred(d: Depth): Depth
  {
    match d
    case Fin(n) => Fin(n - 1)
    case Inf => Inf
  }

  /** `result.concat(x)` with one argument: an array argument is spread one level,
      anything else is appended as a single element. */
  function Concat(result: seq<Item>, x: Item): (r: seq<Item>)
    // the accumulated elements stay in front, and x's leaves follow theirs
    ensures |result| <= |r| && r[..|result|] == result
    ensures LeavesOf(r) == LeavesOf(result) + Leaves(x)
  {
    match x
    case Nested(xs) =>
      LemmaLeavesOfAppend(result, xs);
      result + xs
    case Leaf(_) =>
      LemmaLeavesOfAppend(result, [x]);
      result + [x]
  }

  /** The inner `flatten(arr, currentDepth)`: depth 0 or a non-array comes back
      as it is; otherwise the elements are folded with `reduce`, starting from `[]`. */
  function Flatten(arr: Item, currentDepth: Depth): (r: Item)
    ensures r.Nested? <==> arr.Nested?
    decreases arr, 1
  {
    if currentDepth == Fin(0) || arr.Leaf? then arr
    else Nested(Reduce(arr, 0, [], currentDepth))
  }

  /** `arr.reduce(..., [])` from element `i` on, with the accumulated `result`. */
  function Reduce(arr: Item, i: nat, result: seq<Item>, currentDepth: Depth): seq<Item>
    requires arr.Nested? && i <= |arr.items|
    decreases arr, 0, |arr.items| - i
  {
    if i == |arr.items| then result
    else
      var currentElement := arr.items[i];
      var next :=
        if currentElement.Nested? then Concat(result, Flatten(currentElement, Pred(currentDepth)))
        else Concat(result, currentElement);
      Reduce(arr, i + 1, next, currentDepth)
  }

  /** `receiver.myFlat(depth)`; an omitted depth is 1. */
  function MyFlat(receiver: Item, depth: Option<Depth>): (r: Item)
    // an omitted depth behaves as depth 1
    ensures depth == None ==> r == Flatten(receiver, Fin(1))
    // depth 0, or a receiver that is not an array, comes back unchanged
    ensures depth == Some(Fin(0)) || receiver.Leaf? ==> r == receiver
    // an array stays an array, and its leaves keep their order and number
    ensures r.Nested? <==> receiver.Nested?
    ensures Leaves(r) == Leaves(receiver)
    // each level of depth removes one level of nesting, down to a flat array
    ensures receiver.Nested? && depth.Some? && depth.value.Fin? && depth.value.n >= 0 ==>
              Height(r) == Max(Height(receiver) - depth.value.n, 1)
    // Infinity (or a negative depth) flattens completely
    ensures receiver.Nested? && depth.Some? && Unbounded(depth.value) ==>
              r.items == AsItems(Leaves(receiver))
  {
    var d := depth.GetOr(Fin(1));
    LemmaFlattenFacts(receiver, d);
    Flatten(receiver, d)
  }

  // ---------------------------------------------------------------------------
  // Reference definitions

  /** The non-array leaves of a value, left to right. */
  function Leaves(x: Item): seq<Value>
    decreases x, 1
  {
    match x
    case Leaf(v) => [v]
    case Nested(xs) => LeavesOf(xs)
  }

  function LeavesOf(xs: seq<Item>): seq<Value>
    decreases xs, 0
  {
    if xs == [] then [] else Leaves(xs[0]) + LeavesOf(xs[1..])
  }

  /** Nesting height: a leaf is 0, an array one more than its highest element. */
  function Height(x: Item): nat
    decreases x, 1
  {
    match x
    case Leaf(_) => 0
    case Nested(xs) => 1 + MaxHeight(xs)
  }

  function MaxHeight(xs: seq<Item>): nat
    decreases xs, 0
  {
    if xs == [] then 0
    else
      var h := Height(xs[0]);
      var t := MaxHeight(xs[1..]);
      if h < t then t else h
  }

  /** What one element contributes to the output at depth `d` (not 0):
      a leaf itself, an array its elements flattened one level less deep. */
  function Piece(e: Item, d: Depth): seq<Item>
  {
    match e
    case Leaf(_) => [e]
    case Nested(_) => Flatten(e, Pred(d)).items
  }

  /** The elements' pieces, concatenated in order. */
  function Splice(xs: seq<Item>, d: Depth): seq<Item>
  {
    if xs == [] then [] else Piece(xs[0], d) + Splice(xs[1..], d)
  }

  predicate AllLeaves(xs: seq<Item>)
  {
    forall i :: 0 <= i < |xs| ==> xs[i].Leaf?
  }

  /** A depth that `=== 0` never matches once decremented: Infinity, or a negative count. */
  predicate Unbounded(d: Depth)
  {
    d.Inf? || d.n < 0
  }

  function Max(a: int, b: int): int
  {
    if a < b then b else a
  }

  /** Each value as a leaf item: the shape of a completely flat array. */
  function AsItems(vs: seq<Value>): (r: seq<Item>)
    ensures |r| == |vs| && AllLeaves(r)
    ensures forall i :: 0 <= i < |vs| ==> r[i] == Leaf(vs[i])
  {
    seq(|vs|, i requires 0 <= i < |vs| => Leaf(vs[i]))
  }

  // ---------------------------------------------------------------------------
  // Lemmas

  /** The `reduce` fold is the left-to-right concatenation of the elements' pieces. */
  lemma {:induction false} LemmaReduceSplice(arr: Item, i: nat, result: seq<Item>, d: Depth)
    requires arr.Nested? && i <= |arr.items|
    ensures Reduce(arr, i, result, d) == result + Splice(arr.items[i..], d)
    decreases |arr.items| - i
  {
    if i == |arr.items| {
      assert arr.items[i..] == [];
    } else {
      var e := arr.items[i];
      var next := if e.Nested? then Concat(result, Flatten(e, Pred(d))) else Concat(result, e);
      assert next == result + Piece(e, d);
      LemmaReduceSplice(arr, i + 1, next, d);
      assert arr.items[i..][1..] == arr.items[i + 1..];
    }
  }

  /** With a depth other than 0, every element of an array is spliced into the
      output: a leaf as itself, an array after flattening it one level less deep. */
  lemma LemmaFlattenSplices(arr: Item, d: Depth)
    requires arr.Nested? && d != Fin(0)
    ensures Flatten(arr, d) == Nested(Splice(arr.items, d))
  {
    LemmaReduceSplice(arr, 0, [], d);
    assert arr.items[0..] == arr.items;
  }

  lemma {:induction false} LemmaLeavesOfAppend(a: seq<Item>, b: seq<Item>)
    ensures LeavesOf(a + b) == LeavesOf(a) + LeavesOf(b)
  {
    if a == [] {
      assert a + b == b;
    } else {
      assert (a + b)[1..] == a[1..] + b;
      LemmaLeavesOfAppend(a[1..], b);
    }
  }

  lemma {:induction false} LemmaMaxHeightAppend(a: seq<Item>, b: seq<Item>)
    ensures MaxHeight(a + b) == Max(MaxHeight(a), MaxHeight(b))
  {
    if a == [] {
      assert a + b == b;
    } else {
      assert (a + b)[1..] == a[1..] + b;
      LemmaMaxHeightAppend(a[1..], b);
    }
  }

  /** Flattening keeps every leaf, in order, at any depth. */
  lemma {:induction false} LemmaFlattenLeaves(x: Item, d: Depth)
    ensures Leaves(Flatten(x, d)) == Leaves(x)
    decreases x, 1
  {
    if d != Fin(0) && x.Nested? {
      LemmaFlattenSplices(x, d);
      LemmaSpliceLeaves(x, x.items, d);
    }
  }

  lemma {:induction false} LemmaSpliceLeaves(parent: Item, xs: seq<Item>, d: Depth)
    requires forall i :: 0 <= i < |xs| ==> xs[i] < parent
    ensures LeavesOf(Splice(xs, d)) == LeavesOf(xs)
    decreases parent, 0, |xs|
  {
    if xs != [] {
      var e := xs[0];
      LemmaLeavesOfAppend(Piece(e, d), Splice(xs[1..], d));
      LemmaSpliceLeaves(parent, xs[1..], d);
      match e
      case Leaf(v) =>
        assert LeavesOf(Piece(e, d)) == [v];
      case Nested(_) =>
        LemmaFlattenLeaves(e, Pred(d));
    }
  }

  /** Flattening an array at depth n >= 0 removes n levels of nesting, but never
      the outermost array. */
  lemma {:induction false} LemmaFlattenHeight(x: Item, n: int)
    requires x.Nested? && n >= 0
    ensures Height(Flatten(x, Fin(n))) == Max(Height(x) - n, 1)
    decreases x, 1
  {
    if n != 0 {
      LemmaFlattenSplices(x, Fin(n));
      LemmaSpliceHeight(x, x.items, n);
    }
  }

  lemma {:induction false} LemmaSpliceHeight(parent: Item, xs: seq<Item>, n: int)
    requires forall i :: 0 <= i < |xs| ==> xs[i] < parent
    requires n >= 1
    ensures MaxHeight(Splice(xs, Fin(n))) == Max(MaxHeight(xs) - n, 0)
    decreases parent, 0, |xs|
  {
    if xs != [] {
      var e := xs[0];
      LemmaMaxHeightAppend(Piece(e, Fin(n)), Splice(xs[1..], Fin(n)));
      LemmaSpliceHeight(parent, xs[1..], n);
      match e
      case Leaf(v) =>
        assert MaxHeight(Piece(e, Fin(n))) == 0;
      case Nested(ys) =>
        LemmaFlattenHeight(e, n - 1);
        assert Height(Flatten(e, Fin(n - 1))) == 1 + MaxHeight(Piece(e, Fin(n)));
    }
  }

  /** An array holding only leaves is determined by its leaves. */
  lemma {:induction false} LemmaAllLeavesAsItems(xs: seq<Item>)
    requires AllLeaves(xs)
    ensures xs == AsItems(LeavesOf(xs))
  {
    if xs != [] {
      LemmaAllLeavesAsItems(xs[1..]);
      assert xs == [xs[0]] + xs[1..];
    }
  }

  /** An unbounded depth leaves no array inside the result. */
  lemma {:induction false} LemmaSpliceUnbounded(parent: Item, xs: seq<Item>, d: Depth)
    requires forall i :: 0 <= i < |xs| ==> xs[i] < parent
    requires Unbounded(d)
    ensures AllLeaves(Splice(xs, d))
    decreases parent, |xs|
  {
    if xs != [] {
      var e := xs[0];
      LemmaSpliceUnbounded(parent, xs[1..], d);
      match e
      case Leaf(_) =>
      case Nested(ys) =>
        LemmaFlattenSplices(e, Pred(d));
        LemmaSpliceUnbounded(e, ys, Pred(d));
    }
  }

  /** Infinity, or a negative depth that `=== 0` never matches, flattens an
      array into exactly its leaves, in order. */
  lemma LemmaFlattenUnbounded(x: Item, d: Depth)
    requires x.Nested? && Unbounded(d)
    ensures Flatten(x, d).items == AsItems(Leaves(x))
  {
    LemmaFlattenSplices(x, d);
    LemmaSpliceUnbounded(x, x.items, d);
    LemmaFlattenLeaves(x, d);
    LemmaAllLeavesAsItems(Flatten(x, d).items);
  }

  lemma LemmaFlattenFacts(x: Item, d: Depth)
    ensures Leaves(Flatten(x, d)) == Leaves(x)
    ensures x.Nested? && d.Fin? && d.n >= 0 ==> Height(Flatten(x, d)) == Max(Height(x) - d.n, 1)
    ensures x.Nested? && Unbounded(d) ==> Flatten(x, d).items == AsItems(Leaves(x))
  {
    LemmaFlattenLeaves(x, d);
    if x.Nested? && d.Fin? && d.n >= 0 {
      LemmaFlattenHeight(x, d.n);
    }
    if x.Nested? && Unbounded(d) {
      LemmaFlattenUnbounded(x, d);
    }
  }

  /** An array is flat exactly when its height is 1, so a depth at least the
      nesting depth (height - 1) flattens completely. */
  lemma {:induction false} LemmaHeightOneFlat(xs: seq<Item>)
    ensures MaxHeight(xs) == 0 <==> AllLeaves(xs)
  {
    if xs != [] {
      LemmaHeightOneFlat(xs[1..]);
      assert forall i :: 1 <= i < |xs| ==> xs[1..][i - 1] == xs[i];
    }
  }

  lemma LemmaDeepEnoughIsFlat(x: Item, n: int)
    requires x.Nested? && n >= Height(x) - 1 && n >= 0
    ensures AllLeaves(Flatten(x, Fin(n)).items)
  {
    LemmaFlattenHeight(x, n);
    LemmaHeightOneFlat(Flatten(x, Fin(n)).items);
  }

  // ---------------------------------------------------------------------------
  // The demonstration array `[1, [2, 3, 5], [3, [3, 5, 3]]]`

  function N(n: int): Item
  {
    Leaf(Num(n))
  }

  function DemoArray(): Item
  {
    Nested([N(1), Nested([N(2), N(3), N(5)]), Nested([N(3), Nested([N(3), N(5), N(3)])])])
  }

  /** Depth 1, given or defaulted, splices one level: `[1, 2, 3, 5, 3, [3, 5, 3]]`. */
  /** A negative depth flattens completely: `[1, [2]].myFlat(-1)` is `[1, 2]`,
      where the built-in `flat(-1)` would treat the depth as 0. */
  lemma LemmaNegativeDepthFlattens()
    ensures MyFlat(Nested([N(1), Nested([N(2)])]), Some(Fin(-1))) == Nested([N(1), N(2)])
  {
    LemmaFlattenUnbounded(Nested([N(1), Nested([N(2)])]), Fin(-1));
    assert Leaves(Nested([N(1), Nested([N(2)])])) == [Num(1), Num(2)];
  }

  lemma LemmaDemoDepthOne()
    ensures MyFlat(DemoArray(), None) == Nested([N(1), N(2), N(3), N(5), N(3), Nested([N(3), N(5), N(3)])])
    ensures MyFlat(DemoArray(), Some(Fin(1))) == MyFlat(DemoArray(), None)
  {
    var xs := DemoArray().items;
    LemmaFlattenSplices(DemoArray(), Fin(1));
    assert Piece(xs[0], Fin(1)) == [N(1)];
    assert Piece(xs[1], Fin(1)) == [N(2), N(3), N(5)];
    assert Piece(xs[2], Fin(1)) == [N(3), Nested([N(3), N(5), N(3)])];
    assert Splice(xs[2..], Fin(1)) == Piece(xs[2], Fin(1)) + Splice(xs[3..], Fin(1));
    assert Splice(xs[1..], Fin(1)) == Piece(xs[1], Fin(1)) + Splice(xs[2..], Fin(1));
  }

  lemma LemmaDemoLeaves()
    ensures Leaves(DemoArray()) == [Num(1), Num(2), Num(3), Num(5), Num(3), Num(3), Num(5), Num(3)]
  {
    var xs := DemoArray().items;
    assert Leaves(xs[1]) == [Num(2), Num(3), Num(5)];
    assert Leaves(xs[2].items[1]) == [Num(3), Num(5), Num(3)];
    assert Leaves(xs[2]) == [Num(3), Num(3), Num(5), Num(3)];
    assert LeavesOf(xs[2..]) == Leaves(xs[2]) + LeavesOf(xs[3..]);
    assert LeavesOf(xs[1..]) == Leaves(xs[1]) + LeavesOf(xs[2..]);
  }

  lemma LemmaDemoHeight()
    ensures Height(DemoArray()) == 3
  {
    var xs := DemoArray().items;
    assert Height(xs[1]) == 1;
    assert Height(xs[2].items[1]) == 1;
    assert Height(xs[2]) == 2;
    assert MaxHeight(xs[2..]) == 2;
    assert MaxHeight(xs[1..]) == 2;
  }

  /** Depth 3, enough for the array's two levels of nesting, and Infinity both
      flatten completely: `[1, 2, 3, 5, 3, 3, 5, 3]`. */
  lemma LemmaDemoDeep()
    ensures MyFlat(DemoArray(), Some(Fin(3))) == Nested([N(1), N(2), N(3), N(5), N(3), N(3), N(5), N(3)])
    ensures MyFlat(DemoArray(), Some(Inf)) == MyFlat(DemoArray(), Some(Fin(3)))
  {
    var leaves := [Num(1), Num(2), Num(3), Num(5), Num(3), Num(3), Num(5), Num(3)];
    LemmaDemoLeaves();
    LemmaDemoHeight();
    assert AsItems(leaves) == [N(1), N(2), N(3), N(5), N(3), N(3), N(5), N(3)];
    LemmaDeepEnoughIsFlat(DemoArray(), 3);
    LemmaFlattenLeaves(DemoArray(), Fin(3));
    LemmaAllLeavesAsItems(Flatten(DemoArray(), Fin(3)).items);
    LemmaFlattenUnbounded(DemoArray(), Inf);
  }
}
