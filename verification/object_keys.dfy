/** `Object.myKeys(obj)`: the keys `for...in` visits that are the object's own.
    The object is given as its `for...in` enumeration: each visited key with
    whether `obj.hasOwnProperty(key)` holds for it. */
module ObjectKeys {

  /** A key visited by `for...in`, and whether it is an own property. */
  datatype Visited = Visited(name: string, isOwn: bool)

  /** `name` was visited as an own key. */
  predicate VisitedOwn(props: seq<Visited>, name: string)
  {
    exists i :: 0 <= i < |props| && props[i].isOwn && props[i].name == name
  }

  /** The own keys in enumeration order: the reference filter. */
  function OwnNames(props: seq<Visited>): seq<string>
  {
    if props == [] then []
    else OwnNames(props[..|props| - 1]) + (if props[|props| - 1].isOwn then [props[|props| - 1].name] else [])
  }

  /** `Object.myKeys(obj)`: push every visited key that is an own property. */
  method MyKeys(props: seq<Visited>) returns (ownKeys: seq<string>)
    // the own keys, in enumeration order (see the lemmas below for what that means)
    ensures ownKeys == OwnNames(props)
    ensures |ownKeys| <= |props|
  {
    ownKeys := [];
    var i := 0;
    while i < |props|
      invariant 0 <= i <= |props|
      invariant ownKeys == OwnNames(props[..i])
      invariant |ownKeys| <= i
    {
      assert props[..i + 1][..i] == props[..i];
      if props[i].isOwn {
        ownKeys := ownKeys + [props[i].name];
      }
      i := i + 1;
    }
    assert props[..|props|] == props;
  }

  /** The positions of the own keys, in increasing order. */
  function OwnPositions(props: seq<Visited>): (idx: seq<nat>)
    ensures forall j :: 0 <= j < |idx| ==> idx[j] < |props| && props[idx[j]].isOwn
  {
    if props == [] then []
    else OwnPositions(props[..|props| - 1]) + (if props[|props| - 1].isOwn then [|props| - 1] else [])
  }

  /** The result keeps enumeration order: its j-th key sits at the j-th own
      position, and the positions strictly increase. */
  lemma {:induction false} LemmaOwnNamesOrder(props: seq<Visited>)
    ensures |OwnNames(props)| == |OwnPositions(props)| <= |props|
    ensures forall j :: 0 <= j < |OwnNames(props)| ==> OwnNames(props)[j] == props[OwnPositions(props)[j]].name
    ensures forall j, k :: 0 <= j < k < |OwnPositions(props)| ==> OwnPositions(props)[j] < OwnPositions(props)[k]
  {
    if props != [] {
      var init := props[..|props| - 1];
      LemmaOwnNamesOrder(init);
      forall j | 0 <= j < |OwnPositions(init)|
        ensures init[OwnPositions(init)[j]] == props[OwnPositions(init)[j]]
      {
      }
    }
  }

  /** Every returned key is an own key that was visited. */
  lemma {:induction false} LemmaOwnNamesSound(props: seq<Visited>)
    ensures forall j :: 0 <= j < |OwnNames(props)| ==> VisitedOwn(props, OwnNames(props)[j])
  {
    var names, idx := OwnNames(props), OwnPositions(props);
    LemmaOwnNamesOrder(props);
    forall j | 0 <= j < |names|
      ensures VisitedOwn(props, names[j])
    {
      var i := idx[j];
      assert 0 <= i < |props| && props[i].isOwn && props[i].name == names[j];
    }
  }

  /** Every own key visited is returned; inherited keys are returned only when
      an own key of the same name is visited too. */
  lemma {:induction false} LemmaOwnNamesComplete(props: seq<Visited>)
    ensures forall i :: 0 <= i < |props| && props[i].isOwn ==> props[i].name in OwnNames(props)
  {
    if props != [] {
      var init := props[..|props| - 1];
      LemmaOwnNamesComplete(init);
      assert forall i :: 0 <= i < |init| ==> init[i] == props[i];
    }
  }

  /** An inherited key that no own key shares a name with is left out. */
  lemma {:induction false} LemmaInheritedExcluded(props: seq<Visited>, name: string)
    requires forall i :: 0 <= i < |props| && props[i].name == name ==> !props[i].isOwn
    ensures name !in OwnNames(props)
  {
    LemmaOwnNamesSound(props);
  }

  /** The demonstration: `{name: "Bob", age: "1000"}` gives `["name", "age"]`. */
  lemma LemmaDemo()
    ensures OwnNames([Visited("name", true), Visited("age", true)]) == ["name", "age"]
  {
    assert [Visited("name", true), Visited("age", true)][..1] == [Visited("name", true)];
  }
}
