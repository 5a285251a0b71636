/**
 * A collection of named items backed by a plain array: `add` appends,
 * duplicates included, and `get` returns the first item with the
 * requested name.
 */
module Interfaces {
  import opened Wrappers
  import opened Sequences

  class ArrayCollection<T> {
    /** The item's `name` property. */
    const nameOf: T -> string
    var items: seq<T>

    constructor (nameOf: T -> string)
      ensures this.nameOf == nameOf && items == []
    {
      this.nameOf := nameOf;
      items := [];
    }

    /** `push(...newItems)`: the new items follow the old ones, in argument order. */
    method Add(newItems: seq<T>)
      modifies this`items
      ensures items == old(items) + newItems
      ensures Count() == old(Count()) + |newItems|
      ensures forall i | 0 <= i < old(Count()) :: items[i] == old(items[i])
    {
      items := items + newItems;
    }

    /** The first item, in array order, named `name`, or `None` (`undefined`). */
    function Get(name: string): (r: Option<T>)
      reads this
      ensures r.None? <==> forall i | 0 <= i < |items| :: nameOf(items[i]) != name
      ensures r.Some? ==> exists i :: FirstMatchAt(items, x => nameOf(x) == name, i) && items[i] == r.value
    {
      Find(items, x => nameOf(x) == name)
    }

    /** `count`: the array length, repeated items included. */
    function Count(): (n: nat)
      reads this
      ensures n == |items|
    {
      |items|
    }
  }

  /** Adding the same item twice keeps both copies, and `get` still finds the first. */
  method AddDuplicates<T>(nameOf: T -> string, x: T) returns (count: nat, found: Option<T>)
    ensures count == 2
    ensures found == Some(x)
  {
    var collection := new ArrayCollection(nameOf);
    collection.Add([x, x]);
    count := collection.Count();
    found := collection.Get(nameOf(x));
    assert FirstMatchAt(collection.items, y => nameOf(y) == nameOf(x), 0);
  }
}
