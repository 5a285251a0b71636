/**
 * Array-backed collections: one over people and products that can list
 * their names, a generic one, and a generic one that filters its items
 * with a type guard.
 */
module Generics {
  import opened Wrappers
  import opened Sequences

  /** The two kinds of item the examples mix: people and products. */
  datatype PeopleType =
    | Person(name: string, city: string)
    | Product(name: string, price: real)

  class PeopleCollection {
    var items: seq<PeopleType>

    constructor (initialItems: seq<PeopleType>)
      ensures items == initialItems
    {
      items := initialItems;
    }

    /** `push`: appends `newItem` and answers the new length. */
    method Add(newItem: PeopleType) returns (length: nat)
      modifies this`items
      ensures items == old(items) + [newItem]
      ensures length == |items| && GetItem(length - 1) == Some(newItem)
      ensures forall i | 0 <= i < old(|items|) :: GetItem(i) == old(GetItem(i))
    {
      items := items + [newItem];
      length := |items|;
    }

    /** The name of every item, position by position. */
    function GetNames(): (names: seq<string>)
      reads this
      ensures |names| == |items|
      ensures forall i | 0 <= i < |items| :: GetItem(i).Some? && names[i] == GetItem(i).value.name
    {
      Map(items, (item: PeopleType) => item.name)
    }

    /** The item at `index`, or `None` (`undefined`) outside the array. */
    function GetItem(index: int): (r: Option<PeopleType>)
      reads this
      ensures r.Some? <==> 0 <= index < |items|
      ensures r.Some? ==> r.value == items[index]
    {
      if 0 <= index < |items| then Some(items[index]) else None
    }
  }

  class DataCollection<T> {
    var items: seq<T>

    constructor (initialItems: seq<T>)
      ensures items == initialItems
    {
      items := initialItems;
    }

    /** `push`: appends `newItem` and answers the new length. */
    method Add(newItem: T) returns (length: nat)
      modifies this`items
      ensures items == old(items) + [newItem]
      ensures length == |items| && GetItem(length - 1) == Some(newItem)
      ensures forall i | 0 <= i < old(|items|) :: GetItem(i) == old(GetItem(i))
    {
      items := items + [newItem];
      length := |items|;
    }

    /** The item at `index`, or `None` (`undefined`) outside the array. */
    function GetItem(index: int): (r: Option<T>)
      reads this
      ensures r.Some? <==> 0 <= index < |items|
      ensures r.Some? ==> r.value == items[index]
    {
      if 0 <= index < |items| then Some(items[index]) else None
    }
  }

  /** The collection whose `filter` takes a type guard. */
  class GuardedDataCollection<T> {
    var items: seq<T>

    constructor (initialItems: seq<T>)
      ensures items == initialItems
    {
      items := initialItems;
    }

    /**
     * The items the guard accepts, in their original order; by
     * `Sequences.FilterIsUnique` these properties leave no other answer.
     */
    function Filter(checkType: T -> bool): (r: seq<T>)
      reads this
      ensures |r| == CountWhere(items, checkType) <= |items|
      ensures forall i | 0 <= i < |r| :: checkType(r[i])
      ensures IsSubsequence(r, items)
    {
      Sequences.Filter(items, checkType)
    }
  }

  /** Filtering people and products with the `instanceof Person` guard keeps the people. */
  method FilterPeople(people: seq<PeopleType>, products: seq<PeopleType>) returns (filtered: seq<PeopleType>)
    requires forall i | 0 <= i < |people| :: people[i].Person?
    requires forall i | 0 <= i < |products| :: products[i].Product?
    ensures filtered == people
  {
    var mixedData := new GuardedDataCollection(people + products);
    filtered := mixedData.Filter((item: PeopleType) => item.Person?);
    FilterAppend(people, products, (item: PeopleType) => item.Person?);
    FilterAll(people, (item: PeopleType) => item.Person?);
    FilterNone(products, (item: PeopleType) => item.Person?);
  }
}
