/**
 * A collection of named items backed by a JavaScript `Set`: an item is
 * kept once however often it is added (items are compared by identity,
 * not by name), and `get` returns the earliest-inserted item with the
 * requested name.
 */
module CollectionsBasic {
  import opened Wrappers
  import opened Sequences

  /** `Set.prototype.add`: appends `x` unless it is already held. */
  function Insert<T(==)>(s: seq<T>, x: T): (r: seq<T>)
    ensures Distinct(s) ==> Distinct(r)
    ensures x in r
    ensures forall y | y in r :: y in s || y == x
    ensures s <= r
  {
    if x in s then s else s + [x]
  }

  /** Adding `xs` one after the other, as `add(...xs)` and `new Set(xs)` do. */
  function InsertAll<T(==)>(s: seq<T>, xs: seq<T>): (r: seq<T>)
    decreases |xs|
  {
    if xs == [] then s
    else
      var n := |xs| - 1;
      Insert(InsertAll(s, xs[..n]), xs[n])
  }

  /**
   * Inserting keeps the earlier items in place and duplicate-free, and holds
   * exactly the earlier items and the added ones.
   */
  lemma {:induction false} InsertAllContents<T>(s: seq<T>, xs: seq<T>)
    requires Distinct(s)
    ensures Distinct(InsertAll(s, xs))
    ensures s <= InsertAll(s, xs)
    ensures forall y | y in InsertAll(s, xs) :: y in s || y in xs
    ensures forall i | 0 <= i < |xs| :: xs[i] in InsertAll(s, xs)
    decreases |xs|
  {
    if xs != [] {
      var n := |xs| - 1;
      InsertAllContents(s, xs[..n]);
      assert xs == xs[..n] + [xs[n]];
    }
  }

  /** Adding only items already held changes nothing, so `count` stays the same. */
  lemma {:induction false} InsertAllPresent<T>(s: seq<T>, xs: seq<T>)
    requires forall i | 0 <= i < |xs| :: xs[i] in s
    ensures InsertAll(s, xs) == s
    decreases |xs|
  {
    if xs != [] {
      InsertAllPresent(s, xs[..|xs| - 1]);
    }
  }

  /** Two different items are both kept, even when they carry the same name. */
  lemma TwoItemsSameNameBothKept<T>(nameOf: T -> string, s: seq<T>, a: T, b: T)
    requires a !in s && b !in s && a != b
    requires nameOf(a) == nameOf(b)
    ensures |InsertAll(s, [a, b])| == |s| + 2
  {
    assert [a, b][..1] == [a] && [a][..0] == [];
    assert InsertAll(s, [a]) == s + [a];
    assert b !in s + [a];
  }

  /** `count` of a collection built from `xs` is the number of distinct items in `xs`. */
  lemma CountIsDistinctItems<T>(xs: seq<T>)
    ensures |InsertAll([], xs)| == |set i | 0 <= i < |xs| :: xs[i]|
  {
    var r := InsertAll([], xs);
    InsertAllContents([], xs);
    DistinctCardinality(r);
    var held := set i | 0 <= i < |r| :: r[i];
    var given := set i | 0 <= i < |xs| :: xs[i];
    forall y | y in held ensures y in given {
      var k :| 0 <= k < |r| && r[k] == y;
      assert r[k] in r;
      var i :| 0 <= i < |xs| && xs[i] == y;
    }
    forall y | y in given ensures y in held {
      var j :| 0 <= j < |xs| && xs[j] == y;
      assert y in r;
      var i :| 0 <= i < |r| && r[i] == y;
    }
    assert held == given;
  }

  class Collection<T(==)> {
    /** The item's `name` property. */
    const nameOf: T -> string
    /** The `Set`'s elements in insertion order. */
    var items: seq<T>

    ghost predicate Valid()
      reads this
    {
      Distinct(items)
    }

    /** `new Set(initialItems)` drops repeated items exactly as adding them one by one does. */
    constructor (nameOf: T -> string, initialItems: seq<T> := [])
      ensures Valid() && this.nameOf == nameOf
      ensures items == InsertAll([], initialItems)
    {
      this.nameOf := nameOf;
      items := InsertAll([], initialItems);
      new;
      InsertAllContents([], initialItems);
    }

    method Add(newItems: seq<T>)
      requires Valid()
      modifies this`items
      ensures Valid()
      ensures items == InsertAll(old(items), newItems)
    {
      var i := 0;
      while i < |newItems|
        invariant 0 <= i <= |newItems|
        invariant items == InsertAll(old(items), newItems[..i])
      {
        assert newItems[..i + 1][..i] == newItems[..i];
        if newItems[i] !in items {
          items := items + [newItems[i]];
        }
        i := i + 1;
      }
      assert newItems[..i] == newItems;
      InsertAllContents(old(items), newItems);
    }

    /** The earliest-inserted item named `name`, or `None` (`undefined`). */
    function Get(name: string): (r: Option<T>)
      reads this
      ensures r.None? <==> forall i | 0 <= i < |items| :: nameOf(items[i]) != name
      ensures r.Some? ==> exists i :: FirstMatchAt(items, x => nameOf(x) == name, i) && items[i] == r.value
    {
      Find(items, x => nameOf(x) == name)
    }

    /** `count`: the number of distinct items held. */
    function Count(): (n: nat)
      reads this
      requires Valid()
      ensures n == |set i | 0 <= i < |items| :: items[i]|
    {
      DistinctCardinality(items);
      |items|
    }
  }
}
