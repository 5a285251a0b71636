/**
 * A collection of named items backed by a JavaScript `Map` from name to
 * item: adding an item stores it under its name (a later item with the
 * same name replaces the earlier one), and iteration follows the order in
 * which the names were first added.
 */
module Iterable {
  import opened Wrappers
  import opened Sequences

  /**
   * A JavaScript `Map`: its entries, and its keys in first-insertion order.
   * `set` on a key already present replaces the value and keeps the key's
   * position.
   */
  datatype OrderedMap<K(==), V> = OrderedMap(keys: seq<K>, entries: map<K, V>)
  {
    ghost predicate Valid() {
      && Distinct(keys)
      && (forall i | 0 <= i < |keys| :: keys[i] in entries)
      && (forall k | k in entries :: k in keys)
    }

    static function Empty(): (m: OrderedMap<K, V>)
      ensures m.Valid()
    {
      OrderedMap([], map[])
    }

    function Set(k: K, v: V): (m: OrderedMap<K, V>)
      requires Valid()
      ensures m.Valid()
      ensures m.Get(k) == Some(v)
      ensures m.entries.Keys == entries.Keys + {k}
      ensures forall j | j in entries && j != k :: m.Get(j) == Get(j)
      ensures m.keys == if k in entries then keys else keys + [k]
    {
      OrderedMap(if k in entries then keys else keys + [k], entries[k := v])
    }

    function Get(k: K): (r: Option<V>)
      ensures r.Some? <==> k in entries
      ensures r.Some? ==> r.value == entries[k]
    {
      if k in entries then Some(entries[k]) else None
    }

    /** `size`: the number of distinct keys. */
    function Size(): (n: nat)
      requires Valid()
      ensures n == |entries.Keys|
    {
      DistinctCardinality(keys);
      assert entries.Keys == set i | 0 <= i < |keys| :: keys[i];
      |keys|
    }

    /** `values()`: one value per key, in key order. */
    function Values(): (vs: seq<V>)
      requires Valid()
      ensures |vs| == |keys|
      ensures forall i | 0 <= i < |keys| :: Get(keys[i]) == Some(vs[i])
    {
      seq(|keys|, i requires 0 <= i < |keys| => entries[keys[i]])
    }
  }

  /** `add(...xs)`: each item stored under its name, in argument order. */
  function AddAll<T>(m: OrderedMap<string, T>, nameOf: T -> string, xs: seq<T>): (r: OrderedMap<string, T>)
    requires m.Valid()
    ensures r.Valid()
    decreases |xs|
  {
    if xs == [] then m
    else
      var n := |xs| - 1;
      AddAll(m, nameOf, xs[..n]).Set(nameOf(xs[n]), xs[n])
  }

  /** The names of `xs`, as a set. */
  ghost function Names<T>(nameOf: T -> string, xs: seq<T>): set<string> {
    set i | 0 <= i < |xs| :: nameOf(xs[i])
  }

  /** After `add`, a name holds the last item added with that name. */
  lemma {:induction false} AddAllGetLast<T>(m: OrderedMap<string, T>, nameOf: T -> string, xs: seq<T>, i: int)
    requires m.Valid()
    requires 0 <= i < |xs|
    requires forall j | i < j < |xs| :: nameOf(xs[j]) != nameOf(xs[i])
    ensures AddAll(m, nameOf, xs).Get(nameOf(xs[i])) == Some(xs[i])
    decreases |xs|
  {
    var n := |xs| - 1;
    if i < n {
      AddAllGetLast(m, nameOf, xs[..n], i);
    }
  }

  /** After `add`, a name none of the new items carries holds what it held before. */
  lemma {:induction false} AddAllGetOther<T>(m: OrderedMap<string, T>, nameOf: T -> string, xs: seq<T>, name: string)
    requires m.Valid()
    requires name !in Names(nameOf, xs)
    ensures AddAll(m, nameOf, xs).Get(name) == m.Get(name)
    decreases |xs|
  {
    if xs != [] {
      var n := |xs| - 1;
      assert Names(nameOf, xs[..n]) <= Names(nameOf, xs) by {
        forall j | 0 <= j < n ensures nameOf(xs[..n][j]) in Names(nameOf, xs) {
          assert xs[..n][j] == xs[j];
        }
      }
      assert nameOf(xs[n]) in Names(nameOf, xs);
      AddAllGetOther(m, nameOf, xs[..n], name);
    }
  }

  /**
   * `add` keeps the names already present, in their order, as a prefix of
   * the key order, and stores exactly the old names plus the new ones.
   */
  lemma {:induction false} AddAllKeys<T>(m: OrderedMap<string, T>, nameOf: T -> string, xs: seq<T>)
    requires m.Valid()
    ensures m.keys <= AddAll(m, nameOf, xs).keys
    ensures AddAll(m, nameOf, xs).entries.Keys == m.entries.Keys + Names(nameOf, xs)
    decreases |xs|
  {
    if xs != [] {
      var n := |xs| - 1;
      var before := AddAll(m, nameOf, xs[..n]);
      AddAllKeys(m, nameOf, xs[..n]);
      NamesSnoc(nameOf, xs);
      var after := before.Set(nameOf(xs[n]), xs[n]);
      assert after == AddAll(m, nameOf, xs);
      assert before.keys <= after.keys;
      assert after.entries.Keys == before.entries.Keys + {nameOf(xs[n])};
    }
  }

  /** The names of a sequence are those of all but its last item, plus the last item's. */
  lemma NamesSnoc<T>(nameOf: T -> string, xs: seq<T>)
    requires xs != []
    ensures Names(nameOf, xs) == Names(nameOf, xs[..|xs| - 1]) + {nameOf(xs[|xs| - 1])}
  {
  }

  /** `count` of a collection built from `xs` is the number of distinct names in `xs`. */
  lemma CountIsDistinctNames<T>(nameOf: T -> string, xs: seq<T>)
    ensures AddAll(OrderedMap.Empty(), nameOf, xs).Size() == |Names(nameOf, xs)|
  {
    AddAllKeys(OrderedMap.Empty(), nameOf, xs);
  }

  /** Adding items whose names are new and pairwise distinct grows `count` by their number. */
  lemma {:induction false} AddAllFreshNames<T>(m: OrderedMap<string, T>, nameOf: T -> string, xs: seq<T>)
    requires m.Valid()
    requires forall i | 0 <= i < |xs| :: nameOf(xs[i]) !in m.entries
    requires forall i, j | 0 <= i < j < |xs| :: nameOf(xs[i]) != nameOf(xs[j])
    ensures AddAll(m, nameOf, xs).Size() == m.Size() + |xs|
    decreases |xs|
  {
    if xs != [] {
      var n := |xs| - 1;
      AddAllFreshNames(m, nameOf, xs[..n]);
      AddAllKeys(m, nameOf, xs[..n]);
      assert nameOf(xs[n]) !in Names(nameOf, xs[..n]);
    }
  }

  /** Every value is stored under its own name. */
  ghost predicate StoredUnderNames<T>(m: OrderedMap<string, T>, nameOf: T -> string) {
    forall k | k in m.entries :: nameOf(m.entries[k]) == k
  }

  lemma SetKeepsNames<T>(m: OrderedMap<string, T>, nameOf: T -> string, x: T)
    requires m.Valid() && StoredUnderNames(m, nameOf)
    ensures StoredUnderNames(m.Set(nameOf(x), x), nameOf)
  {
  }

  /** One more item added is one more `Set`. */
  lemma AddAllStep<T>(m: OrderedMap<string, T>, nameOf: T -> string, xs: seq<T>, i: int)
    requires m.Valid()
    requires 0 <= i < |xs|
    ensures AddAll(m, nameOf, xs[..i + 1]) == AddAll(m, nameOf, xs[..i]).Set(nameOf(xs[i]), xs[i])
  {
    assert xs[..i + 1][..i] == xs[..i];
  }

  class Collection<T> {
    /** The item's `name` property. */
    const nameOf: T -> string
    var items: OrderedMap<string, T>

    /** The map is well formed and every item is stored under its own name. */
    ghost predicate Valid()
      reads this
    {
      items.Valid() && StoredUnderNames(items, nameOf)
    }

    /** Constructing with initial items is constructing empty, then `add(...initialItems)`. */
    constructor (nameOf: T -> string, initialItems: seq<T> := [])
      ensures Valid() && this.nameOf == nameOf
      ensures items == AddAll(OrderedMap.Empty(), nameOf, initialItems)
    {
      this.nameOf := nameOf;
      items := OrderedMap.Empty();
      new;
      Add(initialItems);
    }

    method Add(newItems: seq<T>)
      requires Valid()
      modifies this`items
      ensures Valid()
      ensures items == AddAll(old(items), nameOf, newItems)
    {
      var i := 0;
      while i < |newItems|
        invariant 0 <= i <= |newItems|
        invariant items.Valid() && StoredUnderNames(items, nameOf)
        invariant items == AddAll(old(items), nameOf, newItems[..i])
      {
        AddAllStep(old(items), nameOf, newItems, i);
        SetKeepsNames(items, nameOf, newItems[i]);
        items := items.Set(nameOf(newItems[i]), newItems[i]);
        i := i + 1;
      }
      assert newItems[..i] == newItems;
    }

    /** The item stored under `name`, or `None` (`undefined`). */
    function Get(name: string): (r: Option<T>)
      reads this
      requires Valid()
      ensures r.None? <==> name !in items.keys
      ensures r.Some? ==> name in items.entries && r.value == items.entries[name]
      ensures r.Some? ==> nameOf(r.value) == name
    {
      items.Get(name)
    }

    /** `count`: the number of distinct names stored. */
    function Count(): (n: nat)
      reads this
      requires Valid()
      ensures n == |items.entries.Keys|
    {
      items.Size()
    }

    /**
     * `values()` and `superValues()`: every stored item exactly once, in
     * the order in which its name was first added.
     */
    function Values(): (vs: seq<T>)
      reads this
      requires Valid()
      ensures |vs| == Count()
      ensures forall i | 0 <= i < |vs| :: nameOf(vs[i]) == items.keys[i] && Get(items.keys[i]) == Some(vs[i])
    {
      items.Values()
    }
  }
}
