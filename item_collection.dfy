/**
 * The command-line to-do list: a named collection of `ToDoItem`s keyed by
 * their ids. Items are added under a supplied or a randomly drawn id (a
 * later item with the same id replaces the earlier one), completed in
 * place, and removed by id.
 */
module ItemCollections {
  import opened Wrappers
  import opened Item

  /** What a stored item holds at one moment: a snapshot of a `ToDoItem`. */
  datatype ItemState = ItemState(id: int, task: string, complete: bool)

  /**
   * The id drawn when the caller gives none: `Math.floor(random * 1000)`,
   * where `random` is the value `Math.random` returns, in [0, 1).
   */
  function GenerateID(random: real): (id: int)
    requires 0.0 <= random < 1.0
    ensures 0 <= id < 1000
  {
    (random * 1000.0).Floor
  }

  /** Every id in [0, 999] is drawn for some value of `Math.random`. */
  lemma GenerateIDCoversRange(id: int)
    requires 0 <= id < 1000
    ensures GenerateID(id as real / 1000.0) == id
  {
  }

  /**
   * The key `addItem` stores under: the caller's id when it is truthy; an
   * omitted id and an explicit `0` are both falsy and draw a generated one.
   */
  function EffectiveId(id: Option<int>, random: real): (key: int)
    requires 0.0 <= random < 1.0
    ensures id.Some? && id.value != 0 ==> key == id.value
    ensures id.None? || id.value == 0 ==> 0 <= key < 1000
  {
    if id.Some? && id.value != 0 then id.value else GenerateID(random)
  }

  // The collection's operations on snapshots, against which the methods are proved.

  /** `addItem`: a fresh, incomplete item under `key`; last write wins. */
  function Added(items: map<int, ItemState>, key: int, task: string): map<int, ItemState>
  {
    items[key := ItemState(key, task, false)]
  }

  /** `completeTask`: the item under `id`, if any, becomes complete. */
  function Completed(items: map<int, ItemState>, id: int): map<int, ItemState>
  {
    if id in items then items[id := items[id].(complete := true)] else items
  }

  /** `removeItem`: the entry under `id`, if any, is gone. */
  function Removed(items: map<int, ItemState>, id: int): map<int, ItemState>
  {
    items - {id}
  }

  /** Every key maps to an item carrying that id. */
  ghost predicate KeysAreIds(items: map<int, ItemState>) {
    forall k | k in items :: items[k].id == k
  }

  lemma AddedStoresItem(items: map<int, ItemState>, key: int, task: string)
    ensures var r := Added(items, key, task);
      && key in r && r[key] == ItemState(key, task, false)
      && r.Keys == items.Keys + {key}
      && (forall k | k in items && k != key :: r[k] == items[k])
      && (KeysAreIds(items) ==> KeysAreIds(r))
  {
  }

  /** Adding under a key already present replaces its item and keeps the size. */
  lemma AddedOverwrites(items: map<int, ItemState>, key: int, task: string)
    requires key in items
    ensures |Added(items, key, task)| == |items|
  {
  }

  /** Adding under a new key grows the collection by one. */
  lemma AddedNewGrows(items: map<int, ItemState>, key: int, task: string)
    requires key !in items
    ensures |Added(items, key, task)| == |items| + 1
  {
  }

  /** Adding under pairwise distinct new keys grows the size by one per add. */
  lemma {:induction false} DistinctAddsCount(items: map<int, ItemState>, keys: seq<int>, tasks: seq<string>)
    requires |keys| == |tasks|
    requires forall i | 0 <= i < |keys| :: keys[i] !in items
    requires forall i, j | 0 <= i < j < |keys| :: keys[i] != keys[j]
    ensures |AddedAll(items, keys, tasks)| == |items| + |keys|
    decreases |keys|
  {
    if keys != [] {
      var n := |keys| - 1;
      DistinctAddsCount(items, keys[..n], tasks[..n]);
      AddedAllKeys(items, keys[..n], tasks[..n]);
      AddedNewGrows(AddedAll(items, keys[..n], tasks[..n]), keys[n], tasks[n]);
    }
  }

  /** A run of `addItem` calls with explicit ids. */
  function AddedAll(items: map<int, ItemState>, keys: seq<int>, tasks: seq<string>): map<int, ItemState>
    requires |keys| == |tasks|
    decreases |keys|
  {
    if keys == [] then items
    else
      var n := |keys| - 1;
      Added(AddedAll(items, keys[..n], tasks[..n]), keys[n], tasks[n])
  }

  lemma {:induction false} AddedAllKeys(items: map<int, ItemState>, keys: seq<int>, tasks: seq<string>)
    requires |keys| == |tasks|
    ensures AddedAll(items, keys, tasks).Keys == items.Keys + set i | 0 <= i < |keys| :: keys[i]
    decreases |keys|
  {
    if keys != [] {
      var n := |keys| - 1;
      AddedAllKeys(items, keys[..n], tasks[..n]);
      assert (set i | 0 <= i < |keys| :: keys[i]) == (set i | 0 <= i < n :: keys[..n][i]) + {keys[n]};
    }
  }

  /**
   * Completing sets the flag of the item under `id` and nothing else: keys,
   * ids, tasks and the other items stay as they were; an absent id is a no-op.
   */
  lemma CompletedSetsFlag(items: map<int, ItemState>, id: int)
    ensures var r := Completed(items, id);
      && r.Keys == items.Keys
      && (id in items ==> r[id].complete && r[id].id == items[id].id && r[id].task == items[id].task)
      && (forall k | k in items && k != id :: r[k] == items[k])
      && (id !in items ==> r == items)
      && (KeysAreIds(items) ==> KeysAreIds(r))
  {
  }

  /** Completion is one-way: no item goes from complete back to incomplete. */
  lemma CompletedIsMonotone(items: map<int, ItemState>, id: int)
    ensures forall k | k in items && items[k].complete :: Completed(items, id)[k].complete
  {
  }

  /** Completing the same id twice is the same as completing it once. */
  lemma CompletedIdempotent(items: map<int, ItemState>, id: int)
    ensures Completed(Completed(items, id), id) == Completed(items, id)
  {
  }

  /** Removing deletes exactly the key `id`, and is a no-op when it is absent. */
  lemma RemovedDeletesKey(items: map<int, ItemState>, id: int)
    ensures var r := Removed(items, id);
      && r.Keys == items.Keys - {id}
      && (forall k | k in r :: r[k] == items[k])
      && |r| == (if id in items then |items| - 1 else |items|)
      && (KeysAreIds(items) ==> KeysAreIds(r))
  {
  }

  class ItemCollection {
    var name: string
    var toDoItems: map<int, ToDoItem>

    /** The stored items as values. */
    ghost function View(): map<int, ItemState>
      reads this, toDoItems.Values
    {
      map k | k in toDoItems :: ItemState(toDoItems[k].id, toDoItems[k].task, toDoItems[k].complete)
    }

    /**
     * Every item is stored under its own id. The methods keep this; the
     * collection may be constructed with a map that breaks it.
     */
    ghost predicate Valid()
      reads this, toDoItems.Values
    {
      forall k | k in toDoItems :: toDoItems[k].id == k
    }

    /** Under `Valid()` no item object is stored under two keys. */
    lemma ValidNoAliasing()
      requires Valid()
      ensures forall j, k | j in toDoItems && k in toDoItems && j != k :: toDoItems[j] != toDoItems[k]
      ensures KeysAreIds(View())
    {
    }

    constructor (name: string, toDoItems: map<int, ToDoItem> := map[])
      ensures this.name == name && this.toDoItems == toDoItems
      ensures toDoItems == map[] ==> Valid() && View() == map[]
    {
      this.name := name;
      this.toDoItems := toDoItems;
    }

    /**
     * Stores a new, incomplete item with `task` under `EffectiveId(id, random)`,
     * replacing whatever was stored there. `random` is the value
     * `Math.random` returns if an id has to be drawn.
     */
    method AddItem(task: string, random: real, id: Option<int> := None)
      requires 0.0 <= random < 1.0
      modifies this`toDoItems
      ensures var key := EffectiveId(id, random);
        && key in toDoItems && fresh(toDoItems[key])
        && toDoItems == old(toDoItems)[key := toDoItems[key]]
      ensures View() == Added(old(View()), EffectiveId(id, random), task)
      ensures old(Valid()) ==> Valid()
    {
      var key := EffectiveId(id, random);
      var item := new ToDoItem(key, task);
      toDoItems := toDoItems[item.id := item];
      assert View() == Added(old(View()), key, task) by {
        forall k | k in toDoItems && k != key
          ensures k in old(toDoItems) && toDoItems[k] == old(toDoItems[k])
        {
        }
      }
    }

    /**
     * Marks the item stored under `id` complete, in place; does nothing
     * when there is none. Every key keeps its item object; an object
     * stored under several keys shows the change under each of them.
     */
    method CompleteTask(id: int)
      modifies if id in toDoItems then {toDoItems[id]} else {}
      ensures toDoItems == old(toDoItems)
      ensures id in toDoItems ==> toDoItems[id].complete
      ensures forall k | k in toDoItems ::
        && toDoItems[k].id == old(toDoItems[k].id)
        && toDoItems[k].task == old(toDoItems[k].task)
        && toDoItems[k].complete == (old(toDoItems[k].complete) || (id in toDoItems && toDoItems[k] == toDoItems[id]))
      ensures old(Valid()) ==> Valid() && View() == Completed(old(View()), id)
    {
      if id in toDoItems {
        var item := toDoItems[id];
        item.complete := true;
        if old(Valid()) {
          forall k | k in toDoItems && k != id
            ensures toDoItems[k] != item
          {
          }
          assert View() == Completed(old(View()), id);
        }
      }
    }

    /** Deletes the entry under `item.id`, whichever object is stored there. */
    method RemoveItem(item: ToDoItem)
      modifies this`toDoItems
      ensures toDoItems == old(toDoItems) - {item.id}
      ensures View() == Removed(old(View()), item.id)
      ensures old(Valid()) ==> Valid()
      ensures old(Valid()) ==> item !in toDoItems.Values
    {
      toDoItems := toDoItems - {item.id};
      if old(Valid()) {
        forall k | k in toDoItems
          ensures toDoItems[k] != item
        {
          assert toDoItems[k].id == k != item.id;
        }
      }
    }
  }

  /** The command-line app: "Learn TS" is added under id 1 to "Work" and completed. */
  method App() returns (collection: ItemCollection)
    ensures collection.name == "Work"
    ensures collection.View() == map[1 := ItemState(1, "Learn TS", true)]
  {
    collection := new ItemCollection("Work");
    collection.AddItem("Learn TS", 0.0, Some(1));
    collection.CompleteTask(1);
  }
}
