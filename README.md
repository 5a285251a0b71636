# In-memory collections of a TypeScript playground, in Dafny

The repository is a TypeScript learning playground. Its runtime behaviour
that can be stated and proved lives in a small family of in-memory
collections that are updated in place:

- the command-line to-do list: `ToDoItem` (an id, a task and a completion
  flag) and `ItemCollection`, a named `Map` from id to item with
  `addItem` (under a supplied or randomly drawn id, last write wins),
  `completeTask` (flips the flag in place) and `removeItem`;
- four generic collections of named items, each with its own uniqueness
  discipline: a name-keyed `Map` with overwrite and first-insertion
  iteration order (`iterable.ts`), an identity-deduplicating `Set` whose
  `get` is first-match by name (`collections.basic.ts`), an append-only
  array with first-match `get` (`interfaces.ts`), and array collections
  with push, index lookup, name projection and a type-guard filter
  (`generics.ts`).

Objects whose fields the source updates in place are Dafny classes
(`ToDoItem`, `ItemCollection` and each collection class); the methods that
change them carry `modifies` frames and state the whole new state. Each
class is proved against pure specification functions (`Added`,
`Completed`, `Removed`, `AddAll`, `InsertAll`, `Sequences.Filter`, ...),
and the source's promises are lemmas about those functions.

Files, one module each: `wrappers.dfy` (`Option`, for JavaScript's
`undefined`), `sequences.dfy` (`Array.prototype.find`, `filter` and
`map`, and duplicate-free sequences), `item.dfy`, `item_collection.dfy`,
`iterable.dfy`, `collections_basic.dfy`, `interfaces.dfy`, `generics.dfy`.

Modelling choices:

- `Math.random()` is a `real` parameter in [0, 1); `generateID` is
  `Floor(random * 1000)`, proved to lie in [0, 999] and to reach each
  value of that range.
- `addItem(task, id?)` takes `id: Option<int>`; `Some(0)` behaves like an
  omitted id, because the source tests the id for truthiness.
- The `name` property that the generic collections require of their items
  (`T extends { name: string }`) is a function `nameOf: T -> string` given
  to each collection's constructor.
- A JavaScript `Map` is the datatype `Iterable.OrderedMap` (its entries
  and its keys in first-insertion order); a JavaScript `Set` is a
  duplicate-free sequence in insertion order. Equality on `T` is object
  identity when `T` is a class, as in the source's `Set`.
- `ItemCollection` holds references to `ToDoItem` objects. `completeTask`
  changes the stored object, so an object stored under two keys shows the
  change under both; the contract says so. `Valid()` (every item is stored
  under its own id) rules that out; `addItem` and `removeItem` keep it.

## Model

| member | source | states |
|---|---|---|
| `Item.ToDoItem.constructor` | todo.cli.app/src/items/Item.ts:1-5 | a new item keeps the id and the task exactly as given and is not complete |
| `Item.CompletionText` | todo.cli.app/src/items/Item.ts:8 | the completion answer is "Yes" if and only if the flag is set, "No" if and only if it is not |
| `ItemCollections.GenerateID` | todo.cli.app/src/items/ItemCollection.ts:24-26 | a generated id lies in [0, 999] for every value `Math.random` can return |
| `ItemCollections.GenerateIDCoversRange` | todo.cli.app/src/items/ItemCollection.ts:24-26 | every id in [0, 999] is generated for some random value |
| `ItemCollections.EffectiveId` | todo.cli.app/src/items/ItemCollection.ts:7-8 | a non-zero explicit id is used as given; an omitted id or an explicit 0 is replaced by a generated id in [0, 999] |
| `ItemCollections.AddedStoresItem` | todo.cli.app/src/items/ItemCollection.ts:7-11 | after adding, the key holds an incomplete item with that id and task, the other keys are untouched, and the keys are the old ones plus this one |
| `ItemCollections.AddedOverwrites` | todo.cli.app/src/items/ItemCollection.ts:10 | adding under a key already present replaces its item and leaves the size unchanged |
| `ItemCollections.AddedNewGrows` | todo.cli.app/src/items/ItemCollection.ts:10 | adding under a new key grows the size by one |
| `ItemCollections.DistinctAddsCount` | todo.cli.app/src/items/ItemCollection.ts:7-11 | a run of adds with pairwise distinct new ids grows the size by the number of adds |
| `ItemCollections.AddedAllKeys` | todo.cli.app/src/items/ItemCollection.ts:7-11 | after a run of adds the keys are the old keys plus every id added |
| `ItemCollections.CompletedSetsFlag` | todo.cli.app/src/items/ItemCollection.ts:13-18 | completing a present id sets its flag and keeps its id and task; every other entry and every key is unchanged; an absent id changes nothing |
| `ItemCollections.CompletedIsMonotone` | todo.cli.app/src/items/ItemCollection.ts:13-18 | completion never makes a complete item incomplete |
| `ItemCollections.CompletedIdempotent` | todo.cli.app/src/items/ItemCollection.ts:16 | completing the same id twice equals completing it once |
| `ItemCollections.RemovedDeletesKey` | todo.cli.app/src/items/ItemCollection.ts:20-22 | removal deletes exactly the key, keeps every other entry, shrinks the size by one if the key was present and is a no-op otherwise |
| `ItemCollections.ItemCollection.ValidNoAliasing` | todo.cli.app/src/items/ItemCollection.ts:10 | when every item is stored under its own id, no item object sits under two keys |
| `ItemCollections.ItemCollection.constructor` | todo.cli.app/src/items/ItemCollection.ts:4-5 | the collection keeps the name and the map it is given; with the default empty map it is well formed and empty |
| `ItemCollections.ItemCollection.AddItem` | todo.cli.app/src/items/ItemCollection.ts:7-11 | a fresh incomplete item with the task is stored under the effective id, replacing any item there; every other key keeps its object; the name is untouched; well-formedness is kept |
| `ItemCollections.ItemCollection.CompleteTask` | todo.cli.app/src/items/ItemCollection.ts:13-18 | the keys and their objects stay the same; the item under the id (if any) becomes complete; ids and tasks never change; only objects identical to that item change; on a well-formed collection the result is `Completed` of the old snapshot |
| `ItemCollections.ItemCollection.RemoveItem` | todo.cli.app/src/items/ItemCollection.ts:20-22 | exactly the key `item.id` is deleted, whatever object is stored there; on a well-formed collection the item is no longer held |
| `ItemCollections.App` | todo.cli.app/src/app.ts:3-9 | after adding "Learn TS" under id 1 to "Work" and completing id 1, the collection holds exactly that item, complete |
| `Iterable.OrderedMap.Set` | tsc_types/src/generics/iterable.ts:14 | setting a key stores the value under it, leaves the other keys' values alone, keeps the position of a key already present and appends a new key at the end |
| `Iterable.OrderedMap.Get` | tsc_types/src/generics/iterable.ts:18 | lookup finds a value exactly when the key is present, and it is the stored one |
| `Iterable.OrderedMap.Size` | tsc_types/src/generics/iterable.ts:22 | the size is the number of distinct keys |
| `Iterable.OrderedMap.Values` | tsc_types/src/generics/iterable.ts:26 | the values come one per key, in key order |
| `Iterable.AddAllGetLast` | tsc_types/src/generics/iterable.ts:13-15 | after `add`, a name holds the last of the added items that carries it |
| `Iterable.AddAllGetOther` | tsc_types/src/generics/iterable.ts:13-15 | after `add`, a name that no added item carries holds what it held before |
| `Iterable.AddAllKeys` | tsc_types/src/generics/iterable.ts:13-15 | `add` keeps the old names, in their order, as a prefix of the key order, and the stored names are the old ones plus the added ones |
| `Iterable.CountIsDistinctNames` | tsc_types/src/generics/iterable.ts:21-23 | the count of a collection built from items is the number of distinct names among them |
| `Iterable.AddAllFreshNames` | tsc_types/src/generics/iterable.ts:13-23 | adding items with new, pairwise distinct names grows the count by their number |
| `Iterable.Collection.constructor` | tsc_types/src/generics/iterable.ts:8-11 | constructing with initial items gives the same map as constructing empty and then adding them |
| `Iterable.Collection.Add` | tsc_types/src/generics/iterable.ts:13-15 | the map becomes `AddAll` of the old map and the items, in argument order, and every item stays stored under its own name |
| `Iterable.Collection.Get` | tsc_types/src/generics/iterable.ts:17-19 | lookup finds nothing exactly when no stored item has the name, and otherwise the item stored under that name, which carries it |
| `Iterable.Collection.Count` | tsc_types/src/generics/iterable.ts:21-23 | the count is the number of distinct names stored |
| `Iterable.Collection.Values` | tsc_types/src/generics/iterable.ts:25-31 | `values()` and `superValues()` give every stored item exactly once, in first-insertion order of names |
| `CollectionsBasic.Insert` | tsc_types/src/generics/collections.basic.ts:9 | adding to a set keeps it duplicate-free, keeps the earlier items as a prefix and holds exactly the old items and the new one |
| `CollectionsBasic.InsertAllContents` | tsc_types/src/generics/collections.basic.ts:5-10 | adding items one by one keeps the set duplicate-free, keeps the earlier items in place and holds exactly the old and the added items |
| `CollectionsBasic.InsertAllPresent` | tsc_types/src/generics/collections.basic.ts:8-10 | adding items already held changes nothing, so the count stays the same |
| `CollectionsBasic.TwoItemsSameNameBothKept` | tsc_types/src/generics/collections.basic.ts:8-10 | two distinct new items that share a name are both kept: the count grows by two |
| `CollectionsBasic.CountIsDistinctItems` | tsc_types/src/generics/collections.basic.ts:14-16 | the count of a collection built from items is the number of distinct items among them |
| `CollectionsBasic.Collection.constructor` | tsc_types/src/generics/collections.basic.ts:5-7 | initial items are deduplicated exactly as if they were added one by one |
| `CollectionsBasic.Collection.Add` | tsc_types/src/generics/collections.basic.ts:8-10 | the items become `InsertAll` of the old items and the new ones, still duplicate-free |
| `CollectionsBasic.Collection.Get` | tsc_types/src/generics/collections.basic.ts:11-13 | lookup finds nothing exactly when no item has the name, and otherwise the earliest-inserted item with that name |
| `CollectionsBasic.Collection.Count` | tsc_types/src/generics/collections.basic.ts:14-16 | the count is the number of distinct items held |
| `Interfaces.ArrayCollection.constructor` | tsc_types/src/generics/interfaces.ts:38 | a new collection is empty |
| `Interfaces.ArrayCollection.Add` | tsc_types/src/generics/interfaces.ts:39 | the new items follow the old ones in argument order, the old ones stay in place, and the count grows by the number of items |
| `Interfaces.ArrayCollection.Get` | tsc_types/src/generics/interfaces.ts:40 | lookup finds nothing exactly when no item has the name, and otherwise the first item in array order with that name |
| `Interfaces.ArrayCollection.Count` | tsc_types/src/generics/interfaces.ts:41 | the count is the array length, repeated items included |
| `Interfaces.AddDuplicates` | tsc_types/src/generics/interfaces.ts:39-41 | adding the same item twice gives a count of two, and `get` of its name finds it |
| `Sequences.Find` | tsc_types/src/generics/collections.basic.ts:12 | `find` yields nothing exactly when no element passes, and otherwise the first element that passes |
| `Sequences.Filter` | tsc_types/src/generics/generics.ts:61 | `filter` yields a subsequence of the input whose elements all pass, as long as the number of passing input elements |
| `Sequences.FilterIsUnique` | tsc_types/src/generics/generics.ts:61 | those three facts leave `filter` no other answer: it is exactly the passing elements in their original order |
| `Sequences.FilterAppend` | tsc_types/src/generics/generics.ts:71-72 | filtering a concatenation filters each part |
| `Sequences.Map` | tsc_types/src/generics/generics.ts:15 | `map` keeps the length and maps each element at its own position |
| `Generics.PeopleCollection.constructor` | tsc_types/src/generics/generics.ts:10-12 | the initial items are stored in their given order |
| `Generics.PeopleCollection.Add` | tsc_types/src/generics/generics.ts:14 | the item is appended, the new length is returned, the item is found at the last index and the earlier indices are unchanged |
| `Generics.PeopleCollection.GetNames` | tsc_types/src/generics/generics.ts:15 | the names are as many as the items and the i-th is the name of the i-th item |
| `Generics.PeopleCollection.GetItem` | tsc_types/src/generics/generics.ts:16 | indexing yields the i-th item exactly when 0 <= i < length, and nothing otherwise |
| `Generics.DataCollection.constructor` | tsc_types/src/generics/generics.ts:36 | the initial items are stored in their given order |
| `Generics.DataCollection.Add` | tsc_types/src/generics/generics.ts:37 | the item is appended, the new length is returned, the item is found at the last index and the earlier indices are unchanged |
| `Generics.DataCollection.GetItem` | tsc_types/src/generics/generics.ts:38 | indexing yields the i-th item exactly when 0 <= i < length, and nothing otherwise |
| `Generics.GuardedDataCollection.constructor` | tsc_types/src/generics/generics.ts:56-58 | the initial items are stored in their given order |
| `Generics.GuardedDataCollection.Filter` | tsc_types/src/generics/generics.ts:60-62 | the result is exactly the items the guard accepts, in original order, and no longer than the collection; the stored items are only read |
| `Generics.FilterPeople` | tsc_types/src/generics/generics.ts:65-72 | filtering people followed by products with the `instanceof Person` guard yields exactly the people |

## Left out

- `ItemCollection` has only `addItem`, `completeTask`, `removeItem` and `generateID` (todo.cli.app/src/items/ItemCollection.ts:7-26); it has no listing, counting, bulk removal or lookup by id, and it accepts any task text, so the model has none of these either.
- Console output: `printDetails` (todo.cli.app/src/items/Item.ts:7-9) is modelled only through its "Yes"/"No" completion text; the logging in the demo functions is not modelled.
- `Math.random` itself: the random draw is a parameter of `AddItem` and `GenerateID`.
- JavaScript numbers are modelled as integers for ids and indices; `NaN`, fractional and infinite ids or indices are not modelled.
- `ItemCollection.toDoItems` is a map value: the insertion order of the JavaScript `Map` is not modelled (no `ItemCollection` operation iterates it), nor is sharing of the `Map` object with whoever passed it to the constructor.
- The generic collections read an item's name through `nameOf`, a fixed function of the item; renaming an item after it is stored is not modelled.
- `values()` and `superValues()` return iterators; the model gives the sequence they would yield.
- `filter`'s result type `V[]` (the guard's narrowed type) is not expressible for a generic `T`; the result is a `seq<T>` whose elements all pass the guard.
- The `Person` and `Product` classes come from a file that is not part of this model; they are the datatype `Generics.PeopleType`, with a product's price as a `real` that is only stored.
- The `Something` stub in tsc_types/src/generics/interfaces.ts:18-27 has no behaviour to state.
- todo.cli.app/src/item.ts is an unused duplicate of `ToDoItem` whose constructor assigns nothing.
- Type-level demonstrations with no runtime behaviour (conditional and mapped types, index types, object and union types, class and interface demos, constructor functions, arrays).
- `Collection.total`, `calculateTax` and `headerText`: they rest on floating-point arithmetic, `toFixed` and JavaScript's coercions.
- Decorators, DOM and JSX construction, browser bootstrapping, the Express/json-server backend and the webpack configuration: metaprogramming, I/O and configuration.
