# Datatype\Collection in Dafny

This project models `Datatype\Collection`, the `Collection` class of the
Datatypes PHP library. A Collection is a mutable, insertion-ordered PHP array
(`$data`) whose keys are integers or strings. Every nested array it is
given becomes a nested Collection, and `to_a` turns those back into plain
arrays. The class offers map operations (`get`, `set`, `add`, `remove`,
`exists`, `keys`, `first`, `last`, `count`), the four `ArrayAccess` methods,
and a `SeekableIterator` cursor. The cursor walks a snapshot of the key
list, taken by `rewind`.

Files:

- `values.dfy` (module `Values`) holds the PHP values the class
  distinguishes (`Value`) and the PHP array itself (`Table`). A `Table` is
  the ordered entries plus the next free integer key that `$a[] = $v`
  uses. The module also defines the predicates `Normal` (what the class
  stores: no plain array at any depth), `Plain` (what `to_a` returns: no
  Collection at any depth) and `Input` (what a caller can pass in).
- `tables.dfy` (module `Tables`) holds the PHP array operations the class
  uses, as functions: lookup, assignment, append, `unset`. It also holds
  the constructor's recursive wrapping (`Wrap`, `Build`), the recursive
  unwrapping done by `to_a` (`Unwrap`, `Export`), and the lemmas about
  all of these.
- `collection.dfy` (module `Collections`) holds the class. Its fields are
  `data` (`$data`), `iteratorKeys` (`$iterator_keys`) and
  `iteratorPosition` (`$iterator_position`). The constructor and `to_a`
  keep their `foreach` loops, proved against `Construct` and `Export`.
  The methods that mutate state say exactly what the new `data` and
  cursor are. The read-only queries are functions of the state.

Decisions where the code leaves a choice open or PHP's behaviour needs
pinning down:

- `exists` follows the code's `isset`. A key stored with a null value
  does not exist, and `get` returns null for it, just as for an absent key.
- The next free integer key follows the PHP engine's rule before PHP 8.3.
  It starts at 0. Storing an integer key at or above it moves it to that
  key plus one. `unset` never lowers it. So a negative key never makes
  append pick a negative key. The code accepts any integer key.
- `current` reads the live `$data` under the snapshot key. A key removed
  since `rewind` reads as null (PHP raises a notice, a warning since PHP 8.0, and yields null).
  Once the cursor is past the end, the code reads `$data[null]`, which PHP
  treats as `$data[""]`. The model does the same.
- `key` past the end yields null (`None`).
- `seek` does not throw. It returns `Some(InvalidSeek(position))` and
  leaves the cursor alone.

## Model

| member | source | states |
|---|---|---|
| `Collections.Collection.constructor` | Datatype/Collection.php:47-57 | A non-array argument becomes `[0 => arg]`. Otherwise every entry is copied in source order and each array value is wrapped. The result is well formed and the cursor starts empty at 0. |
| `Tables.Items` | Datatype/Collection.php:50-53 | The constructor iterates over an array's own entries, and over `[0 => arg]` for any other argument. An input array yields distinct keys whose values are again inputs. |
| `Tables.Construct` | Datatype/Collection.php:47-57 | The `$data` after construction is well formed. For distinct keys, it holds exactly the argument's entries with each value wrapped. |
| `Tables.ConstructScalar` | Datatype/Collection.php:50 | A non-array argument gives `[0 => arg]` with next free index 1. |
| `Tables.Wrap` | Datatype/Collection.php:55 | A non-array value is stored unchanged. An array becomes a Collection whose `$data` is well formed. |
| `Tables.WrapArray` | Datatype/Collection.php:93 | Wrapping an array with distinct keys gives a Collection holding the same keys in the same order, each value wrapped in turn. |
| `Tables.Build` | Datatype/Collection.php:53-56 | Each prefix of the constructor's loop yields a well-formed PHP array (distinct keys, next free index above every integer key) with no more entries than it has read. |
| `Tables.BuildEntries` | Datatype/Collection.php:53-56 | The constructor keeps exactly the argument's keys, in the argument's order, each with its value wrapped. |
| `Tables.BuildNext` | Datatype/Collection.php:53-56 | After any prefix of the constructor's loop, the next free index is 0 or one past an integer key stored so far. |
| `Tables.ConstructNext` | Datatype/Collection.php:47-57 | After `new Collection($a)`, the next free index lies above every integer key of `$a` and is 0 or one past one of them, so it is max(0, largest integer key + 1) and the next `add` uses that key. |
| `Tables.WrapNormal` | Datatype/Collection.php:93 | Wrapping an input value leaves no plain array at any depth: every array became a Collection, recursively. |
| `Tables.BuildNormal` | Datatype/Collection.php:55 | Every value the constructor stores is wrapped in that sense. |
| `Collections.Collection.ToA` | Datatype/Collection.php:64-74 | The loop returns exactly `Export(data)`: same keys, same order, nested Collections unwrapped. The result holds no Collection at any depth. |
| `Tables.Export` | Datatype/Collection.php:64-74 | `to_a` yields one entry per stored entry. |
| `Tables.Unwrap` | Datatype/Collection.php:70 | A value that is not a Collection is returned unchanged. A Collection becomes a plain array with one entry per stored entry and the same keys in the same order. |
| `Tables.ExportPlain` | Datatype/Collection.php:68-71 | For a well-formed Collection, the exported array and all arrays nested in it hold no Collection. |
| `Tables.ConstructNormal` | Datatype/Collection.php:47-57 | For every input, the constructor's loop ends with exactly `Construct`'s table, and no plain array is left at any depth. |
| `Tables.UnwrapPlain` | Datatype/Collection.php:70 | Unwrapping a stored value gives a plain value. |
| `Tables.UnwrapWrap` | Datatype/Collection.php:55 | Unwrapping a wrapped plain value gives it back, at any depth. |
| `Tables.ToAOfConstruct` | Datatype/Collection.php:47-74 | `to_a(new Collection($a))` equals `$a` for every plain nested array, and equals `[0 => $a]` for any other plain value. |
| `Collections.Collection.Exists` | Datatype/Collection.php:76-79 | True iff some entry has the key and a non-null value (`isset`). |
| `Collections.Collection.Keys` | Datatype/Collection.php:81-84 | A fresh, well-formed Collection listing the keys in current order under 0..n-1, with next free index n and an empty cursor at 0. Its count equals this count. |
| `Tables.KeysOf` | Datatype/Collection.php:195 | `array_keys` lists every key, one per entry, in current order. |
| `Tables.ConstructKeyList` | Datatype/Collection.php:83 | Building a Collection from the key list stores exactly that list, and its next free index is the list's length. |
| `Tables.BuildKeyListNext` | Datatype/Collection.php:83 | Building from the list 0..n-1 leaves the next free index at n. |
| `Collections.Collection.Get` | Datatype/Collection.php:86-89 | A non-null result is the value stored under the key. The result is null exactly when the key does not exist in the `isset` sense. |
| `Tables.Lookup` | Datatype/Collection.php:88 | Null when the key is absent. Otherwise, with distinct keys, the value of the entry holding the key. |
| `Collections.Collection.Set` | Datatype/Collection.php:91-102 | Returns the same object. The new `$data` is `Put` of the old one with the wrapped value. The snapshot and the position are untouched. |
| `Tables.NextFree` | Datatype/Collection.php:97-99 | The next free index never goes down. It ends above an integer key just stored, and it moves only when it must, to that key plus one. |
| `Tables.Assign` | Datatype/Collection.php:99 | `$data[$key] = $value` leaves the array well formed. An integer key at or above the next free index sets the index to that key plus one. Any other key leaves the index where it was. |
| `Tables.Put` | Datatype/Collection.php:95-99 | A null key appends under the next free index, which then moves up by one. An existing key has only its value replaced: same position, same length, same next free index. A new key is appended at the end. After a new or existing key, the next free index becomes the key plus one when it is an integer at or above the index, and otherwise stays put. The array stays well formed. |
| `Tables.Store` | Datatype/Collection.php:99 | Assignment overwrites in place when the key exists, otherwise appends. Keys stay distinct. |
| `Tables.LookupStore` | Datatype/Collection.php:91-102 | After `set(k, v)`, reading k yields v and reading any other key yields what it did before. |
| `Tables.PutNormal` | Datatype/Collection.php:91-102 | `set` keeps `$data` well formed and free of plain arrays at any depth. |
| `Collections.Collection.Add` | Datatype/Collection.php:104-108 | Appends the wrapped value under the old next free index, and the index moves up by one. Nothing else changes. |
| `Collections.Collection.Remove` | Datatype/Collection.php:110-115 | Returns the same object. The entries become `Delete` of the old ones. The next free index and the cursor are untouched. |
| `Tables.Delete` | Datatype/Collection.php:112 | The key is gone and keys stay distinct. An absent key is a no-op. A present key at position j leaves exactly the entries before j followed by the entries after j. |
| `Tables.DeleteIsWithout` | Datatype/Collection.php:110-115 | Removing a key equals filtering out the entries with that key. Every other entry keeps its value and relative order. |
| `Tables.LookupDelete` | Datatype/Collection.php:110-115 | After `remove(k)`, reading k yields null and reading any other key yields what it did before. |
| `Tables.DeleteNormal` | Datatype/Collection.php:110-115 | `remove` keeps `$data` well formed, below the unchanged next free index, and free of plain arrays. |
| `Tables.WithoutOne` | Datatype/Collection.php:112 | Filtering out a key held by exactly one entry cuts out exactly that entry. |
| `Tables.WithoutAbsent` | Datatype/Collection.php:112 | Unsetting a key that is not present leaves the entries as they are. |
| `Collections.Collection.First` | Datatype/Collection.php:117-120 | False when empty. Otherwise the value that `get` returns for the first key. |
| `Collections.Collection.Last` | Datatype/Collection.php:122-125 | False when empty. Otherwise the value that `get` returns for the last key. |
| `Collections.Collection.Count` | Datatype/Collection.php:130-133 | The count equals the number of distinct keys in use. |
| `Tables.DistinctKeyCount` | Datatype/Collection.php:132 | With distinct keys, the number of entries is the number of keys in use. |
| `Collections.Collection.OffsetSet` | Datatype/Collection.php:142-145 | Same effect as `set`, including append for a null offset. |
| `Collections.Collection.OffsetExists` | Datatype/Collection.php:151-154 | Agrees with `exists`. |
| `Collections.Collection.OffsetUnset` | Datatype/Collection.php:160-163 | Same effect as `remove`. |
| `Collections.Collection.OffsetGet` | Datatype/Collection.php:169-172 | Agrees with `get`. |
| `Collections.Collection.Seek` | Datatype/Collection.php:181-186 | Fails with `InvalidSeek(position)` iff the position is not an index of the snapshot, and then leaves the position alone. Otherwise the cursor moves there and is valid. The data and the snapshot are never changed. |
| `Collections.Collection.Rewind` | Datatype/Collection.php:192-196 | The snapshot becomes the current keys in order and the position becomes 0. The cursor is valid iff the collection is non-empty. The data is unchanged. |
| `Collections.Collection.Current` | Datatype/Collection.php:202-206 | On a valid cursor: the live value under the snapshot key (null if that key was removed). Past the end: the value under the empty-string key. |
| `Collections.Collection.CurrentKey` | Datatype/Collection.php:212-215 | The snapshot key at the position when the position is inside the snapshot, otherwise null. |
| `Collections.Collection.Next` | Datatype/Collection.php:221-224 | Increments the position by one and changes nothing else. |
| `Collections.Collection.CursorValid` | Datatype/Collection.php:230-233 | `valid()` holds exactly when `key()` yields a key. |

## Left out

- The `PropertyMapperTrait` and the `$property_map` aliases (`length`, `size`, `count` read as properties) are left out. The trait is not part of this model.
- The `Object` base class and `Datatype\Exception` are left out. Neither is part of this model. The exception thrown by `seek` is the `SeekError` result.
- PHP key coercion is left out. Numeric strings, floats, booleans and null used as keys are not converted. Keys are taken as already being integers or strings. A null offset passed to `get`, `exists` or `remove` (which PHP reads as `""`) is not modelled. A null key does reach `set`, and there it means append. The position given to `seek` is coerced the same way when PHP looks it up in the key list, so a numeric string such as `"1"` is accepted there; the model takes the position as an integer.
- The constructor's default argument (`$array = []`) is not a separate operation: `new Collection()` is the constructor applied to `Arr([])`.
- Integers are unbounded. The PHP_INT_MAX limit on keys is not modelled, nor the failure of `$a[] = $v` once the next free index is exhausted.
- Since PHP 8.3, a negative key moves the next free index to that key plus one. The model follows the earlier rule, where the index never drops below 0.
- Floats, other objects and resources are one opaque kind of value. They are stored and returned untouched.
- A plain array's own next free index is not modelled. Plain arrays are compared by their entries alone, as PHP's `===` compares them.
- Nested Collections are values, so object identity and aliasing are not modelled. In particular, mutating a nested Collection obtained through `get` does not show up in its parent. The nested Collections' own cursors are not modelled either.
- `to_a` unwraps values with `instanceof static`. The model unwraps every nested Collection, as for an object of class Collection itself. Subclasses are not modelled.
- `first` and `last` move PHP's internal array pointer (`reset`, `end`). The pointer is not modelled, and the class's own cursor does not depend on it.
- The undefined-index notices (warnings since PHP 8.0) PHP emits are not modelled, only the null they yield. They arise when `current` meets a removed key and when `key` or `current` is called past the end.
- PHP's `foreach` drives the iterator through `rewind`, `valid`, `current`, `key` and `next`. The model states each of these calls separately and does not model the dispatch from `foreach` syntax.
