/**
 * The Collection class: an insertion-ordered PHP array `$data` whose nested
 * arrays are themselves Collections, with map operations, an ArrayAccess
 * face, and a seekable iteration cursor over a snapshot of the keys.
 */
module Collections {
  import opened Values
  import opened Tables

  /** The exception `seek` throws; it carries the rejected position. */
  datatype SeekError = InvalidSeek(position: int)

  class Collection {
    /** `$data`: the entries in order and the next free integer key. */
    var data: Table
    /** `$iterator_keys`: the keys as the last `rewind` saw them. */
    var iteratorKeys: seq<Key>
    /** `$iterator_position`: the cursor's index into iteratorKeys. */
    var iteratorPosition: nat

    /** `$data` is a well-formed PHP array holding no plain array at any depth. */
    ghost predicate Valid()
      reads this
    {
      Normal(Coll(data))
    }

    /**
     * `new Collection($arg)`: copies the entries in order, every array value
     * becoming a Collection. `new Collection()` is this with `Arr([])`.
     */
    constructor (arg: Value)
      requires Input(arg)
      ensures Valid()
      ensures data == Construct(arg)
      ensures iteratorKeys == [] && iteratorPosition == 0
    {
      var items := Items(arg);
      var t := Table([], 0);
      var i := 0;
      while i < |items|
        invariant i <= |items|
        invariant t == Build(items, i)
      {
        t := Assign(t, items[i].0, Wrap(items[i].1));
        i := i + 1;
      }
      data := t;
      iteratorKeys := [];
      iteratorPosition := 0;
      ConstructNormal(arg);
    }

    /** `to_a`: the plain nested array, same keys in the same order, Collections unwrapped. */
    method ToA() returns (a: seq<(Key, Value)>)
      requires Valid()
      ensures a == Export(data)
      ensures Plain(Arr(a))
    {
      var acc := Table([], 0);
      var i := 0;
      while i < |data.entries|
        invariant i <= |data.entries|
        invariant TableOk(acc)
        invariant acc.entries == Export(data)[..i]
      {
        var (k, v) := data.entries[i];
        assert forall j :: 0 <= j < |acc.entries| ==> acc.entries[j].0 == data.entries[j].0 != k;
        acc := Assign(acc, k, Unwrap(v));
        i := i + 1;
      }
      a := acc.entries;
      ExportPlain(data);
    }

    /** `exists`: `isset` semantics, so a key stored with a null value does not exist. */
    predicate Exists(k: Key)
      reads this
      requires Valid()
      ensures Exists(k) <==>
        exists j :: 0 <= j < |data.entries| && data.entries[j].0 == k && data.entries[j].1 != Null
    {
      Lookup(data.entries, k) != Null
    }

    /** `get`: the stored value, or null when the key is absent. */
    function Get(k: Key): (v: Value)
      reads this
      requires Valid()
      ensures v != Null ==> (k, v) in data.entries
      ensures v == Null <==> !Exists(k)
    {
      Lookup(data.entries, k)
    }

    /** `keys`: a new Collection listing the keys in order under 0, 1, 2, ... */
    method Keys() returns (c: Collection)
      requires Valid()
      ensures fresh(c) && c.Valid()
      ensures c.data == Table(KeyList(KeysOf(data.entries)), |data.entries|)
      ensures c.iteratorKeys == [] && c.iteratorPosition == 0
      ensures c.Count() == Count()
    {
      ConstructKeyList(KeysOf(data.entries));
      c := new Collection(Arr(KeyList(KeysOf(data.entries))));
    }

    /** `count`: the number of entries, which is the number of distinct keys. */
    function Count(): (n: nat)
      reads this
      requires Valid()
      ensures n == |KeySet(data.entries)|
    {
      DistinctKeyCount(data.entries);
      |data.entries|
    }

    /** `set`: wraps an array value, then appends under the next free index (null key) or assigns. */
    method Set(key: Option<Key>, value: Value) returns (self: Collection)
      requires Valid() && Input(value)
      modifies this
      ensures self == this && Valid()
      ensures data == Put(old(data), key, Wrap(value))
      ensures iteratorKeys == old(iteratorKeys) && iteratorPosition == old(iteratorPosition)
    {
      var v := Wrap(value);
      WrapNormal(value);
      PutNormal(data, key, v);
      if key.None? {
        data := Assign(data, IntKey(data.nextIndex), v);
      } else {
        data := Assign(data, key.value, v);
      }
      self := this;
    }

    /** `add`: `set(null, $value)`, which appends under the next free integer key. */
    method Add(value: Value) returns (self: Collection)
      requires Valid() && Input(value)
      modifies this
      ensures self == this && Valid()
      ensures data == Table(old(data).entries + [(IntKey(old(data).nextIndex), Wrap(value))],
                            old(data).nextIndex + 1)
      ensures iteratorKeys == old(iteratorKeys) && iteratorPosition == old(iteratorPosition)
    {
      self := Set(None, value);
    }

    /** `remove`: unsets the key if present; the next free index is left where it was. */
    method Remove(k: Key) returns (self: Collection)
      requires Valid()
      modifies this
      ensures self == this && Valid()
      ensures data == Table(Delete(old(data).entries, k), old(data).nextIndex)
      ensures iteratorKeys == old(iteratorKeys) && iteratorPosition == old(iteratorPosition)
    {
      DeleteNormal(data, k);
      data := Table(Delete(data.entries, k), data.nextIndex);
      self := this;
    }

    /** `first`: the value in first position, or false when there is none. */
    function First(): (v: Value)
      reads this
      requires Valid()
      ensures data.entries == [] ==> v == Bool(false)
      ensures data.entries != [] ==> v == Get(data.entries[0].0)
    {
      if data.entries == [] then Bool(false) else data.entries[0].1
    }

    /** `last`: the value in last position, or false when there is none. */
    function Last(): (v: Value)
      reads this
      requires Valid()
      ensures data.entries == [] ==> v == Bool(false)
      ensures data.entries != [] ==> v == Get(data.entries[|data.entries| - 1].0)
    {
      if data.entries == [] then Bool(false) else data.entries[|data.entries| - 1].1
    }

    /** `$c[$offset] = $value`, and `$c[] = $value` with a null offset. */
    method OffsetSet(offset: Option<Key>, value: Value) returns (self: Collection)
      requires Valid() && Input(value)
      modifies this
      ensures self == this && Valid()
      ensures data == Put(old(data), offset, Wrap(value))
      ensures iteratorKeys == old(iteratorKeys) && iteratorPosition == old(iteratorPosition)
    {
      self := Set(offset, value);
    }

    /** `isset($c[$key])`. */
    predicate OffsetExists(k: Key)
      reads this
      requires Valid()
      ensures OffsetExists(k) == Exists(k)
    {
      Exists(k)
    }

    /** `unset($c[$offset])`. */
    method OffsetUnset(offset: Key) returns (self: Collection)
      requires Valid()
      modifies this
      ensures self == this && Valid()
      ensures data == Table(Delete(old(data).entries, offset), old(data).nextIndex)
      ensures iteratorKeys == old(iteratorKeys) && iteratorPosition == old(iteratorPosition)
    {
      self := Remove(offset);
    }

    /** `$c[$offset]`. */
    function OffsetGet(offset: Key): (v: Value)
      reads this
      requires Valid()
      ensures v == Get(offset)
    {
      Get(offset)
    }

    /** `seek`: moves the cursor to a position of the snapshot, or fails with that position. */
    method Seek(position: int) returns (failure: Option<SeekError>)
      requires Valid()
      modifies this
      ensures Valid() && data == old(data) && iteratorKeys == old(iteratorKeys)
      ensures failure.None? <==> 0 <= position < |iteratorKeys|
      ensures failure.None? ==> iteratorPosition == position && CursorValid()
      ensures failure.Some? ==>
        failure.value == InvalidSeek(position) && iteratorPosition == old(iteratorPosition)
    {
      if !(0 <= position < |iteratorKeys|) {
        return Some(InvalidSeek(position));
      }
      iteratorPosition := position;
      failure := None;
    }

    /** `rewind`: snapshots the current keys in order and puts the cursor on the first. */
    method Rewind()
      requires Valid()
      modifies this
      ensures Valid() && data == old(data)
      ensures iteratorKeys == KeysOf(data.entries) && iteratorPosition == 0
      ensures CursorValid() <==> data.entries != []
    {
      iteratorPosition := 0;
      iteratorKeys := KeysOf(data.entries);
    }

    /**
     * `current`: the live value under the snapshot key at the cursor, null if
     * that key has since been removed. Off the end, PHP reads `$data[null]`,
     * which is the entry under the empty string.
     */
    function Current(): (v: Value)
      reads this
      requires Valid()
      ensures CursorValid() ==> v == Get(iteratorKeys[iteratorPosition])
      ensures !CursorValid() ==> v == Get(StrKey(""))
    {
      var k := if iteratorPosition < |iteratorKeys| then iteratorKeys[iteratorPosition] else StrKey("");
      Lookup(data.entries, k)
    }

    /** `key`: the snapshot key at the cursor; null off the end. */
    function CurrentKey(): (k: Option<Key>)
      reads this
      ensures k.Some? ==> iteratorPosition < |iteratorKeys| && k.value == iteratorKeys[iteratorPosition]
      ensures k.None? ==> |iteratorKeys| <= iteratorPosition
    {
      if iteratorPosition < |iteratorKeys| then Some(iteratorKeys[iteratorPosition]) else None
    }

    /** `next`: advances the cursor, without looking at the data or the snapshot. */
    method Next()
      requires Valid()
      modifies this
      ensures Valid() && data == old(data) && iteratorKeys == old(iteratorKeys)
      ensures iteratorPosition == old(iteratorPosition) + 1
    {
      iteratorPosition := iteratorPosition + 1;
    }

    /** `valid`: the cursor is on a position of the snapshot, exactly when `key` yields a key. */
    predicate CursorValid()
      reads this
      ensures CursorValid() <==> CurrentKey().Some?
    {
      iteratorPosition < |iteratorKeys|
    }
  }

  /**
   * A short session with the map operations: `add` picks the next integer
   * key and overwriting keeps the position.
   */
  method AppendWalkthrough()
  {
    var c := new Collection(Arr([]));
    var _ := c.Add(Int(10));
    var _ := c.Add(Int(20));
    var _ := c.Set(Some(IntKey(0)), Int(99));
    assert c.data.entries == [(IntKey(0), Int(99)), (IntKey(1), Int(20))];
    var _ := c.Add(Int(30));
    assert c.data.entries[2] == (IntKey(2), Int(30));
  }

  /**
   * A short session with the cursor: a pass begun by `rewind` keeps the
   * keys it saw, even after one of them is removed and another is added.
   */
  method SnapshotWalkthrough(c: Collection)
    requires c.Valid()
    requires c.data == Table([(IntKey(0), Str("a")), (IntKey(1), Str("b"))], 2)
    modifies c
  {
    c.Rewind();
    assert c.iteratorKeys == [IntKey(0), IntKey(1)];
    var _ := c.Remove(IntKey(0));
    assert c.data.entries == [(IntKey(1), Str("b"))];
    var _ := c.Add(Str("c"));
    assert c.data.entries == [(IntKey(1), Str("b")), (IntKey(2), Str("c"))];
    WalkSnapshot(c);
  }

  /**
   * The rest of that pass: the removed key reads as null, the added key is
   * never reached, and seeking past the snapshot fails.
   */
  method WalkSnapshot(c: Collection)
    requires c.Valid() && c.iteratorPosition == 0
    requires c.iteratorKeys == [IntKey(0), IntKey(1)]
    requires c.data.entries == [(IntKey(1), Str("b")), (IntKey(2), Str("c"))]
    modifies c
  {
    assert c.Current() == Null;
    c.Next();
    assert c.CurrentKey() == Some(IntKey(1));
    assert c.Current() == Str("b");
    c.Next();
    assert !c.CursorValid();
    var failure := c.Seek(2);
    assert failure == Some(InvalidSeek(2));
  }
}
