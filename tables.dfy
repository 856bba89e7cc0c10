/**
 * The PHP array operations Collection.php relies on, as functions on
 * `Table`: key lookup, assignment `$a[$k] = $v`, append `$a[] = $v`,
 * `unset($a[$k])`; and the two recursive conversions of the class, the
 * constructor's wrapping of nested arrays and the unwrapping done by `to_a`.
 */
module Tables {
  import opened Values

  /** Where key k sits among the entries, if anywhere. */
  function IndexOf(es: seq<(Key, Value)>, k: Key): (r: Option<nat>)
    ensures r.Some? ==> r.value < |es| && es[r.value].0 == k
    ensures r.None? <==> forall j :: 0 <= j < |es| ==> es[j].0 != k
  {
    if es == [] then None
    else if es[0].0 == k then Some(0)
    else match IndexOf(es[1..], k)
      case None => None
      case Some(j) => Some(j + 1)
  }

  /** The set of keys in use. */
  function KeySet(es: seq<(Key, Value)>): set<Key>
  {
    set j | 0 <= j < |es| :: es[j].0
  }

  /** The keys in order, as `array_keys` lists them. */
  function KeysOf(es: seq<(Key, Value)>): (ks: seq<Key>)
    ensures |ks| == |es| && forall j :: 0 <= j < |es| ==> ks[j] == es[j].0
  {
    if es == [] then [] else [es[0].0] + KeysOf(es[1..])
  }

  /** Reading `$a[$k]`: the stored value, or null when k is not a key. */
  function Lookup(es: seq<(Key, Value)>, k: Key): (v: Value)
    ensures (forall j :: 0 <= j < |es| ==> es[j].0 != k) ==> v == Null
    ensures DistinctKeys(es) ==> forall j :: 0 <= j < |es| && es[j].0 == k ==> v == es[j].1
  {
    match IndexOf(es, k)
    case Some(i) => es[i].1
    case None => Null
  }

  /** `$a[$k] = $v`: overwrites in place when k is a key, otherwise appends. */
  function Store(es: seq<(Key, Value)>, k: Key, v: Value): (r: seq<(Key, Value)>)
    requires DistinctKeys(es)
    ensures DistinctKeys(r)
    ensures (forall j :: 0 <= j < |es| ==> es[j].0 != k) ==> r == es + [(k, v)]
    ensures forall j :: 0 <= j < |es| && es[j].0 == k ==> r == es[j := (k, v)]
  {
    match IndexOf(es, k)
    case Some(i) => es[i := (k, v)]
    case None => es + [(k, v)]
  }

  /** `unset($a[$k])`: drops the entry for k, if any, and keeps the others in order. */
  function Delete(es: seq<(Key, Value)>, k: Key): (r: seq<(Key, Value)>)
    requires DistinctKeys(es)
    ensures DistinctKeys(r)
    ensures forall j :: 0 <= j < |r| ==> r[j].0 != k && r[j] in es
    ensures (forall j :: 0 <= j < |es| ==> es[j].0 != k) ==> r == es
    ensures forall j :: 0 <= j < |es| && es[j].0 == k ==> r == es[..j] + es[j + 1..]
  {
    match IndexOf(es, k)
    case Some(i) =>
      var r := es[..i] + es[i + 1..];
      assert forall a :: 0 <= a < |r| ==> r[a] == es[if a < i then a else a + 1];
      r
    case None => es
  }

  /** Reference definition of removal: every entry whose key is not k, in order. */
  function Without(es: seq<(Key, Value)>, k: Key): seq<(Key, Value)>
  {
    if es == [] then []
    else if es[0].0 == k then Without(es[1..], k)
    else [es[0]] + Without(es[1..], k)
  }

  /** PHP's next-free-element rule: an integer key at or above the counter moves it past that key. */
  function NextFree(next: int, k: Key): (r: int)
    ensures next <= r
    ensures k.IntKey? ==> k.i < r
    ensures r == next || (k.IntKey? && r == k.i + 1)
  {
    if k.IntKey? && k.i >= next then k.i + 1 else next
  }

  /** `$a[$k] = $v` on the whole array, next free index included. */
  function Assign(t: Table, k: Key, v: Value): (r: Table)
    requires TableOk(t)
    ensures TableOk(r)
    ensures k.IntKey? && k.i >= t.nextIndex ==> r.nextIndex == k.i + 1
    ensures !(k.IntKey? && k.i >= t.nextIndex) ==> r.nextIndex == t.nextIndex
  {
    Table(Store(t.entries, k, v), NextFree(t.nextIndex, k))
  }

  /**
   * What `set($key, $value)` does to `$data` once the value is wrapped:
   * a null key is `$data[] = $value`, any other key `$data[$key] = $value`.
   */
  function Put(t: Table, key: Option<Key>, v: Value): (r: Table)
    requires TableOk(t)
    ensures TableOk(r)
    ensures key.None? ==> r == Table(t.entries + [(IntKey(t.nextIndex), v)], t.nextIndex + 1)
    ensures forall j :: 0 <= j < |t.entries| && key == Some(t.entries[j].0) ==>
      r == Table(t.entries[j := (t.entries[j].0, v)], t.nextIndex)
    ensures key.Some? && (forall j :: 0 <= j < |t.entries| ==> t.entries[j].0 != key.value) ==>
      r.entries == t.entries + [(key.value, v)]
    ensures key.Some? && key.value.IntKey? && key.value.i >= t.nextIndex ==> r.nextIndex == key.value.i + 1
    ensures key.Some? && !(key.value.IntKey? && key.value.i >= t.nextIndex) ==> r.nextIndex == t.nextIndex
  {
    match key
    case None => Assign(t, IntKey(t.nextIndex), v)
    case Some(k) => Assign(t, k, v)
  }

  /** `is_array($value) ? new Collection($value) : $value`, applied recursively. */
  function Wrap(v: Value): (r: Value)
    ensures !v.Arr? ==> r == v
    ensures v.Arr? ==> r.Coll? && TableOk(r.data) && |r.data.entries| <= |v.entries|
    decreases v
  {
    match v
    case Arr(es) => Coll(Build(es, |es|))
    case _ => v
  }

  /** The `$data` the constructor's loop has built after the first n entries of its argument. */
  function Build(es: seq<(Key, Value)>, n: nat): (t: Table)
    requires n <= |es|
    ensures TableOk(t)
    ensures |t.entries| <= n
    decreases Arr(es), n
  {
    if n == 0 then Table([], 0)
    else Assign(Build(es, n - 1), es[n - 1].0, Wrap(es[n - 1].1))
  }

  /** The entries the constructor iterates over: an array's own, or `[0 => arg]` otherwise. */
  function Items(arg: Value): (items: seq<(Key, Value)>)
    ensures arg.Arr? ==> items == arg.entries
    ensures !arg.Arr? ==> items == [(IntKey(0), arg)]
    ensures Input(arg) ==> DistinctKeys(items) && forall i :: 0 <= i < |items| ==> Input(items[i].1)
  {
    if arg.Arr? then arg.entries else [(IntKey(0), arg)]
  }

  /** `$data` right after `new Collection($arg)`. */
  ghost function Construct(arg: Value): (t: Table)
    ensures TableOk(t)
    ensures DistinctKeys(Items(arg)) ==> t.entries == Wrapped(Items(arg))
  {
    var items := Items(arg);
    if DistinctKeys(items) then
      BuildEntries(items, |items|);
      assert items[..|items|] == items;
      Build(items, |items|)
    else
      Build(items, |items|)
  }

  /** `new Collection($x)` for a non-array `$x` stores `[0 => $x]`, with next free index 1. */
  lemma ConstructScalar(arg: Value)
    requires !arg.Arr?
    ensures Construct(arg) == Table([(IntKey(0), arg)], 1)
  {
    assert Build(Items(arg), 1) == Assign(Build(Items(arg), 0), IntKey(0), arg);
  }

  /** `$value instanceof static ? $value->to_a() : $value`. */
  function Unwrap(v: Value): (r: Value)
    ensures !v.Coll? ==> r == v
    ensures v.Coll? ==> r.Arr? && |r.entries| == |v.data.entries|
    ensures v.Coll? ==> forall i :: 0 <= i < |v.data.entries| ==> r.entries[i].0 == v.data.entries[i].0
    decreases v, 1
  {
    match v
    case Coll(t) => Arr(Export(t))
    case _ => v
  }

  /** The array `to_a` returns for a Collection whose `$data` is t. */
  function Export(t: Table): (es: seq<(Key, Value)>)
    ensures |es| == |t.entries|
    ensures forall i :: 0 <= i < |es| ==> es[i].0 == t.entries[i].0
    decreases Coll(t), 0
  {
    seq(|t.entries|, i requires 0 <= i < |t.entries| => (t.entries[i].0, Unwrap(t.entries[i].1)))
  }

  /** The entries with every value wrapped, keys and order untouched. */
  function Wrapped(es: seq<(Key, Value)>): seq<(Key, Value)>
  {
    seq(|es|, i requires 0 <= i < |es| => (es[i].0, Wrap(es[i].1)))
  }

  /** The list `array_keys` makes of ks: `[0 => ks[0], 1 => ks[1], ...]`. */
  function KeyList(ks: seq<Key>): seq<(Key, Value)>
  {
    seq(|ks|, i requires 0 <= i < |ks| => (IntKey(i), KeyValue(ks[i])))
  }

  // ---------------------------------------------------------------------------
  // Lemmas

  /** Reading back after an assignment: the new value under k, the old ones elsewhere. */
  lemma LookupStore(es: seq<(Key, Value)>, k: Key, v: Value, k': Key)
    requires DistinctKeys(es)
    ensures Lookup(Store(es, k, v), k') == if k' == k then v else Lookup(es, k')
  {
    var r := Store(es, k, v);
    if k' == k {
      if i :| 0 <= i < |es| && es[i].0 == k {
        assert r[i] == (k, v);
      } else {
        assert r[|es|] == (k, v);
      }
    } else {
      assert forall a :: 0 <= a < |r| && r[a].0 == k' ==> a < |es| && r[a] == es[a];
      assert forall a :: 0 <= a < |es| && es[a].0 == k' ==> r[a] == es[a];
    }
  }

  /** Reading back after `unset`: null under k, the old values elsewhere. */
  lemma LookupDelete(es: seq<(Key, Value)>, k: Key, k': Key)
    requires DistinctKeys(es)
    ensures Lookup(Delete(es, k), k') == if k' == k then Null else Lookup(es, k')
  {
    var r := Delete(es, k);
    if k' != k {
      if i :| 0 <= i < |es| && es[i].0 == k {
        assert r == es[..i] + es[i + 1..];
        if j :| 0 <= j < |es| && es[j].0 == k' {
          var a := if j < i then j else j - 1;
          assert r[a] == es[j];
        } else {
          assert forall a :: 0 <= a < |r| ==> r[a] in es;
        }
      }
    }
  }

  /** Without k, a list that never mentions k is left as it is. */
  lemma {:induction false} WithoutAbsent(es: seq<(Key, Value)>, k: Key)
    requires forall j :: 0 <= j < |es| ==> es[j].0 != k
    ensures Without(es, k) == es
  {
    if es != [] {
      WithoutAbsent(es[1..], k);
      assert [es[0]] + es[1..] == es;
    }
  }

  /** Filtering out a key held by exactly one entry, at position i, cuts out that entry. */
  lemma {:induction false} WithoutOne(es: seq<(Key, Value)>, k: Key, i: nat)
    requires i < |es| && es[i].0 == k
    requires forall j :: 0 <= j < |es| && j != i ==> es[j].0 != k
    ensures Without(es, k) == es[..i] + es[i + 1..]
  {
    var tail := es[1..];
    if i == 0 {
      WithoutAbsent(tail, k);
    } else {
      forall j | 0 <= j < |tail| && j != i - 1
        ensures tail[j].0 != k
      {
        assert tail[j] == es[j + 1];
      }
      WithoutOne(tail, k, i - 1);
      assert es[..i] == [es[0]] + tail[..i - 1];
      assert es[i + 1..] == tail[i..];
    }
  }

  /** `unset` removes exactly the entries keyed k and keeps the rest in their order. */
  lemma DeleteIsWithout(es: seq<(Key, Value)>, k: Key)
    requires DistinctKeys(es)
    ensures Delete(es, k) == Without(es, k)
  {
    if i :| 0 <= i < |es| && es[i].0 == k {
      WithoutOne(es, k, i);
    } else {
      WithoutAbsent(es, k);
    }
  }

  /** With distinct keys, the number of entries is the number of keys in use. */
  lemma {:induction false} DistinctKeyCount(es: seq<(Key, Value)>)
    requires DistinctKeys(es)
    ensures |KeySet(es)| == |es|
  {
    if es != [] {
      DistinctKeyCount(es[1..]);
      assert KeySet(es) == {es[0].0} + KeySet(es[1..]);
      assert es[0].0 !in KeySet(es[1..]);
    }
  }

  /** Wrapping one entry more of a prefix appends that entry, wrapped. */
  lemma WrappedSnoc(es: seq<(Key, Value)>, n: nat)
    requires 0 < n <= |es|
    ensures Wrapped(es[..n]) == Wrapped(es[..n - 1]) + [(es[n - 1].0, Wrap(es[n - 1].1))]
  {
    var lhs, rhs := Wrapped(es[..n]), Wrapped(es[..n - 1]) + [(es[n - 1].0, Wrap(es[n - 1].1))];
    assert |lhs| == |rhs| == n;
    forall j | 0 <= j < n
      ensures lhs[j] == rhs[j]
    {
      if j < n - 1 {
        assert es[..n][j] == es[..n - 1][j];
      }
    }
  }

  /** One step of the constructor's loop on a key the prefix does not hold appends the entry. */
  lemma BuildStep(es: seq<(Key, Value)>, n: nat)
    requires DistinctKeys(es) && 0 < n <= |es|
    requires Build(es, n - 1).entries == Wrapped(es[..n - 1])
    ensures Build(es, n).entries == Build(es, n - 1).entries + [(es[n - 1].0, Wrap(es[n - 1].1))]
  {
    var k, w := es[n - 1].0, Wrap(es[n - 1].1);
    var prev := Build(es, n - 1).entries;
    assert Build(es, n) == Assign(Build(es, n - 1), k, w);
    forall j | 0 <= j < |prev|
      ensures prev[j].0 != k
    {
      assert prev[j].0 == es[..n - 1][j].0 == es[j].0;
    }
  }

  /** The constructor keeps the keys and the order of its argument and wraps each value. */
  lemma {:induction false} BuildEntries(es: seq<(Key, Value)>, n: nat)
    requires DistinctKeys(es) && n <= |es|
    ensures Build(es, n).entries == Wrapped(es[..n])
  {
    if n > 0 {
      BuildEntries(es, n - 1);
      BuildStep(es, n);
      WrappedSnoc(es, n);
    }
  }

  /**
   * The constructor's next free index is 0 or one past an integer key it
   * stored; with `TableOk` this pins it to max(0, largest integer key + 1).
   */
  lemma {:induction false} BuildNext(es: seq<(Key, Value)>, n: nat)
    requires n <= |es|
    ensures Build(es, n).nextIndex == 0 ||
      exists j :: 0 <= j < n && es[j].0.IntKey? && Build(es, n).nextIndex == es[j].0.i + 1
  {
    if n > 0 {
      BuildNext(es, n - 1);
      var prev, k := Build(es, n - 1), es[n - 1].0;
      assert Build(es, n) == Assign(prev, k, Wrap(es[n - 1].1));
      if !(k.IntKey? && k.i >= prev.nextIndex) && prev.nextIndex != 0 {
        var j :| 0 <= j < n - 1 && es[j].0.IntKey? && prev.nextIndex == es[j].0.i + 1;
        assert Build(es, n).nextIndex == es[j].0.i + 1;
      }
    }
  }

  /**
   * `new Collection($a)` for an array leaves the next free index above every
   * integer key of `$a`, and at 0 or one past one of them: the next `add`
   * takes max(0, largest integer key + 1).
   */
  lemma ConstructNext(es: seq<(Key, Value)>)
    requires DistinctKeys(es)
    ensures forall j :: 0 <= j < |es| && es[j].0.IntKey? ==> es[j].0.i < Construct(Arr(es)).nextIndex
    ensures Construct(Arr(es)).nextIndex == 0 ||
      exists j :: 0 <= j < |es| && es[j].0.IntKey? && Construct(Arr(es)).nextIndex == es[j].0.i + 1
  {
    var t := Construct(Arr(es));
    assert t == Build(es, |es|);
    BuildNext(es, |es|);
    forall j | 0 <= j < |es| && es[j].0.IntKey?
      ensures es[j].0.i < t.nextIndex
    {
      assert t.entries[j].0 == Wrapped(es)[j].0 == es[j].0;
    }
  }

  /** Wrapping an array keeps its keys and their order and wraps each value in turn. */
  lemma WrapArray(es: seq<(Key, Value)>)
    requires DistinctKeys(es)
    ensures Wrap(Arr(es)).Coll? && Wrap(Arr(es)).data.entries == Wrapped(es)
  {
    BuildEntries(es, |es|);
    assert es[..|es|] == es;
  }

  /** Wrapping a plain value and unwrapping it again gives it back. */
  lemma {:induction false} UnwrapWrap(v: Value)
    requires Plain(v)
    ensures Unwrap(Wrap(v)) == v
    decreases v
  {
    match v
    case Arr(es) =>
      BuildEntries(es, |es|);
      assert es[..|es|] == es;
      var t := Build(es, |es|);
      forall i | 0 <= i < |es|
        ensures Unwrap(Wrap(es[i].1)) == es[i].1
      {
        UnwrapWrap(es[i].1);
      }
      assert Export(t) == es;
    case _ =>
  }

  /** `to_a(new Collection($a))` is `$a` for a plain nested array, and `[0 => $a]` for any other plain value. */
  lemma ToAOfConstruct(arg: Value)
    requires Plain(arg)
    ensures Export(Construct(arg)) == Items(arg)
  {
    if arg.Arr? {
      UnwrapWrap(arg);
    } else {
      var t := Construct(arg);
      var items := Items(arg);
      assert items == [(IntKey(0), arg)];
      assert Wrap(arg) == arg;
      assert t == Build(items, 1) == Assign(Build(items, 0), IntKey(0), arg);
      assert t.entries == [(IntKey(0), arg)];
      assert Export(t)[0] == (IntKey(0), arg);
    }
  }

  /** Assigning a stored value keeps a Collection's `$data` well formed and free of plain arrays. */
  lemma PutNormal(t: Table, key: Option<Key>, v: Value)
    requires Normal(Coll(t)) && Normal(v)
    ensures Normal(Coll(Put(t, key, v)))
  {
    var r := Put(t, key, v);
    forall j | 0 <= j < |r.entries|
      ensures Normal(r.entries[j].1)
    {
      if j < |t.entries| && r.entries[j] != t.entries[j] {
        assert r.entries[j].1 == v;
      }
    }
  }

  /** Unsetting a key keeps a Collection's `$data` well formed and free of plain arrays. */
  lemma DeleteNormal(t: Table, k: Key)
    requires Normal(Coll(t))
    ensures Normal(Coll(Table(Delete(t.entries, k), t.nextIndex)))
  {
    var r := Delete(t.entries, k);
    forall j | 0 <= j < |r|
      ensures Normal(r[j].1) && (r[j].0.IntKey? ==> r[j].0.i < t.nextIndex)
    {
      var a :| 0 <= a < |t.entries| && t.entries[a] == r[j];
    }
  }

  /** Everything the constructor or `set` stores is normal: every array became a Collection. */
  lemma {:induction false} WrapNormal(v: Value)
    requires Input(v)
    ensures Normal(Wrap(v))
    decreases v
  {
    match v
    case Arr(es) =>
      BuildNormal(es, |es|);
    case _ =>
  }

  lemma {:induction false} BuildNormal(es: seq<(Key, Value)>, n: nat)
    requires n <= |es|
    requires forall i :: 0 <= i < |es| ==> Input(es[i].1)
    ensures forall j :: 0 <= j < |Build(es, n).entries| ==> Normal(Build(es, n).entries[j].1)
    decreases Arr(es), n
  {
    if n > 0 {
      BuildNormal(es, n - 1);
      WrapNormal(es[n - 1].1);
    }
  }

  /**
   * `new Collection($arg)` on any input is what its loop has built once every
   * item is in, and stores no plain array at any depth.
   */
  lemma ConstructNormal(arg: Value)
    requires Input(arg)
    ensures Construct(arg) == Build(Items(arg), |Items(arg)|)
    ensures Normal(Coll(Construct(arg)))
  {
    var items := Items(arg);
    BuildNormal(items, |items|);
  }

  /** `to_a` yields a plain array: no Collection is left anywhere inside it. */
  lemma {:induction false} UnwrapPlain(v: Value)
    requires Normal(v)
    ensures Plain(Unwrap(v))
    decreases v, 1
  {
    match v
    case Coll(t) => ExportPlain(t);
    case _ =>
  }

  lemma {:induction false} ExportPlain(t: Table)
    requires Normal(Coll(t))
    ensures Plain(Arr(Export(t)))
    decreases Coll(t), 0
  {
    var es := Export(t);
    forall i | 0 <= i < |es|
      ensures Plain(es[i].1)
    {
      UnwrapPlain(t.entries[i].1);
    }
  }

  /** Building from the list 0, 1, 2, ... leaves the next free index just past its last key. */
  lemma {:induction false} BuildKeyListNext(ks: seq<Key>, n: nat)
    requires n <= |ks|
    ensures Build(KeyList(ks), n).nextIndex == n
  {
    if n > 0 {
      BuildKeyListNext(ks, n - 1);
    }
  }

  /** `new Collection(array_keys(...))` stores exactly the list of keys. */
  lemma ConstructKeyList(ks: seq<Key>)
    ensures Input(Arr(KeyList(ks)))
    ensures Construct(Arr(KeyList(ks))) == Table(KeyList(ks), |ks|)
  {
    var es := KeyList(ks);
    BuildEntries(es, |es|);
    BuildKeyListNext(ks, |ks|);
    assert es[..|es|] == es;
  }
}
