/** The PHP values a Collection stores, and the PHP array it stores them in. */
module Values {

  datatype Option<T> = None | Some(value: T)

  /** An array key: PHP arrays are keyed by integers or by strings. */
  datatype Key = IntKey(i: int) | StrKey(s: string)

  /** A PHP value as far as the Collection distinguishes it. */
  datatype Value =
    | Null
    | Bool(b: bool)
    | Int(i: int)
    | Str(s: string)
      /** any other object, a resource or a float: passed through untouched */
    | Opaque(id: nat)
      /** a plain PHP array, as its entries in order */
    | Arr(entries: seq<(Key, Value)>)
      /** a nested Collection, as the contents of its `$data` array */
    | Coll(data: Table)

  /**
   * The contents of a PHP array as the engine keeps them: the entries in
   * insertion order, and the next free integer key that `$a[] = v` uses.
   */
  datatype Table = Table(entries: seq<(Key, Value)>, nextIndex: int)

  /** An array key as the value `array_keys` returns for it. */
  function KeyValue(k: Key): (v: Value)
    ensures v.Int? || v.Str?
  {
    match k
    case IntKey(i) => Int(i)
    case StrKey(s) => Str(s)
  }

  /** No key occurs twice: what every PHP array guarantees. */
  ghost predicate DistinctKeys(es: seq<(Key, Value)>)
  {
    forall i, j :: 0 <= i < j < |es| ==> es[i].0 != es[j].0
  }

  /** Distinct keys, and a next free index above every integer key stored. */
  ghost predicate TableOk(t: Table)
  {
    && DistinctKeys(t.entries)
    && 0 <= t.nextIndex
    && forall i :: 0 <= i < |t.entries| && t.entries[i].0.IntKey? ==> t.entries[i].0.i < t.nextIndex
  }

  /**
   * A value as a Collection stores it: no plain array anywhere, every array
   * having been replaced by a nested Collection, recursively.
   */
  ghost predicate Normal(v: Value)
    decreases v
  {
    match v
    case Arr(_) => false
    case Coll(t) =>
      TableOk(t) && forall i :: 0 <= i < |t.entries| ==> Normal(t.entries[i].1)
    case _ => true
  }

  /** A value as `to_a` returns it: nested plain arrays, no Collection anywhere. */
  ghost predicate Plain(v: Value)
    decreases v
  {
    match v
    case Coll(_) => false
    case Arr(es) =>
      DistinctKeys(es) && forall i :: 0 <= i < |es| ==> Plain(es[i].1)
    case _ => true
  }

  /**
   * A value a caller can hand to the Collection: a PHP array (distinct keys)
   * whose nested values are again such values, a Collection built by this
   * class, or anything else.
   */
  ghost predicate Input(v: Value)
    decreases v
  {
    match v
    case Coll(_) => Normal(v)
    case Arr(es) =>
      DistinctKeys(es) && forall i :: 0 <= i < |es| ==> Input(es[i].1)
    case _ => true
  }
}
