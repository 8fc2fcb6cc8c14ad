/**
 * The document store's compare-exchange facility: string keys mapped to a value
 * and the index (version) at which that value was written. This is the store's
 * contract as the leadership lock relies on it, not code of the lock itself:
 *  - a put with expected index 0 succeeds only when the key is absent;
 *  - a put with expected index N > 0 succeeds only when the key's index is N;
 *  - a successful put writes the value under a fresh index larger than every
 *    index handed out before;
 *  - a delete with index N removes the key only when its index is N.
 */
module CompareExchange {

  datatype Entry<V> = Entry(value: V, index: nat)

  /** All compare-exchange values, and the last index the store handed out. */
  datatype Table<V> = Table(entries: map<string, Entry<V>>, lastIndex: nat) {
    /** Every stored index was handed out by the store. */
    ghost predicate Valid() {
      forall k :: k in entries ==> 0 < entries[k].index <= lastIndex
    }
  }

  /** PutCompareExchangeValueOperation's answer. */
  datatype PutResult = PutResult(successful: bool, index: nat)

  /** Whether a put expecting index `expected` is accepted. */
  predicate Accepts<V>(t: Table<V>, key: string, expected: nat) {
    if expected == 0 then key !in t.entries
    else key in t.entries && t.entries[key].index == expected
  }

  /** Put `value` under `key` if the key is at index `expected` (0: absent). */
  function Put<V>(t: Table<V>, key: string, value: V, expected: nat): (o: (PutResult, Table<V>))
    requires t.Valid()
    ensures o.1.Valid()
    ensures o.0.successful <==> Accepts(t, key, expected)
    ensures o.0.successful ==> forall k :: k in t.entries ==> t.entries[k].index < o.0.index
    ensures o.0.successful ==> t.lastIndex < o.0.index && o.1.lastIndex == o.0.index
    ensures o.0.successful ==> o.1.entries == t.entries[key := Entry(value, o.0.index)]
    ensures !o.0.successful ==> o.1 == t
  {
    if Accepts(t, key, expected) then
      var index := t.lastIndex + 1;
      (PutResult(true, index), Table(t.entries[key := Entry(value, index)], index))
    else
      (PutResult(false, if key in t.entries then t.entries[key].index else 0), t)
  }

  /** Delete `key` if it is at index `expected`; reports whether it did. */
  function Delete<V>(t: Table<V>, key: string, expected: nat): (o: (bool, Table<V>))
    requires t.Valid()
    ensures o.1.Valid()
    ensures o.0 <==> key in t.entries && t.entries[key].index == expected
    ensures o.0 ==> key !in o.1.entries && o.1.entries == t.entries - {key}
    ensures !o.0 ==> o.1 == t
  {
    if key in t.entries && t.entries[key].index == expected then
      (true, t.(entries := t.entries - {key}))
    else
      (false, t)
  }

  /** Of two create-only puts on one key, at most one succeeds; on an absent key the first does. */
  lemma OnlyOneCreateSucceeds<V>(t: Table<V>, key: string, first: V, second: V)
    requires t.Valid()
    ensures var o1 := Put(t, key, first, 0);
            var o2 := Put(o1.1, key, second, 0);
            !(o1.0.successful && o2.0.successful)
            && (key !in t.entries ==> o1.0.successful && !o2.0.successful)
  {
    var o1 := Put(t, key, first, 0);
    if o1.0.successful {
      assert key in o1.1.entries;
    }
  }

  /** After a delete that matched, a create-only put on the same key succeeds. */
  lemma DeleteThenCreate<V>(t: Table<V>, key: string, index: nat, value: V)
    requires t.Valid()
    requires Delete(t, key, index).0
    ensures Put(Delete(t, key, index).1, key, value, 0).0.successful
  {
  }

  /** A create-only put never succeeds while any value is stored under the key. */
  lemma OccupiedKeyRefusesCreate<V>(t: Table<V>, key: string, value: V)
    requires t.Valid()
    requires key in t.entries
    ensures !Put(t, key, value, 0).0.successful
  {
  }

  /** The store as a shared object: every caller that holds it sees the others' writes. */
  class Store<V> {
    var table: Table<V>

    constructor ()
      ensures table == Table(map[], 0) && table.Valid()
    {
      table := Table(map[], 0);
    }

    method PutCompareExchangeValue(key: string, value: V, expected: nat) returns (r: PutResult)
      requires table.Valid()
      modifies this
      ensures table.Valid()
      ensures (r, table) == Put(old(table), key, value, expected)
    {
      var o := Put(table, key, value, expected);
      r, table := o.0, o.1;
    }

    method DeleteCompareExchangeValue(key: string, expected: nat) returns (ok: bool)
      requires table.Valid()
      modifies this
      ensures table.Valid()
      ensures (ok, table) == Delete(old(table), key, expected)
    {
      var o := Delete(table, key, expected);
      ok, table := o.0, o.1;
    }
  }
}
