/** Plain JavaScript objects used as dictionaries: own string keys kept in
    insertion order (the order `for...in` and `Object.entries` visit keys
    that are not array indices), each key holding one value. */
module Dicts {

  datatype Option<T> = None | Some(value: T)

  datatype Result<T, E> = Ok(value: T) | Err(error: E)

  datatype DictRep<V> = DictRep(keys: seq<string>, items: map<string, V>)

  /** Keys are distinct and are exactly the keys of the map. */
  ghost predicate WellFormed<V>(d: DictRep<V>)
  {
    && (forall i, j :: 0 <= i < j < |d.keys| ==> d.keys[i] != d.keys[j])
    && (forall k :: k in d.items <==> k in d.keys)
  }

  type Dict<V> = d: DictRep<V> | WellFormed(d) witness DictRep([], map[])

  function Empty<V>(): Dict<V>
  {
    DictRep([], map[])
  }

  /** `d[k]`, with `None` for undefined. */
  function Get<V>(d: Dict<V>, k: string): Option<V>
  {
    if k in d.items then Some(d.items[k]) else None
  }

  /** `d[k] = v`: an existing key keeps its place, a new key goes last. */
  function Put<V>(d: Dict<V>, k: string, v: V): (r: Dict<V>)
    ensures r.items == d.items[k := v]
    ensures k in d.items ==> r.keys == d.keys
    ensures k !in d.items ==> r.keys == d.keys + [k]
  {
    if k in d.items then DictRep(d.keys, d.items[k := v])
    else DictRep(d.keys + [k], d.items[k := v])
  }

  /** Writing the same key twice keeps only the second value. */
  lemma PutPut<V>(d: Dict<V>, k: string, v: V, w: V)
    ensures Put(Put(d, k, v), k, w) == Put(d, k, w)
  {
  }

  /** `{...target, ...source}` restricted to the first keys `ks` of `source`. */
  function AssignKeys<V>(target: Dict<V>, source: Dict<V>, ks: seq<string>): Dict<V>
    requires forall k :: k in ks ==> k in source.items
  {
    if ks == [] then target
    else
      var last := ks[|ks| - 1];
      Put(AssignKeys(target, source, ks[..|ks| - 1]), last, source.items[last])
  }

  /** `{...target, ...source}`. */
  function Assign<V>(target: Dict<V>, source: Dict<V>): Dict<V>
  {
    AssignKeys(target, source, source.keys)
  }

  lemma {:induction false} AssignKeysLookup<V>(target: Dict<V>, source: Dict<V>, ks: seq<string>, k: string)
    requires forall x :: x in ks ==> x in source.items
    ensures Get(AssignKeys(target, source, ks), k) ==
              if k in ks then Some(source.items[k]) else Get(target, k)
    ensures |target.keys| <= |AssignKeys(target, source, ks).keys|
    ensures AssignKeys(target, source, ks).keys[..|target.keys|] == target.keys
  {
    if ks != [] {
      var init := ks[..|ks| - 1];
      AssignKeysLookup(target, source, init, k);
      assert k in ks <==> k in init || k == ks[|ks| - 1];
    }
  }

  /** Spreading `source` over `target` lets every key of `source` win,
      keeps every other key of `target`, and leaves the keys of `target`
      first and in their order. */
  lemma AssignLookup<V>(target: Dict<V>, source: Dict<V>, k: string)
    ensures Get(Assign(target, source), k) ==
              if k in source.items then Some(source.items[k]) else Get(target, k)
    ensures |target.keys| <= |Assign(target, source).keys|
    ensures Assign(target, source).keys[..|target.keys|] == target.keys
  {
    AssignKeysLookup(target, source, source.keys, k);
  }

  /** With distinct keys, the last key does not occur before it. */
  lemma DistinctLast(ks: seq<string>)
    requires ks != []
    requires forall i, j :: 0 <= i < j < |ks| ==> ks[i] != ks[j]
    ensures ks[|ks| - 1] !in ks[..|ks| - 1]
  {
    assert forall i :: 0 <= i < |ks| - 1 ==> ks[..|ks| - 1][i] == ks[i];
  }

  /** One more key of `d` copied onto an empty object. */
  lemma AssignKeysStep<V>(d: Dict<V>, n: nat)
    requires 0 < n <= |d.keys|
    ensures AssignKeys(Empty(), d, d.keys[..n]) ==
              Put(AssignKeys(Empty(), d, d.keys[..n - 1]), d.keys[n - 1], d.items[d.keys[n - 1]])
    ensures d.keys[..n] == d.keys[..n - 1] + [d.keys[n - 1]]
    ensures d.keys[n - 1] !in d.keys[..n - 1]
  {
    var ks := d.keys[..n];
    assert ks == d.keys[..n - 1] + [d.keys[n - 1]];
    AssignKeysSnoc(Empty(), d, d.keys[..n - 1], d.keys[n - 1]);
    DistinctLast(ks);
  }

  /** Copying one more key copies its value on top of what was copied before. */
  lemma AssignKeysSnoc<V>(target: Dict<V>, source: Dict<V>, ks: seq<string>, k: string)
    requires forall j :: j in ks ==> j in source.items
    requires k in source.items
    ensures AssignKeys(target, source, ks + [k]) == Put(AssignKeys(target, source, ks), k, source.items[k])
  {
    assert (ks + [k])[..|ks|] == ks;
  }

  lemma {:induction false} AssignKeysOntoEmpty<V>(d: Dict<V>, n: nat)
    requires n <= |d.keys|
    ensures AssignKeys(Empty(), d, d.keys[..n]).keys == d.keys[..n]
    ensures forall k :: k in AssignKeys(Empty(), d, d.keys[..n]).items ==>
              AssignKeys(Empty(), d, d.keys[..n]).items[k] == d.items[k]
  {
    if n > 0 {
      AssignKeysStep(d, n);
      AssignKeysOntoEmpty(d, n - 1);
    }
  }

  /** Copying every key of `d` into an empty object, in order, gives `d`
      back: the same keys in the same order with the same values. */
  lemma AssignOntoEmpty<V>(d: Dict<V>)
    ensures Assign(Empty(), d) == d
  {
    AssignKeysOntoEmpty(d, |d.keys|);
    assert d.keys[..|d.keys|] == d.keys;
    SameEntries(Assign(Empty(), d), d);
  }

  /** Two objects with the same keys, in the same order, and the same value
      under each key are equal. */
  lemma SameEntries<V>(a: Dict<V>, b: Dict<V>)
    requires a.keys == b.keys
    requires forall k :: k in a.items ==> a.items[k] == b.items[k]
    ensures a == b
  {
    assert forall k :: k in a.items <==> k in b.items by {
      forall k ensures k in a.items <==> k in b.items {
        assert k in a.items <==> k in a.keys;
        assert k in b.items <==> k in b.keys;
      }
    }
    assert a.items == b.items;
  }
}
