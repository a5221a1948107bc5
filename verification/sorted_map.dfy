/** Rust's `BTreeMap<K, V>` with integer keys, as a list of entries kept in
    strictly ascending key order.  Iterating a `BTreeMap` visits its entries
    in that order, which is what the prediction ranking depends on. */
module SortedMap {
  import opened Wrappers

  datatype Entry<V> = Entry(key: int, value: V)

  type Map<V> = seq<Entry<V>>

  predicate Sorted<V>(m: Map<V>)
  {
    forall i, j :: 0 <= i < j < |m| ==> m[i].key < m[j].key
  }

  predicate HasKey<V>(m: Map<V>, k: int)
  {
    exists i :: 0 <= i < |m| && m[i].key == k
  }

  /** `map.get(&k)`. */
  function Get<V>(m: Map<V>, k: int): (r: Option<V>)
    ensures r.Some? <==> HasKey(m, k)
  {
    if |m| == 0 then None
    else if m[0].key == k then Some(m[0].value)
    else
      assert HasKey(m, k) <==> HasKey(m[1..], k) by {
        if HasKey(m, k) {
          var i :| 0 <= i < |m| && m[i].key == k;
          assert m[1..][i - 1].key == k;
        }
      }
      Get(m[1..], k)
  }

  /** In a sorted map, looking up the key of an entry finds that entry's value. */
  lemma {:induction false} GetEntry<V>(m: Map<V>, i: nat)
    requires Sorted(m) && i < |m|
    ensures Get(m, m[i].key) == Some(m[i].value)
    decreases i
  {
    if i > 0 {
      GetEntry(m[1..], i - 1);
    }
  }

  /** A value found by `Get` is stored in an entry under the key looked up. */
  lemma {:induction false} GetFound<V>(m: Map<V>, k: int)
    requires Get(m, k).Some?
    ensures exists i :: 0 <= i < |m| && m[i] == Entry(k, Get(m, k).value)
    decreases |m|
  {
    if m[0].key != k {
      GetFound(m[1..], k);
      var i :| 0 <= i < |m[1..]| && m[1..][i] == Entry(k, Get(m, k).value);
      assert m[i + 1] == m[1..][i];
    }
  }

  /** `map.insert(k, v)`: replaces the entry for `k`, or adds one in key order. */
  function Insert<V>(m: Map<V>, k: int, v: V): (r: Map<V>)
    requires Sorted(m)
    ensures Sorted(r)
    ensures Get(r, k) == Some(v)
    ensures forall k' :: k' != k ==> Get(r, k') == Get(m, k')
    ensures |r| == if HasKey(m, k) then |m| else |m| + 1
  {
    if |m| == 0 then [Entry(k, v)]
    else if k < m[0].key then [Entry(k, v)] + m
    else if k == m[0].key then [Entry(k, v)] + m[1..]
    else
      var rest := Insert(m[1..], k, v);
      InsertCons(m, k, v, rest);
      [m[0]] + rest
  }

  /** The recursive case of `Insert`: the first entry stays in front of the
      insertion into the rest. */
  lemma InsertCons<V>(m: Map<V>, k: int, v: V, rest: Map<V>)
    requires Sorted(m) && |m| > 0 && m[0].key < k
    requires Sorted(rest) && Get(rest, k) == Some(v)
    requires forall k' :: k' != k ==> Get(rest, k') == Get(m[1..], k')
    requires |rest| == if HasKey(m[1..], k) then |m| - 1 else |m|
    ensures Sorted([m[0]] + rest)
    ensures Get([m[0]] + rest, k) == Some(v)
    ensures forall k' :: k' != k ==> Get([m[0]] + rest, k') == Get(m, k')
    ensures |[m[0]] + rest| == if HasKey(m, k) then |m| else |m| + 1
  {
    var r := [m[0]] + rest;
    assert r[1..] == rest;
    assert HasKey(m, k) <==> HasKey(m[1..], k) by {
      if HasKey(m, k) {
        var i :| 0 <= i < |m| && m[i].key == k;
        assert m[1..][i - 1].key == k;
      }
    }
    forall i | 0 <= i < |rest| ensures m[0].key < rest[i].key {
      if rest[i].key != k {
        GetEntry(rest, i);
        assert Get(m[1..], rest[i].key).Some?;
        GetFound(m[1..], rest[i].key);
      }
    }
  }

  /** The keys of a map, in iteration order. */
  function Keys<V>(m: Map<V>): (ks: seq<int>)
    ensures |ks| == |m|
    ensures forall i :: 0 <= i < |m| ==> ks[i] == m[i].key
  {
    if |m| == 0 then [] else [m[0].key] + Keys(m[1..])
  }

  /** Inserting the same key twice keeps only the second value. */
  lemma {:induction false} InsertOverwrites<V>(m: Map<V>, k: int, v1: V, v2: V)
    requires Sorted(m)
    ensures Insert(Insert(m, k, v1), k, v2) == Insert(m, k, v2)
    decreases |m|
  {
    if |m| == 0 {
    } else if k < m[0].key {
    } else if k == m[0].key {
    } else {
      InsertOverwrites(m[1..], k, v1, v2);
      var once := Insert(m, k, v1);
      assert once == [m[0]] + Insert(m[1..], k, v1);
      assert once[1..] == Insert(m[1..], k, v1);
    }
  }
}
