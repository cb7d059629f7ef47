/** JavaScript's `Map`: entries in the order in which their keys were first set. */
module InsertionMaps {
  import opened Sequences

  datatype Entry<K, V> = Entry(key: K, value: V)

  function Lookup<K(==), V>(m: seq<Entry<K, V>>, key: K): Option<V> {
    if m == [] then None
    else if m[0].key == key then Some(m[0].value)
    else Lookup(m[1..], key)
  }

  function Put<K(==), V>(m: seq<Entry<K, V>>, key: K, value: V): seq<Entry<K, V>> {
    if m == [] then [Entry(key, value)]
    else if m[0].key == key then [Entry(key, value)] + m[1..]
    else [m[0]] + Put(m[1..], key, value)
  }

  /** `new Map(entries)` on top of `m`: a later entry overwrites an earlier one. */
  function PutAll<K(==), V>(m: seq<Entry<K, V>>, entries: seq<Entry<K, V>>): seq<Entry<K, V>>
    decreases entries
  {
    if entries == [] then m else PutAll(Put(m, entries[0].key, entries[0].value), entries[1..])
  }

  ghost predicate DistinctKeys<K, V>(m: seq<Entry<K, V>>) {
    forall i, j :: 0 <= i < j < |m| ==> m[i].key != m[j].key
  }

  lemma {:induction false} PutLookup<K, V>(m: seq<Entry<K, V>>, key: K, value: V, asked: K)
    ensures Lookup(Put(m, key, value), asked) == if asked == key then Some(value) else Lookup(m, asked)
  {
    if m != [] && m[0].key != key {
      PutLookup(m[1..], key, value, asked);
      assert Put(m, key, value)[1..] == Put(m[1..], key, value);
    }
  }

  lemma {:induction false} LookupNone<K, V>(m: seq<Entry<K, V>>, key: K)
    ensures Lookup(m, key).None? <==> forall i :: 0 <= i < |m| ==> m[i].key != key
  {
    if m != [] && m[0].key != key {
      LookupNone(m[1..], key);
      assert forall i :: 1 <= i < |m| ==> m[i] == m[1..][i - 1];
    }
  }

  lemma {:induction false} EntryIsLookup<K, V>(m: seq<Entry<K, V>>, i: nat)
    requires DistinctKeys(m) && i < |m|
    ensures Lookup(m, m[i].key) == Some(m[i].value)
  {
    if i == 0 {
    } else {
      EntryIsLookup(m[1..], i - 1);
    }
  }

  lemma {:induction false} PutKeys<K, V>(m: seq<Entry<K, V>>, key: K, value: V)
    requires DistinctKeys(m)
    ensures DistinctKeys(Put(m, key, value))
    ensures forall i :: 0 <= i < |Put(m, key, value)| ==>
      Put(m, key, value)[i].key == key || exists j :: 0 <= j < |m| && m[j].key == Put(m, key, value)[i].key
  {
    if m != [] && m[0].key != key {
      PutKeys(m[1..], key, value);
      var rest := Put(m[1..], key, value);
      forall i | 0 <= i < |rest| ensures rest[i].key != m[0].key {
        if rest[i].key != key {
          var j :| 0 <= j < |m[1..]| && m[1..][j].key == rest[i].key;
          assert m[j + 1].key == rest[i].key;
        }
      }
      forall i | 0 <= i < |rest| && rest[i].key != key
        ensures exists j :: 0 <= j < |m| && m[j].key == rest[i].key
      {
        var j :| 0 <= j < |m[1..]| && m[1..][j].key == rest[i].key;
        assert m[j + 1].key == rest[i].key;
      }
    }
  }

  /** Place `i` holds the last entry under `key`. */
  ghost predicate LastAt<K, V>(entries: seq<Entry<K, V>>, key: K, i: int) {
    0 <= i < |entries| && entries[i].key == key && forall j :: i < j < |entries| ==> entries[j].key != key
  }

  lemma {:induction false} LastEntry<K, V>(entries: seq<Entry<K, V>>, key: K) returns (i: int)
    ensures i == -1 || LastAt(entries, key, i)
    ensures i == -1 <==> forall j :: 0 <= j < |entries| ==> entries[j].key != key
  {
    var last := |entries| - 1;
    if entries == [] {
      i := -1;
    } else if entries[last].key == key {
      i := last;
    } else {
      i := LastEntry(entries[..last], key);
      assert forall j :: 0 <= j < last ==> entries[j] == entries[..last][j];
    }
  }

  lemma {:induction false} PutAllMiss<K, V>(m: seq<Entry<K, V>>, entries: seq<Entry<K, V>>, key: K)
    requires forall j :: 0 <= j < |entries| ==> entries[j].key != key
    ensures Lookup(PutAll(m, entries), key) == Lookup(m, key)
    decreases entries
  {
    hide Put, Lookup;
    if entries == [] {
      assert PutAll(m, entries) == m;
    } else {
      PutLookup(m, entries[0].key, entries[0].value, key);
      PutAllMiss(Put(m, entries[0].key, entries[0].value), entries[1..], key);
    }
  }

  /** The value under a key after a run of writes is the last one written to it. */
  lemma {:induction false} PutAllHit<K, V>(m: seq<Entry<K, V>>, entries: seq<Entry<K, V>>, key: K, i: nat)
    requires LastAt(entries, key, i)
    ensures Lookup(PutAll(m, entries), key) == Some(entries[i].value)
    decreases entries
  {
    hide Put, Lookup;
    var next := Put(m, entries[0].key, entries[0].value);
    if i == 0 {
      PutLookup(m, key, entries[0].value, key);
      PutAllMiss(next, entries[1..], key);
    } else {
      PutAllHit(next, entries[1..], key, i - 1);
    }
  }
}
