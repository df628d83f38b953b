/** Maps filled by inserting entries in order, as a loop of `HashMap::insert` calls does. */
module Maps {
  /** Inserts the entries into the map in order, a later entry replacing an earlier one. */
  function InsertAll<K, V>(m: map<K, V>, entries: seq<(K, V)>): map<K, V>
    decreases |entries|
  {
    if entries == [] then m else InsertAll(m[entries[0].0 := entries[0].1], entries[1..])
  }

  lemma {:induction false} InsertAllAppend<K, V>(m: map<K, V>, a: seq<(K, V)>, b: seq<(K, V)>)
    ensures InsertAll(m, a + b) == InsertAll(InsertAll(m, a), b)
    decreases |a|
  {
    if a != [] {
      assert (a + b)[1..] == a[1..] + b;
      InsertAllAppend(m[a[0].0 := a[0].1], a[1..], b);
    } else {
      assert a + b == b;
    }
  }

  /** A key is in the result iff it was in the map or some entry carries it. */
  lemma {:induction false} InsertAllKeys<K, V>(m: map<K, V>, entries: seq<(K, V)>, key: K)
    ensures key in InsertAll(m, entries) <==> key in m || exists e :: e in entries && e.0 == key
    decreases |entries|
  {
    if entries != [] {
      InsertAllKeys(m[entries[0].0 := entries[0].1], entries[1..], key);
      if key in InsertAll(m, entries) && key !in m && key != entries[0].0 {
        var e :| e in entries[1..] && e.0 == key;
        assert e in entries;
      }
      if exists e :: e in entries && e.0 == key {
        var e :| e in entries && e.0 == key;
        assert e == entries[0] || e in entries[1..];
      }
    }
  }

  /** The last entry for a key decides its value: a later insertion overwrites an earlier one. */
  lemma {:induction false} InsertAllLastWins<K, V>(m: map<K, V>, a: seq<(K, V)>, key: K, v: V, b: seq<(K, V)>)
    requires forall e :: e in b ==> e.0 != key
    ensures key in InsertAll(m, a + [(key, v)] + b)
    ensures InsertAll(m, a + [(key, v)] + b)[key] == v
  {
    InsertAllAppend(m, a + [(key, v)], b);
    InsertAllAppend(m, a, [(key, v)]);
    var m1 := InsertAll(InsertAll(m, a), [(key, v)]);
    assert InsertAll(m, a + [(key, v)]) == m1;
    assert m1 == InsertAll(m, a)[key := v] by {
      assert [(key, v)][1..] == [];
    }
    InsertAllUntouched(m1, b, key);
  }

  lemma {:induction false} InsertAllUntouched<K, V>(m: map<K, V>, entries: seq<(K, V)>, key: K)
    requires key in m
    requires forall e :: e in entries ==> e.0 != key
    ensures key in InsertAll(m, entries) && InsertAll(m, entries)[key] == m[key]
    decreases |entries|
  {
    if entries != [] {
      assert entries[0] in entries;
      forall e | e in entries[1..] ensures e.0 != key {
        assert e in entries;
      }
      InsertAllUntouched(m[entries[0].0 := entries[0].1], entries[1..], key);
    }
  }

  /** When every entry for a key carries the same value, that is the key's value. */
  lemma {:induction false} InsertAllAgreeing<K, V>(m: map<K, V>, entries: seq<(K, V)>, key: K, v: V)
    requires key in m ==> m[key] == v
    requires forall e :: e in entries && e.0 == key ==> e.1 == v
    ensures key in InsertAll(m, entries) ==> InsertAll(m, entries)[key] == v
    decreases |entries|
  {
    if entries != [] {
      assert entries[0] in entries;
      forall e | e in entries[1..] && e.0 == key ensures e.1 == v {
        assert e in entries;
      }
      InsertAllAgreeing(m[entries[0].0 := entries[0].1], entries[1..], key, v);
    }
  }

  /**
   * A key some entry carries ends up in the map with the value of the last entry that
   * carries it.
   */
  lemma {:induction false} InsertAllLastEntry<K, V>(m: map<K, V>, entries: seq<(K, V)>, key: K)
    requires exists e :: e in entries && e.0 == key
    ensures key in InsertAll(m, entries)
    ensures exists i :: && 0 <= i < |entries| && entries[i].0 == key
                        && InsertAll(m, entries)[key] == entries[i].1
                        && forall j :: i < j < |entries| ==> entries[j].0 != key
    decreases |entries|
  {
    var n := |entries| - 1;
    var front := entries[..n];
    assert entries == front + [entries[n]];
    if entries[n].0 == key {
      assert entries == front + [(key, entries[n].1)] + [];
      InsertAllLastWins(m, front, key, entries[n].1, []);
    } else {
      var e :| e in entries && e.0 == key;
      assert e in front;
      InsertAllLastEntry(m, front, key);
      var i :| && 0 <= i < |front| && front[i].0 == key
               && InsertAll(m, front)[key] == front[i].1
               && forall j :: i < j < |front| ==> front[j].0 != key;
      InsertAllAppend(m, front, [entries[n]]);
      assert [entries[n]][1..] == [];
      assert InsertAll(m, entries) == InsertAll(m, front)[entries[n].0 := entries[n].1];
      assert entries[i] == front[i];
    }
  }
}
