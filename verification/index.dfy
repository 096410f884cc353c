/** JavaScript `new Map(entries)`: the entries are set one after another, so
    when a key repeats, the entry that comes last wins. */
module Index {

  /** The entry at index `i` is the last entry of `ps` with its key. */
  predicate IsLastForKey<K(==), V>(ps: seq<(K, V)>, i: int) {
    0 <= i < |ps| && forall j :: i < j < |ps| ==> ps[j].0 != ps[i].0
  }

  /** The keys that occur in `ps`. */
  function KeysOf<K, V>(ps: seq<(K, V)>): set<K> {
    set i | 0 <= i < |ps| :: ps[i].0
  }

  /** The map built from `ps`, setting the entries one after another. */
  function FromEntries<K(==), V>(ps: seq<(K, V)>): map<K, V> {
    if ps == [] then map[]
    else FromEntries(ps[..|ps| - 1])[ps[|ps| - 1].0 := ps[|ps| - 1].1]
  }

  /** The keys of the map are exactly the keys of `ps`. */
  lemma {:induction false} FromEntriesKeys<K, V>(ps: seq<(K, V)>)
    ensures FromEntries(ps).Keys == KeysOf(ps)
  {
    if ps != [] {
      FromEntriesKeys(ps[..|ps| - 1]);
      KeysOfSnoc(ps);
    }
  }

  /** A key holds the value of the last entry with that key. */
  lemma {:induction false} FromEntriesLast<K, V>(ps: seq<(K, V)>, i: int)
    requires IsLastForKey(ps, i)
    ensures ps[i].0 in FromEntries(ps) && FromEntries(ps)[ps[i].0] == ps[i].1
    decreases |ps|
  {
    var n := |ps| - 1;
    if i < n {
      var init := ps[..n];
      assert ps[n].0 != ps[i].0;
      assert init[i] == ps[i];
      assert IsLastForKey(init, i);
      FromEntriesLast(init, i);
    }
  }

  /** Appending an entry adds exactly its key. */
  lemma KeysOfSnoc<K, V>(ps: seq<(K, V)>)
    requires ps != []
    ensures KeysOf(ps) == KeysOf(ps[..|ps| - 1]) + {ps[|ps| - 1].0}
  {
    var init := ps[..|ps| - 1];
    forall k | k in KeysOf(ps) ensures k in KeysOf(init) + {ps[|ps| - 1].0} {
      var i :| 0 <= i < |ps| && ps[i].0 == k;
      if i < |ps| - 1 {
        assert init[i] == ps[i];
      }
    }
    forall k | k in KeysOf(init) ensures k in KeysOf(ps) {
      var i :| 0 <= i < |init| && init[i].0 == k;
      assert ps[i] == init[i];
    }
  }

  /** Every entry of the map comes from an entry of `ps`. */
  lemma {:induction false} FromEntriesValues<K, V>(ps: seq<(K, V)>, k: K)
    requires k in FromEntries(ps)
    ensures exists i :: 0 <= i < |ps| && ps[i] == (k, FromEntries(ps)[k])
  {
    var n := |ps| - 1;
    if ps[n].0 == k {
      assert IsLastForKey(ps, n);
      assert ps[n] == (k, FromEntries(ps)[k]);
    } else {
      var init := ps[..n];
      assert FromEntries(ps)[k] == FromEntries(init)[k];
      FromEntriesValues(init, k);
      var i :| 0 <= i < |init| && init[i] == (k, FromEntries(init)[k]);
      assert ps[i] == init[i];
    }
  }
}
