/** Python dictionaries as insertion-ordered association lists.

    A Python `dict` keeps its keys in insertion order: assigning to a present
    key replaces the value where it stands, assigning to a new key appends it,
    and `del` removes the entry. */
module PyDict {
  import opened Wrappers

  type Dict<K, V> = seq<(K, V)>

  /** `k in d` */
  predicate HasKey<K(==), V>(d: Dict<K, V>, k: K) {
    exists i :: 0 <= i < |d| && d[i].0 == k
  }

  /** No key occurs twice; every dictionary the program builds has this shape. */
  predicate UniqueKeys<K(==), V>(d: Dict<K, V>) {
    forall i, j :: 0 <= i < j < |d| ==> d[i].0 != d[j].0
  }

  /** `d.get(k)` */
  function Get<K(==), V>(d: Dict<K, V>, k: K): (r: Option<V>)
    ensures r.Some? <==> HasKey(d, k)
  {
    if |d| == 0 then None
    else if d[0].0 == k then Some(d[0].1)
    else
      assert forall i :: 0 < i < |d| ==> d[i] == d[1..][i - 1];
      Get(d[1..], k)
  }

  /** `d.get(k, default)` */
  function GetOr<K(==), V>(d: Dict<K, V>, k: K, default: V): V {
    Get(d, k).GetOr(default)
  }

  /** `d[k] = v`: replaces the value in place when `k` is present, appends
      the pair otherwise. */
  function Put<K(==,!new), V>(d: Dict<K, V>, k: K, v: V): (r: Dict<K, V>)
    ensures Get(r, k) == Some(v)
    ensures forall k' :: k' != k ==> Get(r, k') == Get(d, k')
    ensures !HasKey(d, k) ==> r == d + [(k, v)]
  {
    if |d| == 0 then [(k, v)]
    else if d[0].0 == k then [(k, v)] + d[1..]
    else
      var rest := Put(d[1..], k, v);
      var r := [d[0]] + rest;
      GetFront(d[0], rest);
      assert d == [d[0]] + d[1..];
      GetFront(d[0], d[1..]);
      assert !HasKey(d, k) ==> !HasKey(d[1..], k);
      r
  }

  /** Looking up a key in a dictionary with one more pair in front. */
  lemma GetFront<K, V>(p: (K, V), t: Dict<K, V>)
    ensures forall key :: Get([p] + t, key) == if p.0 == key then Some(p.1) else Get(t, key)
  {
    assert ([p] + t)[1..] == t;
  }

  /** Assigning to a present key keeps every key where it stands. */
  lemma {:induction false} PutInPlace<K(!new), V>(d: Dict<K, V>, k: K, v: V)
    requires HasKey(d, k)
    ensures |Put(d, k, v)| == |d|
    ensures forall i :: 0 <= i < |d| ==> Put(d, k, v)[i].0 == d[i].0
  {
    if d[0].0 != k {
      assert HasKey(d[1..], k) by {
        var i :| 0 <= i < |d| && d[i].0 == k;
        assert d[1..][i - 1].0 == k;
      }
      PutInPlace(d[1..], k, v);
    }
  }

  /** Every key of the result was already a key, or is the assigned one. */
  lemma {:induction false} PutKeys<K(!new), V>(d: Dict<K, V>, k: K, v: V)
    ensures forall i :: 0 <= i < |Put(d, k, v)| ==> Put(d, k, v)[i].0 == k || HasKey(d, Put(d, k, v)[i].0)
  {
    if |d| > 0 && d[0].0 != k {
      PutKeys(d[1..], k, v);
      var r := Put(d, k, v);
      forall i | 0 <= i < |r| && r[i].0 != k ensures HasKey(d, r[i].0) {
        if i > 0 {
          assert r[i] == Put(d[1..], k, v)[i - 1];
          var j :| 0 <= j < |d[1..]| && d[1..][j].0 == r[i].0;
          assert d[j + 1].0 == r[i].0;
        }
      }
    }
  }

  /** A dictionary with unique keys: its tail has unique keys none of which
      is the head's key. */
  lemma TailUnique<K, V>(d: Dict<K, V>)
    requires UniqueKeys(d) && |d| > 0
    ensures UniqueKeys(d[1..])
    ensures forall i :: 0 <= i < |d[1..]| ==> d[1..][i].0 != d[0].0
  {
  }

  /** A new head whose key the tail lacks keeps keys unique. */
  lemma ConsUnique<K, V>(e: (K, V), rest: Dict<K, V>)
    requires UniqueKeys(rest)
    requires forall i :: 0 <= i < |rest| ==> rest[i].0 != e.0
    ensures UniqueKeys([e] + rest)
  {
  }

  /** Assignment keeps keys unique. */
  lemma {:induction false} PutUnique<K(!new), V>(d: Dict<K, V>, k: K, v: V)
    requires UniqueKeys(d)
    ensures UniqueKeys(Put(d, k, v))
  {
    if |d| == 0 {
      assert UniqueKeys([(k, v)]);
    } else {
      TailUnique(d);
      if d[0].0 != k {
        PutUnique(d[1..], k, v);
        PutKeys(d[1..], k, v);
        var rest := Put(d[1..], k, v);
        forall i | 0 <= i < |rest| ensures rest[i].0 != d[0].0 {
          if rest[i].0 != k {
            var j :| 0 <= j < |d[1..]| && d[1..][j].0 == rest[i].0;
          }
        }
        ConsUnique(d[0], rest);
        assert Put(d, k, v) == [d[0]] + rest;
      } else {
        ConsUnique((k, v), d[1..]);
      }
    }
  }

  /** `del d[k]` for a present key; a missing key leaves `d` as it is. */
  function Remove<K(==,!new), V>(d: Dict<K, V>, k: K): (r: Dict<K, V>)
    ensures Get(r, k).None?
    ensures forall k' :: k' != k ==> Get(r, k') == Get(d, k')
    ensures !HasKey(d, k) ==> r == d
  {
    if |d| == 0 then []
    else
      var rest := Remove(d[1..], k);
      if d[0].0 == k then rest
      else
        assert !HasKey(d, k) ==> !HasKey(d[1..], k);
        [d[0]] + rest
  }

  /** Every entry that survives a removal was an entry before. */
  lemma {:induction false} RemoveSubset<K(!new), V>(d: Dict<K, V>, k: K)
    ensures forall i :: 0 <= i < |Remove(d, k)| ==> Remove(d, k)[i] in d
  {
    if |d| > 0 {
      RemoveSubset(d[1..], k);
      assert forall e :: e in d[1..] ==> e in d;
    }
  }

  /** Removal keeps keys unique and, for a present key, drops one entry. */
  lemma {:induction false} RemoveUnique<K(!new), V>(d: Dict<K, V>, k: K)
    requires UniqueKeys(d)
    ensures UniqueKeys(Remove(d, k))
    ensures HasKey(d, k) ==> |Remove(d, k)| == |d| - 1
  {
    if |d| > 0 {
      RemoveUnique(d[1..], k);
      RemoveSubset(d[1..], k);
      var rest := Remove(d[1..], k);
      if d[0].0 == k {
        assert !HasKey(d[1..], k) by {
          assert forall i :: 0 < i < |d| ==> d[i].0 != k;
        }
      } else {
        assert HasKey(d, k) ==> HasKey(d[1..], k) by {
          if HasKey(d, k) {
            var i :| 0 <= i < |d| && d[i].0 == k;
            assert d[1..][i - 1].0 == k;
          }
        }
        forall i | 0 <= i < |rest| ensures rest[i].0 != d[0].0 {
          var j :| 0 <= j < |d[1..]| && d[1..][j] == rest[i];
          assert d[j + 1] == rest[i];
        }
      }
    }
  }

  /** `get` finds the first entry with the key; in a dictionary with unique
      keys, that is every entry. */
  lemma {:induction false} GetEntry<K, V>(d: Dict<K, V>, i: int)
    requires 0 <= i < |d|
    requires forall j :: 0 <= j < i ==> d[j].0 != d[i].0
    ensures Get(d, d[i].0) == Some(d[i].1)
  {
    if i > 0 {
      assert d[0].0 != d[i].0;
      assert d[1..][i - 1] == d[i];
      GetEntry(d[1..], i - 1);
    }
  }

  /** A dictionary mapping every key to itself gives back the key it is
      asked for. */
  lemma {:induction false} GetIdentity<K>(d: Dict<K, K>, k: K)
    requires forall i :: 0 <= i < |d| ==> d[i].0 == d[i].1
    ensures Get(d, k).Some? ==> Get(d, k).value == k
  {
    if |d| > 0 && d[0].0 != k {
      assert forall i :: 0 <= i < |d[1..]| ==> d[1..][i] == d[i + 1];
      GetIdentity(d[1..], k);
    }
  }

  /** Assigning twice to one key leaves the last assignment: last write wins. */
  lemma {:induction false} PutPut<K(!new), V>(d: Dict<K, V>, k: K, a: V, b: V)
    ensures Put(Put(d, k, a), k, b) == Put(d, k, b)
  {
    if |d| > 0 && d[0].0 != k {
      PutPut(d[1..], k, a, b);
      assert Put(d, k, a)[1..] == Put(d[1..], k, a);
    }
  }
}
