/** Least and greatest elements of finite sets of integers, and the
    ascending enumeration Python's `sorted` produces for them. */
module IntSets {

  predicate StrictlyIncreasing(s: seq<int>) {
    forall i, j :: 0 <= i < j < |s| ==> s[i] < s[j]
  }

  lemma {:induction false} LeastExists(s: set<int>)
    requires s != {}
    ensures exists m :: m in s && forall x :: x in s ==> m <= x
    decreases |s|
  {
    assert exists y :: y in s by {
      if forall y :: y !in s {
        assert false;
      }
    }
    var x :| x in s;
    var rest := s - {x};
    if rest == {} {
      assert forall y :: y in s ==> y in rest || y == x;
    } else {
      assert |rest| < |s|;
      LeastExists(rest);
      var m :| m in rest && forall y :: y in rest ==> m <= y;
      var l := if x < m then x else m;
      forall y | y in s ensures l <= y {
        if y != x {
          assert y in rest;
        }
      }
      assert l in s;
    }
  }

  lemma {:induction false} GreatestExists(s: set<int>)
    requires s != {}
    ensures exists m :: m in s && forall x :: x in s ==> x <= m
    decreases |s|
  {
    assert exists y :: y in s by {
      if forall y :: y !in s {
        assert false;
      }
    }
    var x :| x in s;
    var rest := s - {x};
    if rest == {} {
      assert forall y :: y in s ==> y in rest || y == x;
    } else {
      assert |rest| < |s|;
      GreatestExists(rest);
      var m :| m in rest && forall y :: y in rest ==> y <= m;
      var g := if m < x then x else m;
      forall y | y in s ensures y <= g {
        if y != x {
          assert y in rest;
        }
      }
      assert g in s;
    }
  }

  /** `min(s)` */
  function Least(s: set<int>): (m: int)
    requires s != {}
    ensures m in s && forall x :: x in s ==> m <= x
  {
    LeastExists(s);
    var m :| m in s && (forall x :: x in s ==> m <= x);
    m
  }

  /** `max(s)` */
  function Greatest(s: set<int>): (m: int)
    requires s != {}
    ensures m in s && forall x :: x in s ==> x <= m
  {
    GreatestExists(s);
    var m :| m in s && (forall x :: x in s ==> x <= m);
    m
  }

  /** `sorted(s)`: every element of `s` once, in ascending order. */
  function SortedKeys(s: set<int>): (r: seq<int>)
    ensures |r| == |s|
    decreases s
  {
    if s == {} then []
    else
      var m := Least(s);
      [m] + SortedKeys(s - {m})
  }

  /** The enumeration lists exactly the elements of the set. */
  lemma {:induction false} SortedKeysMembers(s: set<int>)
    ensures forall x :: x in SortedKeys(s) <==> x in s
    decreases s
  {
    if s != {} {
      var m := Least(s);
      SortedKeysMembers(s - {m});
      assert SortedKeys(s) == [m] + SortedKeys(s - {m});
    }
  }

  lemma SortedMember(s: set<int>, x: int)
    requires x in SortedKeys(s)
    ensures x in s
  {
  }

  /** The enumeration is in strictly ascending order. */
  lemma {:induction false} SortedKeysSorted(s: set<int>)
    ensures StrictlyIncreasing(SortedKeys(s))
    decreases s
  {
    if s != {} {
      var m := Least(s);
      var rest := SortedKeys(s - {m});
      SortedKeysSorted(s - {m});
      SortedKeysMembers(s - {m});
      forall i | 0 <= i < |rest| ensures m < rest[i] {
        assert rest[i] in s - {m};
      }
      assert SortedKeys(s) == [m] + rest;
    }
  }

  /** Two sequences with the same elements: the first element of one is
      in the other, which is therefore not empty. */
  lemma HeadShared(a: seq<int>, b: seq<int>)
    requires forall x :: x in a <==> x in b
    requires |a| > 0
    ensures |b| > 0 && a[0] in b
  {
    var x: int := a[0];
    assert x in a;
  }

  /** A set has only one ascending enumeration. */
  lemma {:induction false} SortedUnique(a: seq<int>, b: seq<int>)
    requires StrictlyIncreasing(a) && StrictlyIncreasing(b)
    requires forall x :: x in a <==> x in b
    ensures a == b
  {
    if |a| > 0 {
      HeadShared(a, b);
    }
    if |b| > 0 {
      HeadShared(b, a);
    }
    if |a| > 0 {
      assert a[0] == b[0] by {
        assert a[0] in b && b[0] in a;
        var i :| 0 <= i < |b| && b[i] == a[0];
        var j :| 0 <= j < |a| && a[j] == b[0];
        assert b[0] <= b[i] && a[0] <= a[j];
      }
      forall x ensures x in a[1..] <==> x in b[1..] {
        if x in a[1..] {
          var i :| 0 <= i < |a| - 1 && a[1..][i] == x;
          assert a[i + 1] == x && x in a && x in b;
          var j :| 0 <= j < |b| && b[j] == x;
          assert j != 0;
          assert b[1..][j - 1] == x;
        }
        if x in b[1..] {
          var j :| 0 <= j < |b| - 1 && b[1..][j] == x;
          assert b[j + 1] == x && x in b && x in a;
          var i :| 0 <= i < |a| && a[i] == x;
          assert i != 0;
          assert a[1..][i - 1] == x;
        }
      }
      SortedUnique(a[1..], b[1..]);
      assert a == [a[0]] + a[1..] && b == [b[0]] + b[1..];
    }
  }

  /** Adding an element larger than all others puts it last. */
  lemma SortedKeysAddGreatest(s: set<int>, n: int)
    requires forall x :: x in s ==> x < n
    ensures SortedKeys(s + {n}) == SortedKeys(s) + [n]
  {
    var low := SortedKeys(s);
    var r := low + [n];
    SortedKeysSorted(s);
    SortedKeysSorted(s + {n});
    SortedKeysMembers(s);
    SortedKeysMembers(s + {n});
    forall i, j | 0 <= i < j < |r| ensures r[i] < r[j] {
      if j == |low| {
        assert r[i] == low[i] && low[i] in s;
      } else {
        assert r[i] == low[i] && r[j] == low[j];
      }
    }
    forall x ensures x in r <==> x in s + {n} {
      assert x in r <==> x in low || x == n;
    }
    SortedUnique(SortedKeys(s + {n}), r);
  }

  /** The elements up to `k` come first: their enumeration is a prefix of the
      enumeration of the whole set. */
  lemma {:induction false} SortedKeysPrefix(s: set<int>, k: int)
    ensures SortedKeys(set x | x in s && x <= k) <= SortedKeys(s)
    decreases s
  {
    var low := set x | x in s && x <= k;
    if low != {} {
      var m := Least(s);
      var lowRest := set x | x in s - {m} && x <= k;
      assert m in low;
      assert Least(low) == m;
      assert low - {m} == lowRest;
      SortedKeysPrefix(s - {m}, k);
    }
  }
}
