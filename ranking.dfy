/**
  Python's `list.sort(key=k, reverse=True)`: a stable sort into
  non-increasing key order (elements with equal keys keep their order, as
  Python guarantees even with `reverse=True`). Modelled as an insertion sort
  and characterised by three properties: sorted, a permutation, and stable.
 */
module Ranking {

  /** Keys never increase along the sequence. */
  predicate SortedDesc<T>(s: seq<T>, key: T -> int) {
    forall i, j :: 0 <= i < j < |s| ==> key(s[i]) >= key(s[j])
  }

  /** Put `x` after every leading element whose key is at least its own. */
  function Insert<T>(s: seq<T>, x: T, key: T -> int): (r: seq<T>)
    ensures |r| == |s| + 1
  {
    if s == [] then [x]
    else if key(s[0]) >= key(x) then [s[0]] + Insert(s[1..], x, key)
    else [x] + s
  }

  /** The sorted list, built by inserting the elements in their original order. */
  function SortDesc<T>(s: seq<T>, key: T -> int): (r: seq<T>)
    ensures |r| == |s|
  {
    if s == [] then [] else Insert(SortDesc(s[..|s| - 1], key), s[|s| - 1], key)
  }

  /** The elements whose key is `v`, in order. */
  function WithKey<T>(s: seq<T>, key: T -> int, v: int): seq<T> {
    if s == [] then [] else (if key(s[0]) == v then [s[0]] else []) + WithKey(s[1..], key, v)
  }

  lemma {:induction false} WithKeyConcat<T>(a: seq<T>, b: seq<T>, key: T -> int, v: int)
    ensures WithKey(a + b, key, v) == WithKey(a, key, v) + WithKey(b, key, v)
  {
    if a != [] {
      assert (a + b)[1..] == a[1..] + b;
      WithKeyConcat(a[1..], b, key, v);
    } else {
      assert a + b == b;
    }
  }

  lemma {:induction false} WithKeyAbsent<T>(s: seq<T>, key: T -> int, v: int)
    requires forall i :: 0 <= i < |s| ==> key(s[i]) < v
    ensures WithKey(s, key, v) == []
  {
    if s != [] {
      WithKeyAbsent(s[1..], key, v);
    }
  }

  lemma {:induction false} InsertPerm<T>(s: seq<T>, x: T, key: T -> int)
    ensures multiset(Insert(s, x, key)) == multiset(s) + multiset{x}
  {
    if s != [] && key(s[0]) >= key(x) {
      InsertPerm(s[1..], x, key);
      assert s == [s[0]] + s[1..];
    }
  }

  lemma {:induction false} InsertSorted<T>(s: seq<T>, x: T, key: T -> int)
    requires SortedDesc(s, key)
    ensures SortedDesc(Insert(s, x, key), key)
  {
    if s != [] && key(s[0]) >= key(x) {
      var t := Insert(s[1..], x, key);
      InsertSorted(s[1..], x, key);
      InsertPerm(s[1..], x, key);
      var r := [s[0]] + t;
      forall j | 0 < j < |r| ensures key(r[0]) >= key(r[j]) {
        assert r[j] == t[j - 1];
        assert t[j - 1] in multiset(s[1..]) + multiset{x};
        if t[j - 1] != x {
          var k :| 0 <= k < |s[1..]| && s[1..][k] == t[j - 1];
          assert s[1..][k] == s[k + 1];
        }
      }
    }
  }

  lemma {:induction false} InsertStable<T>(s: seq<T>, x: T, key: T -> int, v: int)
    requires SortedDesc(s, key)
    ensures WithKey(Insert(s, x, key), key, v) == WithKey(s, key, v) + (if key(x) == v then [x] else [])
  {
    if s != [] {
      if key(s[0]) >= key(x) {
        InsertStable(s[1..], x, key, v);
        assert ([s[0]] + Insert(s[1..], x, key))[1..] == Insert(s[1..], x, key);
      } else {
        if key(x) == v {
          WithKeyAbsent(s, key, v);
        }
        assert ([x] + s)[1..] == s;
      }
    } else {
      assert [x][1..] == [];
    }
  }

  /**
    `SortDesc` sorts into non-increasing key order, keeps every element
    (a permutation) and is stable: the elements sharing a key appear in
    their original order.
   */
  lemma {:induction false} SortDescSpec<T>(s: seq<T>, key: T -> int)
    ensures SortedDesc(SortDesc(s, key), key)
    ensures multiset(SortDesc(s, key)) == multiset(s)
    ensures forall v :: WithKey(SortDesc(s, key), key, v) == WithKey(s, key, v)
  {
    if s != [] {
      var init, x := s[..|s| - 1], s[|s| - 1];
      SortDescSpec(init, key);
      InsertSorted(SortDesc(init, key), x, key);
      InsertPerm(SortDesc(init, key), x, key);
      assert s == init + [x];
      forall v ensures WithKey(SortDesc(s, key), key, v) == WithKey(s, key, v) {
        InsertStable(SortDesc(init, key), x, key, v);
        WithKeyConcat(init, [x], key, v);
        assert [x][1..] == [];
      }
    }
  }

  /** Python's `s[:n]`. */
  function Take<T>(s: seq<T>, n: nat): (r: seq<T>)
    ensures |r| == if |s| <= n then |s| else n
    ensures |s| <= n ==> r == s
    ensures forall i :: 0 <= i < |r| ==> r[i] == s[i]
  {
    if |s| <= n then s else s[..n]
  }
}
