/** Descending sort by an integer key, as used for the room lists
    (sort_values by capacity, ujiandsb.py:245-246) and the sub-group
    fallback (sorted by remaining size, ujiandsb.py:540). Elements of equal
    key keep their input order. */
module Sorting {

  predicate SortedDesc<T>(s: seq<T>, key: T -> int)
  {
    forall i, j | 0 <= i < j < |s| :: key(s[i]) >= key(s[j])
  }

  /** Places `x` before the first element whose key is not larger. */
  function Insert<T>(x: T, s: seq<T>, key: T -> int): (r: seq<T>)
    ensures multiset(r) == multiset(s) + multiset{x}
    ensures |r| == |s| + 1
    ensures key(r[0]) == key(x) || (s != [] && key(r[0]) == key(s[0]))
  {
    if s == [] then [x]
    else if key(s[0]) <= key(x) then [x] + s
    else
      assert s == [s[0]] + s[1..];
      [s[0]] + Insert(x, s[1..], key)
  }

  lemma {:induction false} InsertSorted<T>(x: T, s: seq<T>, key: T -> int)
    requires SortedDesc(s, key)
    ensures SortedDesc(Insert(x, s, key), key)
  {
    if s != [] {
      if key(s[0]) <= key(x) {
        ConsSorted(x, s, key);
      } else {
        InsertSorted(x, s[1..], key);
        ConsSorted(s[0], Insert(x, s[1..], key), key);
      }
    }
  }

  lemma ConsSorted<T>(y: T, t: seq<T>, key: T -> int)
    requires SortedDesc(t, key) && (t != [] ==> key(y) >= key(t[0]))
    ensures SortedDesc([y] + t, key)
  {
    var r := [y] + t;
    forall i, j | 0 <= i < j < |r| ensures key(r[i]) >= key(r[j]) {
      if i == 0 && j > 1 {
        assert r[1] == t[0] && r[j] == t[j - 1];
      }
    }
  }

  /** A permutation of `s` in descending key order. */
  function SortDesc<T>(s: seq<T>, key: T -> int): (r: seq<T>)
    ensures multiset(r) == multiset(s)
    ensures SortedDesc(r, key)
  {
    if s == [] then []
    else
      assert s == [s[0]] + s[1..];
      InsertSorted(s[0], SortDesc(s[1..], key), key);
      Insert(s[0], SortDesc(s[1..], key), key)
  }

  /** A list already in descending order comes back unchanged. */
  lemma {:induction false} SortDescOfSorted<T>(s: seq<T>, key: T -> int)
    requires SortedDesc(s, key)
    ensures SortDesc(s, key) == s
  {
    if s != [] {
      SortDescOfSorted(s[1..], key);
      var t := s[1..];
      assert t == [] || key(t[0]) <= key(s[0]);
    }
  }

  /** The elements of key `v`, in order. */
  function WithKey<T>(s: seq<T>, key: T -> int, v: int): (r: seq<T>)
    ensures |r| <= |s|
  {
    if s == [] then [] else (if key(s[0]) == v then [s[0]] else []) + WithKey(s[1..], key, v)
  }

  lemma WithKeyCons<T>(y: T, t: seq<T>, key: T -> int, v: int)
    ensures WithKey([y] + t, key, v) == (if key(y) == v then [y] else []) + WithKey(t, key, v)
  {
    assert ([y] + t)[1..] == t;
  }

  lemma {:induction false} InsertWithKey<T>(x: T, t: seq<T>, key: T -> int, v: int)
    ensures WithKey(Insert(x, t, key), key, v) == (if key(x) == v then [x] else []) + WithKey(t, key, v)
  {
    if t == [] || key(t[0]) <= key(x) {
      WithKeyCons(x, t, key, v);
    } else {
      assert t == [t[0]] + t[1..];
      var rest := Insert(x, t[1..], key);
      assert Insert(x, t, key) == [t[0]] + rest;
      var mine := if key(x) == v then [x] else [];
      var head := if key(t[0]) == v then [t[0]] else [];
      var tail := WithKey(t[1..], key, v);
      InsertWithKey(x, t[1..], key, v);
      WithKeyCons(t[0], rest, key, v);
      WithKeyCons(t[0], t[1..], key, v);
      // One of `mine` and `head` is empty, since key(x) < key(t[0]).
      if key(t[0]) == v {
        assert mine + tail == tail;
      } else {
        assert head + (mine + tail) == mine + tail;
        assert head + tail == tail;
      }
    }
  }

  /** The sort is stable: the elements of any one key keep their input
      order. */
  lemma {:induction false} SortDescStable<T>(s: seq<T>, key: T -> int, v: int)
    ensures WithKey(SortDesc(s, key), key, v) == WithKey(s, key, v)
  {
    if s != [] {
      SortDescStable(s[1..], key, v);
      InsertWithKey(s[0], SortDesc(s[1..], key), key, v);
    }
  }
}
