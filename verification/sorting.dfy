/** The stable sort `Array.prototype.sort(compare)` performs, as an insertion
    sort over sequences. `le(a, b)` stands for `compare(a, b) <= 0`. For a
    comparator that is a total preorder the sort is ordered (`SortBySorted`)
    and stable (`SortByStable`), and a stable sort has exactly one possible
    result, so this is the order the engine produces. */
module Sorting {

  ghost predicate TotalPreorder<T(!new)>(le: (T, T) -> bool) {
    && (forall a, b :: le(a, b) || le(b, a))
    && (forall a, b, c :: le(a, b) && le(b, c) ==> le(a, c))
  }

  ghost predicate SortedBy<T>(s: seq<T>, le: (T, T) -> bool) {
    forall i, j :: 0 <= i < j < |s| ==> le(s[i], s[j])
  }

  /** Inserts `x` in front of the first element it is not greater than;
      elements before it compare strictly below `x`. */
  function Insert<T>(x: T, s: seq<T>, le: (T, T) -> bool): (r: seq<T>)
    ensures |r| == |s| + 1
    ensures multiset(r) == multiset(s) + multiset{x}
  {
    if |s| == 0 then [x]
    else if le(x, s[0]) then [x] + s
    else
      assert s == [s[0]] + s[1..];
      [s[0]] + Insert(x, s[1..], le)
  }

  /** The stable sort of `s` by `le`: a permutation of `s`. */
  function SortBy<T>(s: seq<T>, le: (T, T) -> bool): (r: seq<T>)
    ensures |r| == |s|
    ensures multiset(r) == multiset(s)
  {
    if |s| == 0 then []
    else
      assert s == [s[0]] + s[1..];
      Insert(s[0], SortBy(s[1..], le), le)
  }

  lemma {:induction false} InsertSorted<T(!new)>(x: T, s: seq<T>, le: (T, T) -> bool)
    requires TotalPreorder(le)
    requires SortedBy(s, le)
    ensures SortedBy(Insert(x, s, le), le)
  {
    if |s| == 0 {
    } else if le(x, s[0]) {
      var r := [x] + s;
      forall i, j | 0 <= i < j < |r| ensures le(r[i], r[j]) {
        if i == 0 && j > 1 {
          assert le(s[0], s[j - 1]);
        }
      }
    } else {
      assert le(s[0], x);
      var tail := Insert(x, s[1..], le);
      InsertSorted(x, s[1..], le);
      var r := [s[0]] + tail;
      forall i, j | 0 <= i < j < |r| ensures le(r[i], r[j]) {
        if i == 0 {
          var y := tail[j - 1];
          assert y in multiset(tail);
          assert y == x || y in multiset(s[1..]);
          if y != x {
            assert y in s[1..];
            var k :| 0 <= k < |s[1..]| && s[1..][k] == y;
            assert s[k + 1] == y;
          }
        }
      }
    }
  }

  /** With a total preorder, the sort's output is in order. */
  lemma {:induction false} SortBySorted<T(!new)>(s: seq<T>, le: (T, T) -> bool)
    requires TotalPreorder(le)
    ensures SortedBy(SortBy(s, le), le)
  {
    if |s| > 0 {
      SortBySorted(s[1..], le);
      InsertSorted(s[0], SortBy(s[1..], le), le);
    }
  }

  /** The elements of `s` that `le` ranks level with `v`, in their order
      in `s`. */
  function LevelWith<T>(s: seq<T>, le: (T, T) -> bool, v: T): seq<T> {
    if |s| == 0 then []
    else (if le(s[0], v) && le(v, s[0]) then [s[0]] else []) + LevelWith(s[1..], le, v)
  }

  lemma LevelWithCons<T>(x: T, s: seq<T>, le: (T, T) -> bool, v: T)
    ensures LevelWith([x] + s, le, v) == (if le(x, v) && le(v, x) then [x] else []) + LevelWith(s, le, v)
  {
    assert ([x] + s)[1..] == s;
  }

  /** Inserting `x` puts it in front of every element level with it. */
  lemma {:induction false} LevelWithInsert<T(!new)>(x: T, s: seq<T>, le: (T, T) -> bool, v: T)
    requires TotalPreorder(le)
    ensures LevelWith(Insert(x, s, le), le, v)
         == (if le(x, v) && le(v, x) then [x] else []) + LevelWith(s, le, v)
  {
    if |s| == 0 {
      LevelWithCons(x, [], le, v);
    } else if le(x, s[0]) {
      LevelWithCons(x, s, le, v);
    } else {
      var tail := Insert(x, s[1..], le);
      LevelWithInsert(x, s[1..], le, v);
      LevelWithCons(s[0], tail, le, v);
      LevelWithCons(s[0], s[1..], le, v);
      assert s == [s[0]] + s[1..];
      assert !(le(x, v) && le(v, x) && le(s[0], v) && le(v, s[0]));
    }
  }

  /** Stability for any total preorder: the sort keeps the elements that
      compare equal in their input order. */
  lemma {:induction false} SortByStable<T(!new)>(s: seq<T>, le: (T, T) -> bool, v: T)
    requires TotalPreorder(le)
    ensures LevelWith(SortBy(s, le), le, v) == LevelWith(s, le, v)
  {
    if |s| > 0 {
      SortByStable(s[1..], le, v);
      LevelWithInsert(s[0], SortBy(s[1..], le), le, v);
    }
  }

  // ---------------------------------------------------------------------
  // Sorting by an integer key, as `(a, b) => key(a) - key(b)` does
  // ---------------------------------------------------------------------

  function ByKey<T>(key: T -> int): (T, T) -> bool {
    (a: T, b: T) => key(a) <= key(b)
  }

  lemma ByKeyIsTotalPreorder<T(!new)>(key: T -> int)
    ensures TotalPreorder(ByKey(key))
  {
  }

  /** The elements of `s` whose key is `v`, in their order in `s`. */
  function WithKey<T>(s: seq<T>, key: T -> int, v: int): seq<T> {
    if |s| == 0 then []
    else (if key(s[0]) == v then [s[0]] else []) + WithKey(s[1..], key, v)
  }

  lemma {:induction false} WithKeyInsert<T>(x: T, s: seq<T>, key: T -> int, v: int)
    ensures WithKey(Insert(x, s, ByKey(key)), key, v)
         == (if key(x) == v then [x] else []) + WithKey(s, key, v)
  {
    var le := ByKey(key);
    if |s| == 0 {
      WithKeyCons(x, [], key, v);
    } else if le(x, s[0]) {
      WithKeyCons(x, s, key, v);
    } else {
      var tail := Insert(x, s[1..], le);
      WithKeyInsert(x, s[1..], key, v);
      WithKeyCons(s[0], tail, key, v);
      WithKeyCons(s[0], s[1..], key, v);
      assert s == [s[0]] + s[1..];
      assert key(x) != v || key(s[0]) != v;
    }
  }

  lemma WithKeyCons<T>(x: T, s: seq<T>, key: T -> int, v: int)
    ensures WithKey([x] + s, key, v) == (if key(x) == v then [x] else []) + WithKey(s, key, v)
  {
    assert ([x] + s)[1..] == s;
  }

  /** Stability: sorting by a key keeps the elements that share a key in
      their input order. */
  lemma {:induction false} SortByKeyStable<T>(s: seq<T>, key: T -> int, v: int)
    ensures WithKey(SortBy(s, ByKey(key)), key, v) == WithKey(s, key, v)
  {
    if |s| > 0 {
      SortByKeyStable(s[1..], key, v);
      WithKeyInsert(s[0], SortBy(s[1..], ByKey(key)), key, v);
    }
  }
}
