/**
 * Python's `list.sort(key=..., reverse=True)`: a stable sort into
 * non-increasing key order. Both the relevance re-rank of articles and the
 * ranking of candidate sentences use it. The model is an insertion sort that
 * inserts each element after every element whose key is at least its own,
 * which is what keeps equal keys in their original order.
 */
module Sorting {

  /** Keys never increase from left to right. */
  predicate SortedDesc<T>(s: seq<T>, key: T -> int) {
    forall i, j :: 0 <= i < j < |s| ==> key(s[i]) >= key(s[j])
  }

  /** The elements of `s` whose key is `v`, in their order in `s`. */
  function WithKey<T>(s: seq<T>, key: T -> int, v: int): seq<T> {
    if s == [] then []
    else (if key(s[0]) == v then [s[0]] else []) + WithKey(s[1..], key, v)
  }

  /** Places `x` after every element of `s` whose key is at least `key(x)`. */
  function InsertDesc<T>(x: T, s: seq<T>, key: T -> int): (r: seq<T>)
    ensures |r| == |s| + 1
    ensures multiset(r) == multiset(s) + multiset{x}
  {
    if s == [] then [x]
    else if key(s[0]) >= key(x) then
      assert s == [s[0]] + s[1..];
      [s[0]] + InsertDesc(x, s[1..], key)
    else [x] + s
  }

  /** The stable descending sort: elements are inserted in their input order. */
  function SortDesc<T>(s: seq<T>, key: T -> int): (r: seq<T>)
    ensures |r| == |s|
    ensures multiset(r) == multiset(s)
  {
    if s == [] then []
    else
      assert s == s[..|s| - 1] + [s[|s| - 1]];
      InsertDesc(s[|s| - 1], SortDesc(s[..|s| - 1], key), key)
  }

  lemma SortedHead<T>(s: seq<T>, key: T -> int)
    requires s != [] && SortedDesc(s, key)
    ensures forall j :: 0 <= j < |s| ==> key(s[0]) >= key(s[j])
  {
  }

  lemma SortedTail<T>(s: seq<T>, key: T -> int)
    requires s != [] && SortedDesc(s, key)
    ensures SortedDesc(s[1..], key)
  {
    forall i, j | 0 <= i < j < |s| - 1
      ensures key(s[1..][i]) >= key(s[1..][j])
    {
      assert s[1..][i] == s[i + 1] && s[1..][j] == s[j + 1];
    }
  }

  /** Putting in front an element whose key bounds every key of a sorted sequence keeps it sorted. */
  lemma SortedCons<T>(x: T, s: seq<T>, key: T -> int)
    requires SortedDesc(s, key)
    requires forall y :: y in multiset(s) ==> key(x) >= key(y)
    ensures SortedDesc([x] + s, key)
  {
    var out := [x] + s;
    forall i, j | 0 <= i < j < |out|
      ensures key(out[i]) >= key(out[j])
    {
      assert out[j] == s[j - 1];
      assert s[j - 1] in multiset(s);
      if i > 0 {
        assert out[i] == s[i - 1];
      }
    }
  }

  lemma {:induction false} InsertSorted<T>(x: T, s: seq<T>, key: T -> int)
    requires SortedDesc(s, key)
    ensures SortedDesc(InsertDesc(x, s, key), key)
    decreases |s|
  {
    if s == [] {
    } else if key(s[0]) >= key(x) {
      var t := s[1..];
      SortedHead(s, key);
      SortedTail(s, key);
      InsertSorted(x, t, key);
      var r := InsertDesc(x, t, key);
      forall y | y in multiset(r)
        ensures key(s[0]) >= key(y)
      {
        if y in multiset(t) {
          var k :| 0 <= k < |t| && t[k] == y;
          assert s[k + 1] == y;
        }
      }
      SortedCons(s[0], r, key);
    } else {
      SortedHead(s, key);
      forall y | y in multiset(s)
        ensures key(x) >= key(y)
      {
        var k :| 0 <= k < |s| && s[k] == y;
      }
      SortedCons(x, s, key);
    }
  }

  lemma {:induction false} WithKeyAppend<T>(a: seq<T>, b: seq<T>, key: T -> int, v: int)
    ensures WithKey(a + b, key, v) == WithKey(a, key, v) + WithKey(b, key, v)
  {
    if a == [] {
      assert a + b == b;
    } else {
      var x, tail := a[0], a[1..];
      assert a == [x] + tail;
      assert a + b == [x] + (tail + b);
      WithKeyAppend(tail, b, key, v);
      WithKeyCons(x, tail + b, key, v);
      WithKeyCons(x, tail, key, v);
    }
  }

  lemma {:induction false} WithKeyNone<T>(s: seq<T>, key: T -> int, v: int)
    requires forall i :: 0 <= i < |s| ==> key(s[i]) != v
    ensures WithKey(s, key, v) == []
  {
    if s != [] {
      WithKeyNone(s[1..], key, v);
    }
  }

  /** Elements with a key other than `v` contribute nothing to `WithKey(_, key, v)`. */
  lemma WithKeyCons<T>(x: T, s: seq<T>, key: T -> int, v: int)
    ensures WithKey([x] + s, key, v) == (if key(x) == v then [x] else []) + WithKey(s, key, v)
  {
    assert ([x] + s)[0] == x && ([x] + s)[1..] == s;
  }

  /** In a sorted sequence, the elements with key `key(x)` all come before the place where `x` goes. */
  lemma {:induction false} InsertWithKey<T>(x: T, s: seq<T>, key: T -> int, v: int)
    requires SortedDesc(s, key)
    ensures WithKey(InsertDesc(x, s, key), key, v)
         == WithKey(s, key, v) + (if key(x) == v then [x] else [])
    decreases |s|
  {
    if s == [] {
    } else if key(s[0]) >= key(x) {
      InsertWithKeyFront(x, s, key, v);
    } else {
      InsertWithKeyHere(x, s, key, v);
    }
  }

  lemma {:induction false} InsertWithKeyFront<T>(x: T, s: seq<T>, key: T -> int, v: int)
    requires SortedDesc(s, key) && s != [] && key(s[0]) >= key(x)
    ensures WithKey(InsertDesc(x, s, key), key, v)
         == WithKey(s, key, v) + (if key(x) == v then [x] else [])
    decreases |s|, 0
  {
    SortedTail(s, key);
    var r := InsertDesc(x, s[1..], key);
    InsertWithKey(x, s[1..], key, v);
    WithKeyCons(s[0], r, key, v);
    WithKeyCons(s[0], s[1..], key, v);
    assert [s[0]] + s[1..] == s;
  }

  lemma InsertWithKeyHere<T>(x: T, s: seq<T>, key: T -> int, v: int)
    requires SortedDesc(s, key) && s != [] && key(s[0]) < key(x)
    ensures WithKey(InsertDesc(x, s, key), key, v)
         == WithKey(s, key, v) + (if key(x) == v then [x] else [])
  {
    SortedHead(s, key);
    WithKeyCons(x, s, key, v);
    if key(x) == v {
      WithKeyNone(s, key, v);
    }
  }

  /** The sorted sequence is in non-increasing key order. */
  lemma {:induction false} SortDescSorted<T>(s: seq<T>, key: T -> int)
    ensures SortedDesc(SortDesc(s, key), key)
  {
    if s != [] {
      var init := s[..|s| - 1];
      SortDescSorted(init, key);
      InsertSorted(s[|s| - 1], SortDesc(init, key), key);
    }
  }

  /** For every key, the elements with that key keep their input order. */
  lemma {:induction false} SortDescStable<T>(s: seq<T>, key: T -> int, v: int)
    ensures WithKey(SortDesc(s, key), key, v) == WithKey(s, key, v)
  {
    if s != [] {
      var init, x := s[..|s| - 1], s[|s| - 1];
      assert s == init + [x];
      SortDescStable(init, key, v);
      SortDescSorted(init, key);
      InsertWithKey(x, SortDesc(init, key), key, v);
      WithKeyAppend(init, [x], key, v);
    }
  }

  /**
   * The sort's promise: the result is in non-increasing key order, is a
   * permutation of the input, and for every key keeps the elements with that
   * key in their input order (stability).
   */
  lemma SortDescCorrect<T>(s: seq<T>, key: T -> int)
    ensures SortedDesc(SortDesc(s, key), key)
    ensures multiset(SortDesc(s, key)) == multiset(s)
    ensures forall v :: WithKey(SortDesc(s, key), key, v) == WithKey(s, key, v)
  {
    SortDescSorted(s, key);
    forall v
      ensures WithKey(SortDesc(s, key), key, v) == WithKey(s, key, v)
    {
      SortDescStable(s, key, v);
    }
  }

  /** The first element of a non-empty sorted sequence has the largest key. */
  lemma SortedHeadIsMax<T>(s: seq<T>, key: T -> int)
    requires s != [] && SortedDesc(s, key)
    ensures forall y :: y in s ==> key(s[0]) >= key(y)
  {
  }
}
