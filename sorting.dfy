/** Python's `sorted(xs, key=...)` for keys that are int tuples or strings: a stable sort. */
module Sorting {
  import opened Order

  /** No element is strictly before an element to its left. */
  ghost predicate SortedBy<T>(s: seq<T>, key: T -> seq<int>) {
    forall i, j :: 0 <= i < j < |s| ==> !LexLess(key(s[j]), key(s[i]))
  }

  /** No two elements share a key. */
  ghost predicate DistinctBy<T>(s: seq<T>, key: T -> seq<int>) {
    forall i, j :: 0 <= i < j < |s| ==> key(s[i]) != key(s[j])
  }

  /** Keys strictly ascend from left to right. */
  ghost predicate StrictlyAscendingBy<T>(s: seq<T>, key: T -> seq<int>) {
    forall i, j :: 0 <= i < j < |s| ==> LexLess(key(s[i]), key(s[j]))
  }

  /** Puts `x` in front of the first element of `s` that is not strictly before it, so
      that `x` stays ahead of the equal-keyed elements that followed it in the input. */
  function Insert<T>(x: T, s: seq<T>, key: T -> seq<int>): (r: seq<T>)
    ensures |r| == |s| + 1
    ensures multiset(r) == multiset(s) + multiset{x}
  {
    if s == [] || !LexLess(key(s[0]), key(x)) then [x] + s
    else
      assert s == [s[0]] + s[1..];
      [s[0]] + Insert(x, s[1..], key)
  }

  /** Stable insertion sort: the model of Python's `sorted` with a `key`. */
  function SortBy<T>(s: seq<T>, key: T -> seq<int>): (r: seq<T>)
    ensures |r| == |s|
    ensures multiset(r) == multiset(s)
    ensures SortedBy(r, key)
  {
    if s == [] then []
    else
      assert s == [s[0]] + s[1..];
      var rest := SortBy(s[1..], key);
      InsertKeepsSorted(s[0], rest, key);
      Insert(s[0], rest, key)
  }

  lemma {:induction false} InsertKeepsSorted<T>(x: T, s: seq<T>, key: T -> seq<int>)
    requires SortedBy(s, key)
    ensures SortedBy(Insert(x, s, key), key)
  {
    var r := Insert(x, s, key);
    if s == [] {
    } else if !LexLess(key(s[0]), key(x)) {
      forall i, j | 0 <= i < j < |r| ensures !LexLess(key(r[j]), key(r[i])) {
        if i == 0 {
          if j > 1 {
            LexLeqTransitive(key(x), key(s[0]), key(s[j - 1]));
          }
        } else {
          assert r[i] == s[i - 1] && r[j] == s[j - 1];
        }
      }
    } else {
      var t := Insert(x, s[1..], key);
      InsertKeepsSorted(x, s[1..], key);
      assert r == [s[0]] + t;
      LexLessAsymmetric(key(s[0]), key(x));
      forall j | 0 < j < |r| ensures !LexLess(key(r[j]), key(r[0])) {
        assert r[j] in multiset(t);
        assert r[j] == x || r[j] in multiset(s[1..]);
        if r[j] != x {
          var k :| 0 <= k < |s[1..]| && s[1..][k] == r[j];
          assert s[k + 1] == r[j];
        }
      }
    }
  }

  /** Sorting input that is already in order leaves it unchanged (stability). */
  lemma {:induction false} SortByOfSorted<T>(s: seq<T>, key: T -> seq<int>)
    requires SortedBy(s, key)
    ensures SortBy(s, key) == s
  {
    if s != [] {
      assert SortedBy(s[1..], key) by {
        forall i, j | 0 <= i < j < |s[1..]| ensures !LexLess(key(s[1..][j]), key(s[1..][i])) {
          assert s[1..][i] == s[i + 1] && s[1..][j] == s[j + 1];
        }
      }
      SortByOfSorted(s[1..], key);
      assert s == [s[0]] + s[1..];
    }
  }

  /** The elements of `s` whose key is `k`, in order. */
  function WithKey<T>(s: seq<T>, key: T -> seq<int>, k: seq<int>): (r: seq<T>)
    ensures forall x :: x in r ==> x in s && key(x) == k
  {
    if s == [] then [] else (if key(s[0]) == k then [s[0]] else []) + WithKey(s[1..], key, k)
  }

  /** Inserting `x` puts it ahead of the elements with its key, and moves no other element
      past one with the same key. */
  lemma {:induction false} InsertWithKey<T>(x: T, s: seq<T>, key: T -> seq<int>, k: seq<int>)
    ensures WithKey(Insert(x, s, key), key, k) == (if key(x) == k then [x] else []) + WithKey(s, key, k)
  {
    var r := Insert(x, s, key);
    if s == [] || !LexLess(key(s[0]), key(x)) {
      assert r == [x] + s;
      assert r[0] == x && r[1..] == s;
    } else {
      InsertWithKey(x, s[1..], key, k);
      InsertWithKeyStep(x, s, key, k);
    }
  }

  /** Inserting past an element whose key is strictly before that of `x`. */
  lemma InsertWithKeyStep<T>(x: T, s: seq<T>, key: T -> seq<int>, k: seq<int>)
    requires s != [] && LexLess(key(s[0]), key(x))
    requires WithKey(Insert(x, s[1..], key), key, k) == (if key(x) == k then [x] else []) + WithKey(s[1..], key, k)
    ensures WithKey(Insert(x, s, key), key, k) == (if key(x) == k then [x] else []) + WithKey(s, key, k)
  {
    var r, t := Insert(x, s, key), Insert(x, s[1..], key);
    var hx := if key(x) == k then [x] else [];
    var h0 := if key(s[0]) == k then [s[0]] else [];
    var w := WithKey(s[1..], key, k);
    assert r == [s[0]] + t;
    assert r[0] == s[0] && r[1..] == t;
    assert WithKey(r, key, k) == h0 + WithKey(t, key, k);
    assert WithKey(s, key, k) == h0 + w;
    LexLessIrreflexive(key(x));
    if key(s[0]) == k {
      assert hx == [] && hx + w == w;
    } else {
      assert h0 == [] && h0 + w == w && h0 + (hx + w) == hx + w;
    }
  }

  /** Stability: the sort keeps the input order of elements with equal keys. */
  lemma {:induction false} SortByStable<T>(s: seq<T>, key: T -> seq<int>, k: seq<int>)
    ensures WithKey(SortBy(s, key), key, k) == WithKey(s, key, k)
  {
    if s != [] {
      SortByStable(s[1..], key, k);
      InsertWithKey(s[0], SortBy(s[1..], key), key, k);
    }
  }

  /** Sorting keeps keys distinct. */
  lemma SortByKeepsDistinct<T>(s: seq<T>, key: T -> seq<int>)
    requires DistinctBy(s, key)
    ensures DistinctBy(SortBy(s, key), key)
  {
    var r := SortBy(s, key);
    forall i, j | 0 <= i < j < |r| ensures key(r[i]) != key(r[j]) {
      if key(r[i]) == key(r[j]) {
        assert r[i] in multiset(s) && r[j] in multiset(s);
        var a :| 0 <= a < |s| && s[a] == r[i];
        var b :| 0 <= b < |s| && s[b] == r[j];
        if a == b {
          // r[i] == r[j]: the same value twice in r, so twice in s.
          assert r[i] == r[j];
          TwiceInSequence(r, i, j);
          assert multiset(s)[r[i]] >= 2;
          OnceIfDistinct(s, a, key);
          assert false;
        }
      }
    }
  }

  lemma TwiceInSequence<T>(s: seq<T>, i: nat, j: nat)
    requires i < j < |s| && s[i] == s[j]
    ensures multiset(s)[s[i]] >= 2
  {
    assert s == s[..i] + [s[i]] + s[i + 1..j] + [s[j]] + s[j + 1..];
  }

  lemma {:induction false} OnceIfDistinct<T>(s: seq<T>, a: nat, key: T -> seq<int>)
    requires DistinctBy(s, key) && a < |s|
    ensures multiset(s)[s[a]] == 1
  {
    var x := s[a];
    assert s == s[..a] + [x] + s[a + 1..];
    forall k | 0 <= k < |s| && k != a ensures s[k] != x {
      if k < a { assert key(s[k]) != key(s[a]); } else { assert key(s[a]) != key(s[k]); }
    }
    assert x !in s[..a];
    assert x !in s[a + 1..];
  }

  /** Sorted with distinct keys means strictly ascending. */
  lemma SortedDistinctIsAscending<T>(s: seq<T>, key: T -> seq<int>)
    requires SortedBy(s, key) && DistinctBy(s, key)
    ensures StrictlyAscendingBy(s, key)
  {
    forall i, j | 0 <= i < j < |s| ensures LexLess(key(s[i]), key(s[j])) {
      LexLessTotal(key(s[i]), key(s[j]));
    }
  }
}
