/**
 `Array.prototype.sort` with a comparator of the form `(a, b) => key(a) - key(b)`.
 Since ECMAScript 2019 that sort is stable, so its result is fully determined:
 the elements ordered by key, with equal keys kept in their original order.
 The model computes it by insertion.
 */
module ArraySort {

  /** Keys never decrease along `s`. */
  predicate SortedBy<T>(s: seq<T>, key: T -> real)
  {
    forall i, j :: 0 <= i < j < |s| ==> key(s[i]) <= key(s[j])
  }

  /** The elements of `s` whose key is `k`, in their order in `s`. */
  function KeyClass<T>(s: seq<T>, key: T -> real, k: real): seq<T>
    decreases |s|
  {
    if |s| == 0 then []
    else (if key(s[0]) == k then [s[0]] else []) + KeyClass(s[1..], key, k)
  }

  lemma {:induction false} KeyClassConcat<T>(a: seq<T>, b: seq<T>, key: T -> real, k: real)
    ensures KeyClass(a + b, key, k) == KeyClass(a, key, k) + KeyClass(b, key, k)
    decreases |a|
  {
    if |a| == 0 {
      assert a + b == b;
    } else {
      var ab := a + b;
      assert ab[0] == a[0];
      assert ab[1..] == a[1..] + b;
      KeyClassConcat(a[1..], b, key, k);
      var head := if key(a[0]) == k then [a[0]] else [];
      assert KeyClass(ab, key, k) == head + KeyClass(a[1..] + b, key, k);
      assert KeyClass(a, key, k) == head + KeyClass(a[1..], key, k);
    }
  }

  lemma ConcatAssoc<T>(a: seq<T>, b: seq<T>, c: seq<T>)
    ensures a + (b + c) == (a + b) + c
  {
  }

  /** Places `x` just before the first element whose key exceeds `key(x)`. */
  function InsertByKey<T>(s: seq<T>, x: T, key: T -> real): seq<T>
    decreases |s|
  {
    if |s| == 0 then [x]
    else if key(x) < key(s[0]) then [x] + s
    else [s[0]] + InsertByKey(s[1..], x, key)
  }

  /** Insertion adds exactly `x`. */
  lemma {:induction false} InsertPermutes<T>(s: seq<T>, x: T, key: T -> real)
    ensures multiset(InsertByKey(s, x, key)) == multiset(s) + multiset{x}
    decreases |s|
  {
    if |s| > 0 && key(s[0]) <= key(x) {
      InsertPermutes(s[1..], x, key);
      assert s == [s[0]] + s[1..];
    }
  }

  /** Insertion into a sorted sequence keeps it sorted. */
  lemma {:induction false} InsertSorted<T>(s: seq<T>, x: T, key: T -> real)
    requires SortedBy(s, key)
    ensures SortedBy(InsertByKey(s, x, key), key)
    decreases |s|
  {
    if |s| > 0 && key(s[0]) <= key(x) {
      var tail := s[1..];
      var rest := InsertByKey(tail, x, key);
      InsertSorted(tail, x, key);
      InsertPermutes(tail, x, key);
      var grown := tail + [x];
      assert multiset(grown) == multiset(tail) + multiset{x};
      forall i | 0 <= i < |grown| ensures key(s[0]) <= key(grown[i]) {
        if i < |tail| {
          assert grown[i] == s[i + 1];
        }
      }
      LowerBoundPermutation(rest, grown, key, key(s[0]));
      ConsSorted(s[0], rest, key);
      assert InsertByKey(s, x, key) == [s[0]] + rest;
    }
  }

  /** A lower bound on the keys of `b` holds for any permutation of `b`. */
  lemma LowerBoundPermutation<T>(a: seq<T>, b: seq<T>, key: T -> real, lo: real)
    requires multiset(a) == multiset(b)
    requires forall i :: 0 <= i < |b| ==> lo <= key(b[i])
    ensures forall i :: 0 <= i < |a| ==> lo <= key(a[i])
  {
    forall i | 0 <= i < |a| ensures lo <= key(a[i]) {
      assert a[i] in multiset(b);
      var j :| 0 <= j < |b| && b[j] == a[i];
    }
  }

  /** Putting an element no greater than any key in front of a sorted sequence keeps it sorted. */
  lemma ConsSorted<T>(h: T, rest: seq<T>, key: T -> real)
    requires SortedBy(rest, key)
    requires forall i :: 0 <= i < |rest| ==> key(h) <= key(rest[i])
    ensures SortedBy([h] + rest, key)
  {
    var r := [h] + rest;
    forall i, j | 0 <= i < j < |r| ensures key(r[i]) <= key(r[j]) {
      assert r[j] == rest[j - 1];
      if i > 0 {
        assert r[i] == rest[i - 1];
      }
    }
  }

  /** A sorted sequence whose first key exceeds `k` has no element of key `k`. */
  lemma {:induction false} NoneBelow<T>(s: seq<T>, key: T -> real, k: real)
    requires SortedBy(s, key) && |s| > 0 && k < key(s[0])
    ensures KeyClass(s, key, k) == []
    decreases |s|
  {
    if |s| > 1 {
      NoneBelow(s[1..], key, k);
    }
  }

  /** Inserting `x` adds it at the end of its own key class and leaves every other class alone. */
  lemma {:induction false} InsertKeyClass<T>(s: seq<T>, x: T, key: T -> real, k: real)
    requires SortedBy(s, key)
    ensures KeyClass(InsertByKey(s, x, key), key, k) == KeyClass(s, key, k) + KeyClass([x], key, k)
    decreases |s|
  {
    if |s| == 0 {
      assert InsertByKey(s, x, key) == [x];
    } else if key(x) < key(s[0]) {
      assert InsertByKey(s, x, key) == [x] + s;
      KeyClassConcat([x], s, key, k);
      if key(x) == k {
        NoneBelow(s, key, k);
      }
    } else {
      InsertKeyClass(s[1..], x, key, k);
      InsertPastHead(s, x, key, k);
    }
  }

  /** One step of `InsertKeyClass` past the first element. */
  lemma InsertPastHead<T>(s: seq<T>, x: T, key: T -> real, k: real)
    requires SortedBy(s, key) && |s| > 0 && key(s[0]) <= key(x)
    requires KeyClass(InsertByKey(s[1..], x, key), key, k) == KeyClass(s[1..], key, k) + KeyClass([x], key, k)
    ensures KeyClass(InsertByKey(s, x, key), key, k) == KeyClass(s, key, k) + KeyClass([x], key, k)
  {
    var rest := InsertByKey(s[1..], x, key);
    var h := KeyClass([s[0]], key, k);
    assert InsertByKey(s, x, key) == [s[0]] + rest;
    assert [s[0]] + s[1..] == s;
    KeyClassConcat([s[0]], rest, key, k);
    KeyClassConcat([s[0]], s[1..], key, k);
    calc {
      KeyClass(InsertByKey(s, x, key), key, k);
      h + KeyClass(rest, key, k);
      h + (KeyClass(s[1..], key, k) + KeyClass([x], key, k));
      { ConcatAssoc(h, KeyClass(s[1..], key, k), KeyClass([x], key, k)); }
      (h + KeyClass(s[1..], key, k)) + KeyClass([x], key, k);
      KeyClass(s, key, k) + KeyClass([x], key, k);
    }
  }

  /** The stable sort of `s` by `key`: sorted and a permutation of `s`. */
  function SortByKey<T>(s: seq<T>, key: T -> real): (r: seq<T>)
    ensures |r| == |s|
    ensures SortedBy(r, key)
    ensures multiset(r) == multiset(s)
    decreases |s|
  {
    if |s| == 0 then []
    else
      var init := s[..|s| - 1];
      assert s == init + [s[|s| - 1]];
      var r := InsertByKey(SortByKey(init, key), s[|s| - 1], key);
      InsertSorted(SortByKey(init, key), s[|s| - 1], key);
      InsertPermutes(SortByKey(init, key), s[|s| - 1], key);
      assert |r| == |multiset(r)|;
      r
  }

  /** Stability: among elements with equal keys the sort keeps the input order. */
  lemma {:induction false} SortStable<T>(s: seq<T>, key: T -> real, k: real)
    ensures KeyClass(SortByKey(s, key), key, k) == KeyClass(s, key, k)
    decreases |s|
  {
    if |s| > 0 {
      var init := s[..|s| - 1];
      var last := s[|s| - 1];
      assert s == init + [last];
      SortStable(init, key, k);
      InsertKeyClass(SortByKey(init, key), last, key, k);
      KeyClassConcat(init, [last], key, k);
    }
  }
}
