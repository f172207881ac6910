/**
 * Python's `list.sort(key=...)`: a stable sort by a key. The framework sorts routes by a
 * descending (static count, segment count) pair and generated aliases by their lower-cased text;
 * both are instances of `SortBy` with a strict "comes before" order on keys.
 */
module StableSort {

  /** `before` is a strict order on keys: irreflexive and transitive. */
  ghost predicate StrictOrder<K(!new)>(before: (K, K) -> bool)
  {
    && (forall a :: !before(a, a))
    && (forall a, b, c :: before(a, b) && before(b, c) ==> before(a, c))
  }

  /** No later element's key comes before an earlier element's key. */
  ghost predicate Ordered<T, K>(s: seq<T>, key: T -> K, before: (K, K) -> bool)
  {
    forall i, j :: 0 <= i < j < |s| ==> !before(key(s[j]), key(s[i]))
  }

  /** The elements of `s` whose key is `k`, in their order in `s`. */
  function WithKey<T, K(==)>(s: seq<T>, key: T -> K, k: K): seq<T>
  {
    if s == [] then [] else (if key(s[0]) == k then [s[0]] else []) + WithKey(s[1..], key, k)
  }

  /** Puts `x` in front of the first element whose key `x`'s key comes before, i.e. after every tie. */
  function Insert<T, K>(x: T, s: seq<T>, key: T -> K, before: (K, K) -> bool): seq<T>
  {
    if s == [] then [x]
    else if before(key(x), key(s[0])) then [x] + s
    else [s[0]] + Insert(x, s[1..], key, before)
  }

  /** Insertion sort taking the input from left to right, so that ties keep their input order. */
  function SortBy<T, K>(s: seq<T>, key: T -> K, before: (K, K) -> bool): seq<T>
  {
    if s == [] then [] else Insert(s[|s| - 1], SortBy(s[..|s| - 1], key, before), key, before)
  }

  lemma {:induction false} WithKeyAppend<T, K>(a: seq<T>, b: seq<T>, key: T -> K, k: K)
    ensures WithKey(a + b, key, k) == WithKey(a, key, k) + WithKey(b, key, k)
  {
    if a == [] {
      assert a + b == b;
    } else {
      var ab := a + b;
      assert ab[0] == a[0];
      assert ab[1..] == a[1..] + b;
      WithKeyAppend(a[1..], b, key, k);
      var head := if key(a[0]) == k then [a[0]] else [];
      assert WithKey(ab, key, k) == head + WithKey(a[1..] + b, key, k);
      assert WithKey(a, key, k) == head + WithKey(a[1..], key, k);
    }
  }

  lemma {:induction false} InsertPermutes<T, K>(x: T, s: seq<T>, key: T -> K, before: (K, K) -> bool)
    ensures multiset(Insert(x, s, key, before)) == multiset(s) + multiset{x}
  {
    if s != [] && !before(key(x), key(s[0])) {
      InsertPermutes(x, s[1..], key, before);
      var rest := Insert(x, s[1..], key, before);
      assert s == [s[0]] + s[1..];
      assert multiset(Insert(x, s, key, before)) == multiset{s[0]} + multiset(rest);
      assert multiset(s) == multiset{s[0]} + multiset(s[1..]);
    }
  }

  lemma OrderedTail<T, K>(s: seq<T>, key: T -> K, before: (K, K) -> bool)
    requires s != [] && Ordered(s, key, before)
    ensures Ordered(s[1..], key, before)
  {
    forall i, j | 0 <= i < j < |s[1..]| ensures !before(key(s[1..][j]), key(s[1..][i])) {
      assert s[1..][i] == s[i + 1] && s[1..][j] == s[j + 1];
    }
  }

  lemma {:induction false} InsertOrdered<T, K(!new)>(x: T, s: seq<T>, key: T -> K, before: (K, K) -> bool)
    requires StrictOrder(before)
    requires Ordered(s, key, before)
    ensures Ordered(Insert(x, s, key, before), key, before)
  {
    var r := Insert(x, s, key, before);
    if s == [] {
    } else if before(key(x), key(s[0])) {
      forall i, j | 0 <= i < j < |r| ensures !before(key(r[j]), key(r[i])) {
        assert r[j] == s[j - 1];
        if i == 0 {
          if j - 1 > 0 {
            assert !before(key(s[j - 1]), key(s[0]));
          }
        } else {
          assert r[i] == s[i - 1];
        }
      }
    } else {
      var rest := Insert(x, s[1..], key, before);
      OrderedTail(s, key, before);
      InsertOrdered(x, s[1..], key, before);
      InsertPermutes(x, s[1..], key, before);
      forall i, j | 0 <= i < j < |r| ensures !before(key(r[j]), key(r[i])) {
        if i == 0 {
          assert r[j] == rest[j - 1];
          assert r[j] in multiset(s[1..]) + multiset{x};
          if r[j] != x {
            var m :| 0 <= m < |s[1..]| && s[1..][m] == r[j];
            assert s[m + 1] == r[j];
          }
        } else {
          assert r[i] == rest[i - 1] && r[j] == rest[j - 1];
        }
      }
    }
  }

  lemma {:induction false} InsertKeepsTies<T, K(!new)>(x: T, s: seq<T>, key: T -> K, before: (K, K) -> bool, k: K)
    requires StrictOrder(before)
    requires Ordered(s, key, before)
    ensures WithKey(Insert(x, s, key, before), key, k) == WithKey(s, key, k) + WithKey([x], key, k)
  {
    if s == [] {
    } else if before(key(x), key(s[0])) {
      InsertFrontKeepsTies(x, s, key, before, k);
    } else {
      OrderedTail(s, key, before);
      InsertKeepsTies(x, s[1..], key, before, k);
      InsertLaterKeepsTies(x, s, key, before, k);
    }
  }

  /** `x` goes in front: nothing in `s` ties with it, so its place among ties is unchanged. */
  lemma InsertFrontKeepsTies<T, K(!new)>(x: T, s: seq<T>, key: T -> K, before: (K, K) -> bool, k: K)
    requires StrictOrder(before)
    requires Ordered(s, key, before)
    requires s != [] && before(key(x), key(s[0]))
    ensures WithKey(Insert(x, s, key, before), key, k) == WithKey(s, key, k) + WithKey([x], key, k)
  {
    WithKeyAppend([x], s, key, k);
    if key(x) == k {
      NoneWithKey(s, key, before, x);
    } else {
      assert WithKey([x], key, k) == [];
    }
  }

  /** `x` goes after the head: the head's tie, if any, stays first. */
  lemma InsertLaterKeepsTies<T, K>(x: T, s: seq<T>, key: T -> K, before: (K, K) -> bool, k: K)
    requires s != [] && !before(key(x), key(s[0]))
    requires WithKey(Insert(x, s[1..], key, before), key, k) == WithKey(s[1..], key, k) + WithKey([x], key, k)
    ensures WithKey(Insert(x, s, key, before), key, k) == WithKey(s, key, k) + WithKey([x], key, k)
  {
    var rest := Insert(x, s[1..], key, before);
    var head := WithKey([s[0]], key, k);
    WithKeyAppend([s[0]], rest, key, k);
    WithKeyAppend([s[0]], s[1..], key, k);
    assert s == [s[0]] + s[1..];
    assert head + (WithKey(s[1..], key, k) + WithKey([x], key, k))
        == (head + WithKey(s[1..], key, k)) + WithKey([x], key, k);
  }

  /** In an ordered sequence that `x` comes before the head of, no element shares `x`'s key. */
  lemma NoneWithKey<T, K(!new)>(s: seq<T>, key: T -> K, before: (K, K) -> bool, x: T)
    requires StrictOrder(before)
    requires Ordered(s, key, before)
    requires s != [] && before(key(x), key(s[0]))
    ensures WithKey(s, key, key(x)) == []
  {
    forall i | 0 <= i < |s| ensures key(s[i]) != key(x) {
      if i > 0 {
        assert !before(key(s[i]), key(s[0]));
      }
    }
    NoneWithKeyAll(s, key, key(x));
  }

  lemma {:induction false} NoneWithKeyAll<T, K>(s: seq<T>, key: T -> K, k: K)
    requires forall i :: 0 <= i < |s| ==> key(s[i]) != k
    ensures WithKey(s, key, k) == []
  {
    if s != [] {
      assert key(s[0]) != k;
      NoneWithKeyAll(s[1..], key, k);
    }
  }

  /**
   * The sort is correct and stable: the output is ordered, it is a permutation of the input,
   * and for every key the elements carrying it appear in the same order as in the input.
   */
  lemma {:induction false} SortByCorrect<T, K(!new)>(s: seq<T>, key: T -> K, before: (K, K) -> bool)
    requires StrictOrder(before)
    ensures Ordered(SortBy(s, key, before), key, before)
    ensures multiset(SortBy(s, key, before)) == multiset(s)
    ensures forall k :: WithKey(SortBy(s, key, before), key, k) == WithKey(s, key, k)
  {
    if s != [] {
      var init, last := s[..|s| - 1], s[|s| - 1];
      var sorted := SortBy(init, key, before);
      SortByCorrect(init, key, before);
      InsertOrdered(last, sorted, key, before);
      InsertPermutes(last, sorted, key, before);
      assert s == init + [last];
      forall k ensures WithKey(SortBy(s, key, before), key, k) == WithKey(s, key, k) {
        InsertKeepsTies(last, sorted, key, before, k);
        WithKeyAppend(init, [last], key, k);
      }
    }
  }
}
