/** Sort keys and the stable sort the script gets from `Array.prototype.sort`. */
module Ordering {

  /** A numeric sort key, or the `Infinity` the script substitutes for the
      string "Infinity"; `Infinity` is larger than every number and equal to
      itself (`Infinity - Infinity` is NaN, which a comparator reads as 0). */
  datatype SortKey = Finite(value: real) | Inf

  /** The comparator's answer is negative: `a` sorts strictly before `b`. */
  predicate KeyLess(a: SortKey, b: SortKey)
  {
    match a
    case Inf => false
    case Finite(x) => b.Inf? || x < b.value
  }

  predicate KeyLe(a: SortKey, b: SortKey)
  {
    !KeyLess(b, a)
  }

  /** Every element's key is at most that of every later element. */
  ghost predicate SortedBy<T>(s: seq<T>, key: T -> SortKey)
  {
    forall i, j :: 0 <= i < j < |s| ==> KeyLe(key(s[i]), key(s[j]))
  }

  /** The elements of `s` whose key is `k`, in their order in `s`. */
  function WithKey<T>(s: seq<T>, key: T -> SortKey, k: SortKey): seq<T>
  {
    if |s| == 0 then []
    else (if key(s[0]) == k then [s[0]] else []) + WithKey(s[1..], key, k)
  }

  /** Places `x` in front of the first element whose key is not strictly
      smaller than its own. */
  function Insert<T>(x: T, s: seq<T>, key: T -> SortKey): (r: seq<T>)
    ensures |r| == |s| + 1
  {
    if |s| == 0 then [x]
    else if KeyLess(key(s[0]), key(x)) then [s[0]] + Insert(x, s[1..], key)
    else [x] + s
  }

  /** A stable sort ascending by `key`: insertion of the head into the sorted
      tail, so that an element precedes every later element with the same key. */
  function SortBy<T>(s: seq<T>, key: T -> SortKey): (r: seq<T>)
    ensures |r| == |s|
  {
    if |s| == 0 then [] else Insert(s[0], SortBy(s[1..], key), key)
  }

  /** `s.slice(0, n)`. */
  function Take<T>(s: seq<T>, n: nat): (r: seq<T>)
    ensures |r| == if n < |s| then n else |s|
    ensures r <= s
  {
    if n < |s| then s[..n] else s
  }

  lemma {:induction false} InsertPermutation<T>(x: T, s: seq<T>, key: T -> SortKey)
    ensures multiset(Insert(x, s, key)) == multiset(s) + multiset{x}
  {
    if |s| > 0 && KeyLess(key(s[0]), key(x)) {
      InsertPermutation(x, s[1..], key);
      assert s == [s[0]] + s[1..];
    }
  }

  lemma {:induction false} SortByPermutation<T>(s: seq<T>, key: T -> SortKey)
    ensures multiset(SortBy(s, key)) == multiset(s)
  {
    if |s| > 0 {
      SortByPermutation(s[1..], key);
      InsertPermutation(s[0], SortBy(s[1..], key), key);
      assert s == [s[0]] + s[1..];
    }
  }

  lemma {:induction false} InsertSorted<T>(x: T, s: seq<T>, key: T -> SortKey)
    requires SortedBy(s, key)
    ensures SortedBy(Insert(x, s, key), key)
  {
    if |s| > 0 && KeyLess(key(s[0]), key(x)) {
      assert SortedBy(s[1..], key);
      InsertSorted(x, s[1..], key);
      var r := Insert(x, s[1..], key);
      InsertPermutation(x, s[1..], key);
      forall j | 0 <= j < |r| ensures KeyLe(key(s[0]), key(r[j])) {
        assert r[j] in multiset(s[1..]) + multiset{x};
        if r[j] != x {
          assert r[j] in s[1..];
        }
      }
    }
  }

  lemma {:induction false} SortBySorted<T>(s: seq<T>, key: T -> SortKey)
    ensures SortedBy(SortBy(s, key), key)
  {
    if |s| > 0 {
      SortBySorted(s[1..], key);
      InsertSorted(s[0], SortBy(s[1..], key), key);
    }
  }

  lemma {:induction false} WithKeyAppend<T>(a: seq<T>, b: seq<T>, key: T -> SortKey, k: SortKey)
    ensures WithKey(a + b, key, k) == WithKey(a, key, k) + WithKey(b, key, k)
  {
    if |a| > 0 {
      assert (a + b)[1..] == a[1..] + b;
      WithKeyAppend(a[1..], b, key, k);
    } else {
      assert a + b == b;
    }
  }

  /** Inserting `x` adds it in front of the elements with its key and
      changes nothing else about them. */
  lemma {:induction false} InsertWithKey<T>(x: T, s: seq<T>, key: T -> SortKey, k: SortKey)
    ensures WithKey(Insert(x, s, key), key, k) == (if key(x) == k then [x] else []) + WithKey(s, key, k)
  {
    if |s| > 0 && KeyLess(key(s[0]), key(x)) {
      InsertWithKey(x, s[1..], key, k);
      WithKeyAppend([s[0]], Insert(x, s[1..], key), key, k);
      if key(x) == k {
        assert key(s[0]) != k;
      }
    } else {
      WithKeyAppend([x], s, key, k);
    }
  }

  /** Stability: the elements sharing a key keep their input order. */
  lemma {:induction false} SortByStable<T>(s: seq<T>, key: T -> SortKey, k: SortKey)
    ensures WithKey(SortBy(s, key), key, k) == WithKey(s, key, k)
  {
    if |s| > 0 {
      SortByStable(s[1..], key, k);
      InsertWithKey(s[0], SortBy(s[1..], key), key, k);
    }
  }

  /** `a.sort(comparator)`: the array is rearranged in place into the stable
      order. */
  method SortInPlace<T>(a: array<T>, key: T -> SortKey)
    modifies a
    ensures a[..] == SortBy(old(a[..]), key)
  {
    var sorted := SortBy(a[..], key);
    forall i | 0 <= i < a.Length {
      a[i] := sorted[i];
    }
  }
}
