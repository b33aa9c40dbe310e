/** The two collection idioms the script uses: de-duplication through a
    `Set`, and a plain object used as an ordered dictionary that sums values
    per key (`obj[k] = (obj[k] || 0) + v`). */
module Collections {

  predicate Distinct<T(==)>(s: seq<T>)
  {
    forall i, j :: 0 <= i < j < |s| ==> s[i] != s[j]
  }

  /** `[...new Set(s)]`: every element of `s` once, in first-occurrence order. */
  function Dedup<T(==)>(s: seq<T>): (r: seq<T>)
    ensures forall i :: 0 <= i < |r| ==> r[i] in s
    ensures forall i :: 0 <= i < |s| ==> s[i] in r
    ensures Distinct(r)
  {
    if |s| == 0 then []
    else
      var d := Dedup(s[..|s| - 1]);
      assert s == s[..|s| - 1] + [s[|s| - 1]];
      if s[|s| - 1] in d then d else d + [s[|s| - 1]]
  }

  /** The position of the first occurrence of `x` in `s`. */
  ghost function FirstIndex<T>(s: seq<T>, x: T): (i: nat)
    requires x in s
    ensures i < |s| && s[i] == x
    ensures forall j :: 0 <= j < i ==> s[j] != x
  {
    if s[0] == x then 0 else 1 + FirstIndex(s[1..], x)
  }

  lemma FirstIndexExtend<T>(s: seq<T>, y: T, x: T)
    requires x in s
    ensures FirstIndex(s + [y], x) == FirstIndex(s, x)
  {
    var i, i' := FirstIndex(s, x), FirstIndex(s + [y], x);
    assert (s + [y])[i] == x;
    if i' < |s| {
      assert s[i'] == x;
    }
  }

  /** The de-duplicated sequence lists elements in the order their first
      occurrences appear in the input. */
  lemma {:induction false} DedupFirstOccurrenceOrder<T>(s: seq<T>)
    ensures forall i, j :: 0 <= i < j < |Dedup(s)| ==> FirstIndex(s, Dedup(s)[i]) < FirstIndex(s, Dedup(s)[j])
  {
    if |s| > 0 {
      var p, y := s[..|s| - 1], s[|s| - 1];
      assert s == p + [y];
      DedupFirstOccurrenceOrder(p);
      var d := Dedup(p);
      forall x | x in d ensures FirstIndex(s, x) == FirstIndex(p, x) {
        FirstIndexExtend(p, y, x);
      }
      if y !in d {
        assert FirstIndex(s, y) == |p|;
      }
    }
  }

  /** A sequence without repetitions is its own de-duplication. */
  lemma {:induction false} DedupOfDistinct<T>(s: seq<T>)
    requires Distinct(s)
    ensures Dedup(s) == s
  {
    if |s| > 0 {
      var p := s[..|s| - 1];
      DedupOfDistinct(p);
      assert s[|s| - 1] !in p;
    }
  }

  /** Appending elements already present changes nothing. */
  lemma {:induction false} DedupAbsorbs<T>(s: seq<T>, t: seq<T>)
    requires forall i :: 0 <= i < |t| ==> t[i] in s
    ensures Dedup(s + t) == Dedup(s)
  {
    if |t| == 0 {
      assert s + t == s;
    } else {
      var p := t[..|t| - 1];
      DedupAbsorbs(s, p);
      assert (s + t)[..|s + t| - 1] == s + p;
      assert t[|t| - 1] in Dedup(s);
    }
  }

  /** A JavaScript object with string keys and number values: the keys in
      insertion order, and the value of each key. */
  datatype Dict = Dict(keys: seq<string>, values: map<string, real>)
  {
    ghost predicate Valid()
    {
      Distinct(keys) && forall k :: k in values <==> k in keys
    }
  }

  /** `obj[k] = (obj[k] || 0) + v`: a new key is added at the end. */
  function AddTo(d: Dict, k: string, v: real): Dict
  {
    if k in d.values then Dict(d.keys, d.values[k := d.values[k] + v])
    else Dict(d.keys + [k], d.values[k := v])
  }

  function KeysOf<T>(s: seq<T>, key: T -> string): (r: seq<string>)
    ensures |r| == |s|
    ensures forall i :: 0 <= i < |s| ==> r[i] == key(s[i])
  {
    seq(|s|, i requires 0 <= i < |s| => key(s[i]))
  }

  /** The sum of `val` over all elements. */
  function Sum<T>(s: seq<T>, val: T -> real): real
  {
    if |s| == 0 then 0.0 else Sum(s[..|s| - 1], val) + val(s[|s| - 1])
  }

  /** The sum of `val` over the elements whose key is `k`. */
  function SumWhere<T>(s: seq<T>, key: T -> string, val: T -> real, k: string): real
  {
    if |s| == 0 then 0.0
    else SumWhere(s[..|s| - 1], key, val, k) + (if key(s[|s| - 1]) == k then val(s[|s| - 1]) else 0.0)
  }

  /** What `s.forEach(e => obj[key(e)] = (obj[key(e)] || 0) + val(e))` leaves
      in an object that starts empty. */
  function Grouped<T>(s: seq<T>, key: T -> string, val: T -> real): Dict
  {
    if |s| == 0 then Dict([], map[])
    else AddTo(Grouped(s[..|s| - 1], key, val), key(s[|s| - 1]), val(s[|s| - 1]))
  }

  /** The sum of `m[k]` over the keys `ks`. */
  function SumOver(ks: seq<string>, m: map<string, real>): real
    requires forall k :: k in ks ==> k in m
  {
    if |ks| == 0 then 0.0 else SumOver(ks[..|ks| - 1], m) + m[ks[|ks| - 1]]
  }

  /** `AddTo` keeps the keys distinct and in step with the values. */
  lemma AddToValid(d: Dict, k: string, v: real)
    requires d.Valid()
    ensures AddTo(d, k, v).Valid()
    ensures AddTo(d, k, v).values.Keys == d.values.Keys + {k}
  {
  }

  /** The grouped object holds the keys of `s` in first-seen order, each
      once. */
  lemma {:induction false} GroupedKeys<T>(s: seq<T>, key: T -> string, val: T -> real)
    ensures Grouped(s, key, val).Valid()
    ensures Grouped(s, key, val).keys == Dedup(KeysOf(s, key))
    ensures forall k :: k in Grouped(s, key, val).values <==> k in KeysOf(s, key)
  {
    if |s| > 0 {
      var p, x := s[..|s| - 1], s[|s| - 1];
      GroupedKeys(p, key, val);
      var ks := KeysOf(p, key);
      KeysOfSnoc(p, x, key);
      assert s == p + [x];
      assert (ks + [key(x)])[..|ks|] == ks;
      AddToValid(Grouped(p, key, val), key(x), val(x));
    }
  }

  /** Under each key, the grouped object holds the sum of `val` over the
      elements with that key. */
  lemma {:induction false} GroupedValues<T>(s: seq<T>, key: T -> string, val: T -> real, k: string)
    requires k in Grouped(s, key, val).values
    ensures Grouped(s, key, val).values[k] == SumWhere(s, key, val, k)
  {
    var p, x := s[..|s| - 1], s[|s| - 1];
    GroupedKeys(p, key, val);
    if k in Grouped(p, key, val).values {
      GroupedValues(p, key, val, k);
    } else {
      assert k !in KeysOf(p, key);
      SumWhereAbsent(p, key, val, k);
    }
  }

  lemma KeysOfSnoc<T>(s: seq<T>, x: T, key: T -> string)
    ensures KeysOf(s + [x], key) == KeysOf(s, key) + [key(x)]
  {
  }

  lemma {:induction false} SumWhereAbsent<T>(s: seq<T>, key: T -> string, val: T -> real, k: string)
    requires k !in KeysOf(s, key)
    ensures SumWhere(s, key, val, k) == 0.0
  {
    if |s| > 0 {
      var p := s[..|s| - 1];
      assert KeysOf(s, key) == KeysOf(p, key) + [key(s[|s| - 1])];
      SumWhereAbsent(p, key, val, k);
    }
  }

  lemma {:induction false} SumOverSame(ks: seq<string>, m: map<string, real>, m': map<string, real>)
    requires forall k :: k in ks ==> k in m && k in m' && m[k] == m'[k]
    ensures SumOver(ks, m) == SumOver(ks, m')
  {
    if |ks| > 0 {
      SumOverSame(ks[..|ks| - 1], m, m');
    }
  }

  lemma {:induction false} SumOverAdd(ks: seq<string>, m: map<string, real>, k: string, v: real)
    requires Distinct(ks) && k in ks
    requires forall j :: j in ks ==> j in m
    ensures SumOver(ks, m[k := m[k] + v]) == SumOver(ks, m) + v
  {
    var p, y := ks[..|ks| - 1], ks[|ks| - 1];
    assert ks == p + [y];
    var m' := m[k := m[k] + v];
    if y == k {
      assert k !in p;
      SumOverSame(p, m, m');
    } else {
      SumOverAdd(p, m, k, v);
    }
  }

  /** Adding `v` under a key adds `v` to the sum of all values. */
  lemma AddToTotal(d: Dict, k: string, v: real)
    requires d.Valid()
    ensures SumOver(AddTo(d, k, v).keys, AddTo(d, k, v).values) == SumOver(d.keys, d.values) + v
  {
    if k in d.values {
      SumOverAdd(d.keys, d.values, k, v);
    } else {
      SumOverAppend(d.keys, d.values, k, v);
    }
  }

  lemma SumOverAppend(ks: seq<string>, m: map<string, real>, k: string, v: real)
    requires k !in ks
    requires forall j :: j in ks ==> j in m
    ensures SumOver(ks + [k], m[k := v]) == SumOver(ks, m) + v
  {
    var ks', m' := ks + [k], m[k := v];
    assert ks'[..|ks|] == ks;
    assert SumOver(ks', m') == SumOver(ks, m') + v;
    SumOverSame(ks, m, m');
  }

  /** The values of the grouped dictionary add up to the sum over all
      elements: nothing is counted twice and nothing is lost. */
  lemma {:induction false} GroupedTotal<T>(s: seq<T>, key: T -> string, val: T -> real)
    ensures Grouped(s, key, val).Valid()
    ensures SumOver(Grouped(s, key, val).keys, Grouped(s, key, val).values) == Sum(s, val)
  {
    GroupedKeys(s, key, val);
    if |s| > 0 {
      var p, x := s[..|s| - 1], s[|s| - 1];
      assert s == p + [x];
      GroupedTotal(p, key, val);
      GroupedKeys(p, key, val);
      AddToTotal(Grouped(p, key, val), key(x), val(x));
    }
  }

  /** With a value of one per element, each key's sum is the number of
      elements with that key. */
  lemma {:induction false} SumWhereCounts<T>(s: seq<T>, key: T -> string, val: T -> real, k: string)
    requires forall x :: val(x) == 1.0
    ensures SumWhere(s, key, val, k) == multiset(KeysOf(s, key))[k] as real
  {
    if |s| > 0 {
      var p := s[..|s| - 1];
      SumWhereCounts(p, key, val, k);
      assert KeysOf(s, key) == KeysOf(p, key) + [key(s[|s| - 1])];
    }
  }

  /** With a value of one per element, the values sum to the length. */
  lemma {:induction false} SumOfOnes<T>(s: seq<T>, val: T -> real)
    requires forall x :: val(x) == 1.0
    ensures Sum(s, val) == |s| as real
  {
    if |s| > 0 {
      SumOfOnes(s[..|s| - 1], val);
    }
  }
}
