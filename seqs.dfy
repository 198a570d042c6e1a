/**
 Sequence facts shared by the registry and the report: distinctness,
 `set(...)` of a list, first-seen de-duplication, the key order of an
 insertion-ordered dictionary, and sums of list lengths over such a dictionary.
 */
module Seqs {

  /** No element occurs twice. */
  ghost predicate Distinct<T>(s: seq<T>) {
    forall i, j :: 0 <= i < j < |s| ==> s[i] != s[j]
  }

  /** Python's `set(s)`. */
  function ElemSet<T(==)>(s: seq<T>): set<T>
  {
    set x | x in s
  }

  lemma DistinctAppend<T>(s: seq<T>, x: T)
    requires Distinct(s) && x !in s
    ensures Distinct(s + [x])
  {
  }

  /** A list without repeats has as many elements as its set. */
  lemma {:induction false} DistinctCard<T>(s: seq<T>)
    requires Distinct(s)
    ensures |ElemSet(s)| == |s|
  {
    if s != [] {
      var t := s[..|s| - 1];
      var last := s[|s| - 1];
      assert s == t + [last];
      DistinctCard(t);
      assert ElemSet(s) == ElemSet(t) + {last};
      assert last !in ElemSet(t);
    }
  }

  /** Index of the first occurrence of `x` in `s`. */
  function FirstIndex<T(==)>(s: seq<T>, x: T): (r: nat)
    requires x in s
    ensures r < |s| && s[r] == x && x !in s[..r]
  {
    if s[0] == x then 0 else 1 + FirstIndex(s[1..], x)
  }

  lemma {:induction false} FirstIndexAppend<T>(s: seq<T>, y: T, x: T)
    requires x in s
    ensures FirstIndex(s + [y], x) == FirstIndex(s, x)
  {
    if s[0] != x {
      assert (s + [y])[1..] == s[1..] + [y];
      FirstIndexAppend(s[1..], y, x);
    }
  }

  /** The elements of `s` in order of first appearance, each kept once. */
  function Dedup<T(==)>(s: seq<T>): seq<T>
    decreases |s|
  {
    if s == [] then []
    else
      var d := Dedup(s[..|s| - 1]);
      if s[|s| - 1] in d then d else d + [s[|s| - 1]]
  }

  /** `Dedup` keeps every element, drops nothing else, repeats nothing,
      and lists the elements by their first occurrence in `s`. */
  lemma {:induction false} DedupSpec<T>(s: seq<T>)
    ensures forall x :: x in Dedup(s) <==> x in s
    ensures Distinct(Dedup(s))
    ensures forall i, j :: 0 <= i < j < |Dedup(s)| ==>
              FirstIndex(s, Dedup(s)[i]) < FirstIndex(s, Dedup(s)[j])
    decreases |s|
  {
    if s != [] {
      var t, x := s[..|s| - 1], s[|s| - 1];
      assert s == t + [x];
      DedupSpec(t);
      var d := Dedup(t);
      forall y | y in t ensures FirstIndex(s, y) == FirstIndex(t, y) {
        FirstIndexAppend(t, x, y);
      }
      if x !in d {
        assert x !in t;
        assert FirstIndex(s, x) == |t|;
        DistinctAppend(d, x);
      }
    }
  }

  /** `order` lists the keys of `m` once each: the iteration order of a Python dict. */
  ghost predicate KeyOrder<K, V>(order: seq<K>, m: map<K, V>) {
    && Distinct(order)
    && (forall k | k in m :: k in order)
    && (forall i | 0 <= i < |order| :: order[i] in m)
  }

  lemma SubsetCard<T>(a: set<T>, b: set<T>)
    requires a <= b
    ensures |a| <= |b|
  {
    if a != {} {
      var x :| x in a;
      SubsetCard(a - {x}, b - {x});
    }
  }

  lemma KeyOrderCard<K, V>(order: seq<K>, m: map<K, V>)
    requires KeyOrder(order, m)
    ensures |m| == |order|
  {
    assert m.Keys == ElemSet(order);
    DistinctCard(order);
  }

  lemma KeyOrderAdd<K, V>(order: seq<K>, m: map<K, V>, k: K, v: V)
    requires KeyOrder(order, m)
    ensures KeyOrder(if k in m then order else order + [k], m[k := v])
  {
    if k !in m {
      DistinctAppend(order, k);
    }
  }

  /** The length of `m[k]`, or 0 where `k` is not a key. */
  function LengthAt<K, V>(m: map<K, seq<V>>, k: K): nat {
    if k in m then |m[k]| else 0
  }

  /** `sum(len(m[k]) for k in order)`. */
  function SumLengths<K, V>(order: seq<K>, m: map<K, seq<V>>): nat {
    if order == [] then 0 else LengthAt(m, order[0]) + SumLengths(order[1..], m)
  }

  lemma {:induction false} SumLengthsAppend<K, V>(order: seq<K>, m: map<K, seq<V>>, k: K)
    ensures SumLengths(order + [k], m) == SumLengths(order, m) + LengthAt(m, k)
  {
    if order != [] {
      assert (order + [k])[1..] == order[1..] + [k];
      SumLengthsAppend(order[1..], m, k);
    }
  }

  /** Only the lengths at the listed keys matter. */
  lemma {:induction false} SumLengthsFrame<K, V>(order: seq<K>, m: map<K, seq<V>>, m': map<K, seq<V>>)
    requires forall k :: k in order ==> LengthAt(m, k) == LengthAt(m', k)
    ensures SumLengths(order, m) == SumLengths(order, m')
  {
    if order != [] {
      SumLengthsFrame(order[1..], m, m');
    }
  }

  /** Growing one listed key's list by one grows the sum by one. */
  lemma {:induction false} SumLengthsBump<K, V>(order: seq<K>, m: map<K, seq<V>>, k: K, s: seq<V>)
    requires Distinct(order) && k in order && LengthAt(m, k) + 1 == |s|
    ensures SumLengths(order, m[k := s]) == SumLengths(order, m) + 1
  {
    if order[0] == k {
      assert k !in order[1..];
      SumLengthsFrame(order[1..], m, m[k := s]);
    } else {
      SumLengthsBump(order[1..], m, k, s);
    }
  }
}
