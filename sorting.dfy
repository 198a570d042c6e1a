/**
 The two uses of Python's `sorted` in the report: integers in ascending order
 (the ID listing and the conflict section), and a stable sort of records by a
 string key (the name index, files within a conflict, names within a file).
 Both are insertion sorts; they are specified by what `sorted` guarantees:
 the result is ordered, is a permutation of the input, and (for the keyed sort)
 keeps records with equal keys in their input order.
 */
module Sorting {
  import opened Text
  import opened Seqs

  ghost predicate Ascending(s: seq<int>) {
    forall i, j :: 0 <= i < j < |s| ==> s[i] <= s[j]
  }

  ghost predicate StrictlyAscending(s: seq<int>) {
    forall i, j :: 0 <= i < j < |s| ==> s[i] < s[j]
  }

  function InsertInt(x: int, s: seq<int>): (r: seq<int>)
    ensures multiset(r) == multiset{x} + multiset(s)
  {
    if s == [] || x <= s[0] then [x] + s
    else
      assert s == [s[0]] + s[1..];
      [s[0]] + InsertInt(x, s[1..])
  }

  /** Putting a lower bound in front of an ascending sequence keeps it ascending. */
  lemma AscendingCons(a: int, t: seq<int>)
    requires Ascending(t) && forall y | y in t :: a <= y
    ensures Ascending([a] + t)
  {
    var r := [a] + t;
    forall i, j | 0 <= i < j < |r| ensures r[i] <= r[j] {
      assert r[j] == t[j - 1] && t[j - 1] in t;
      if i > 0 {
        assert r[i] == t[i - 1];
      }
    }
  }

  lemma InsertIntAtLeast(lo: int, x: int, s: seq<int>)
    requires lo <= x && forall y | y in s :: lo <= y
    ensures forall y | y in InsertInt(x, s) :: lo <= y
  {
    var r := InsertInt(x, s);
    assert multiset(r) == multiset{x} + multiset(s);
    forall y | y in r ensures lo <= y {
      assert y in multiset(r);
      if y != x {
        assert y in multiset(s);
        assert y in s;
      }
    }
  }

  lemma {:induction false} InsertIntAscending(x: int, s: seq<int>)
    requires Ascending(s)
    ensures Ascending(InsertInt(x, s))
  {
    if s == [] || x <= s[0] {
      forall y | y in s ensures x <= y {
        var k :| 0 <= k < |s| && s[k] == y;
      }
      AscendingCons(x, s);
    } else {
      var tail := s[1..];
      assert Ascending(tail) by {
        forall i, j | 0 <= i < j < |tail| ensures tail[i] <= tail[j] {
          assert tail[i] == s[i + 1] && tail[j] == s[j + 1];
        }
      }
      InsertIntAscending(x, tail);
      forall y | y in tail ensures s[0] <= y {
        var k :| 0 <= k < |tail| && tail[k] == y;
        assert s[k + 1] == y;
      }
      InsertIntAtLeast(s[0], x, tail);
      AscendingCons(s[0], InsertInt(x, tail));
    }
  }

  /** `sorted(s)` for integers. */
  function SortInts(s: seq<int>): (r: seq<int>)
    ensures multiset(r) == multiset(s)
    ensures Ascending(r)
  {
    if s == [] then []
    else
      assert s == [s[0]] + s[1..];
      InsertIntAscending(s[0], SortInts(s[1..]));
      InsertInt(s[0], SortInts(s[1..]))
  }

  /** Sorting integers without repeats gives a strictly increasing sequence. */
  lemma SortIntsStrict(s: seq<int>)
    requires Distinct(s)
    ensures StrictlyAscending(SortInts(s))
  {
    PermutationDistinct(s, SortInts(s));
  }

  /** A permutation of a sequence without repeats has no repeats. */
  lemma PermutationDistinct<T>(s: seq<T>, r: seq<T>)
    requires Distinct(s) && multiset(r) == multiset(s)
    ensures Distinct(r)
  {
    forall i, j | 0 <= i < j < |r| ensures r[i] != r[j] {
      if r[i] == r[j] {
        MultisetTwice(r, i, j);
        NoRepeatMultiset(s, r[i]);
        assert false;
      }
    }
  }

  lemma MultisetTwice<T>(s: seq<T>, i: int, j: int)
    requires 0 <= i < j < |s| && s[i] == s[j]
    ensures multiset(s)[s[i]] >= 2
  {
    assert s == s[..j] + s[j..];
    assert s[i] in s[..j];
    assert s[j] in s[j..];
    assert multiset(s) == multiset(s[..j]) + multiset(s[j..]);
  }

  lemma {:induction false} NoRepeatMultiset<T>(s: seq<T>, x: T)
    requires Distinct(s)
    ensures multiset(s)[x] <= 1
  {
    if s != [] {
      assert s == [s[0]] + s[1..];
      NoRepeatMultiset(s[1..], x);
      if s[0] == x {
        assert x !in s[1..];
      }
    }
  }

  /** Records ordered by the string key (Python's `<=` on strings). */
  ghost predicate SortedBy<T>(s: seq<T>, key: T -> string) {
    forall i, j :: 0 <= i < j < |s| ==> LexLe(key(s[i]), key(s[j]))
  }

  /** Insert `x` before the first element whose key is not smaller. */
  function InsertBy<T>(x: T, s: seq<T>, key: T -> string): (r: seq<T>)
    ensures multiset(r) == multiset{x} + multiset(s)
  {
    if s == [] || LexLe(key(x), key(s[0])) then [x] + s
    else
      assert s == [s[0]] + s[1..];
      [s[0]] + InsertBy(x, s[1..], key)
  }

  /** Putting a record with the least key in front keeps a sequence sorted. */
  lemma SortedByCons<T>(a: T, t: seq<T>, key: T -> string)
    requires SortedBy(t, key) && forall y | y in t :: LexLe(key(a), key(y))
    ensures SortedBy([a] + t, key)
  {
    var r := [a] + t;
    forall i, j | 0 <= i < j < |r| ensures LexLe(key(r[i]), key(r[j])) {
      assert r[j] == t[j - 1] && t[j - 1] in t;
      if i > 0 {
        assert r[i] == t[i - 1];
      }
    }
  }

  lemma InsertByAtLeast<T>(a: T, x: T, s: seq<T>, key: T -> string)
    requires LexLe(key(a), key(x)) && forall y | y in s :: LexLe(key(a), key(y))
    ensures forall y | y in InsertBy(x, s, key) :: LexLe(key(a), key(y))
  {
    forall y | y in InsertBy(x, s, key) ensures LexLe(key(a), key(y)) {
      assert y in multiset(InsertBy(x, s, key));
      if y != x {
        assert y in multiset(s);
      }
    }
  }

  lemma {:induction false} InsertBySorted<T>(x: T, s: seq<T>, key: T -> string)
    requires SortedBy(s, key)
    ensures SortedBy(InsertBy(x, s, key), key)
  {
    if s == [] || LexLe(key(x), key(s[0])) {
      forall y | y in s ensures LexLe(key(x), key(y)) {
        var k :| 0 <= k < |s| && s[k] == y;
        if k > 0 {
          LexLeTransitive(key(x), key(s[0]), key(s[k]));
        }
      }
      SortedByCons(x, s, key);
    } else {
      var tail := s[1..];
      assert SortedBy(tail, key) by {
        forall i, j | 0 <= i < j < |tail| ensures LexLe(key(tail[i]), key(tail[j])) {
          assert tail[i] == s[i + 1] && tail[j] == s[j + 1];
        }
      }
      InsertBySorted(x, tail, key);
      forall y | y in tail ensures LexLe(key(s[0]), key(y)) {
        var k :| 0 <= k < |tail| && tail[k] == y;
        assert s[k + 1] == y;
      }
      LexLeTotal(key(x), key(s[0]));
      InsertByAtLeast(s[0], x, tail, key);
      SortedByCons(s[0], InsertBy(x, tail, key), key);
    }
  }

  /** `sorted(s, key=key)`: Python's sort is stable, and so is this one. */
  function SortBy<T>(s: seq<T>, key: T -> string): (r: seq<T>)
    ensures multiset(r) == multiset(s)
  {
    if s == [] then []
    else
      assert s == [s[0]] + s[1..];
      InsertBy(s[0], SortBy(s[1..], key), key)
  }

  lemma {:induction false} SortBySorted<T>(s: seq<T>, key: T -> string)
    ensures SortedBy(SortBy(s, key), key)
  {
    if s != [] {
      SortBySorted(s[1..], key);
      InsertBySorted(s[0], SortBy(s[1..], key), key);
    }
  }

  /** The records of `s` whose key is `k`, in their order in `s`. */
  function WithKey<T>(s: seq<T>, key: T -> string, k: string): seq<T> {
    if s == [] then [] else (if key(s[0]) == k then [s[0]] else []) + WithKey(s[1..], key, k)
  }

  lemma {:induction false} WithKeyConcat<T>(a: seq<T>, b: seq<T>, key: T -> string, k: string)
    ensures WithKey(a + b, key, k) == WithKey(a, key, k) + WithKey(b, key, k)
  {
    if a != [] {
      assert (a + b)[1..] == a[1..] + b;
      assert (a + b)[0] == a[0];
      WithKeyConcat(a[1..], b, key, k);
      var h := if key(a[0]) == k then [a[0]] else [];
      assert WithKey(a + b, key, k) == h + WithKey(a[1..] + b, key, k);
      assert WithKey(a, key, k) == h + WithKey(a[1..], key, k);
      assert h + (WithKey(a[1..], key, k) + WithKey(b, key, k))
          == (h + WithKey(a[1..], key, k)) + WithKey(b, key, k);
    } else {
      assert a + b == b;
    }
  }

  lemma WithKeySingle<T>(x: T, key: T -> string, k: string)
    ensures WithKey([x], key, k) == if key(x) == k then [x] else []
  {
    assert [x][1..] == [];
  }

  lemma {:induction false} InsertByWithKey<T>(x: T, s: seq<T>, key: T -> string, k: string)
    ensures WithKey(InsertBy(x, s, key), key, k) == WithKey([x] + s, key, k)
  {
    if s != [] && !LexLe(key(x), key(s[0])) {
      var tail := s[1..];
      var t := InsertBy(x, tail, key);
      assert InsertBy(x, s, key) == [s[0]] + t;
      assert s == [s[0]] + tail;
      InsertByWithKey(x, tail, key, k);
      LexLeRefl(key(x));
      var wx, w0 := WithKey([x], key, k), WithKey([s[0]], key, k);
      WithKeySingle(x, key, k);
      WithKeySingle(s[0], key, k);
      assert w0 + wx == wx + w0;
      WithKeyConcat([s[0]], t, key, k);
      WithKeyConcat([x], tail, key, k);
      WithKeyConcat([s[0]], tail, key, k);
      WithKeyConcat([x], s, key, k);
      assert WithKey(InsertBy(x, s, key), key, k) == w0 + (wx + WithKey(tail, key, k));
      assert WithKey([x] + s, key, k) == wx + (w0 + WithKey(tail, key, k));
    }
  }

  /** Stability: for every key, the records with that key keep their relative order. */
  lemma {:induction false} SortByStable<T>(s: seq<T>, key: T -> string, k: string)
    ensures WithKey(SortBy(s, key), key, k) == WithKey(s, key, k)
  {
    if s != [] {
      var t := SortBy(s[1..], key);
      var w0 := WithKey([s[0]], key, k);
      WithKeySingle(s[0], key, k);
      assert WithKey(s, key, k) == w0 + WithKey(s[1..], key, k);
      SortByStable(s[1..], key, k);
      InsertByWithKey(s[0], t, key, k);
      WithKeyConcat([s[0]], t, key, k);
      assert WithKey(SortBy(s, key), key, k) == w0 + WithKey(t, key, k);
    }
  }

  function Identity(s: string): string { s }

  /** Inserting into the key order of a dictionary does not change the total length. */
  lemma {:induction false} SumLengthsInsertBy<V>(x: string, s: seq<string>, m: map<string, seq<V>>)
    ensures SumLengths(InsertBy(x, s, Identity), m) == LengthAt(m, x) + SumLengths(s, m)
  {
    if s != [] && !LexLe(x, s[0]) {
      SumLengthsInsertBy(x, s[1..], m);
      var t := InsertBy(x, s[1..], Identity);
      assert ([s[0]] + t)[1..] == t;
    }
  }

  /** Iterating a dictionary in sorted key order sums the same lengths. */
  lemma {:induction false} SumLengthsSorted<V>(s: seq<string>, m: map<string, seq<V>>)
    ensures SumLengths(SortBy(s, Identity), m) == SumLengths(s, m)
  {
    if s != [] {
      SumLengthsSorted(s[1..], m);
      SumLengthsInsertBy(s[0], SortBy(s[1..], Identity), m);
    }
  }
}
