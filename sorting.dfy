/**
 * The engine sorts its kern, positioning and slot tables with `std::sort`
 * and comparison operators declared in a header that is not part of this
 * model.  What the engine relies on is that afterwards the entries are
 * ordered by a key, so that entries with equal keys are adjacent.  The
 * sort is modelled as a stable insertion sort by a pair-of-integers key.
 */
module Sorting {

  /** Lexicographic order on keys. */
  predicate KeyLe(a: (int, int), b: (int, int))
  {
    a.0 < b.0 || (a.0 == b.0 && a.1 <= b.1)
  }

  ghost predicate SortedBy<T>(s: seq<T>, key: T -> (int, int))
  {
    forall i, j :: 0 <= i < j < |s| ==> KeyLe(key(s[i]), key(s[j]))
  }

  /** Entries with equal keys form one contiguous run. */
  ghost predicate Grouped<T>(s: seq<T>, key: T -> (int, int))
  {
    forall i, k, j :: 0 <= i < k < j < |s| && key(s[i]) == key(s[j]) ==> key(s[k]) == key(s[i])
  }

  function Insert<T>(x: T, s: seq<T>, key: T -> (int, int)): seq<T>
  {
    if s == [] then [x]
    else if KeyLe(key(x), key(s[0])) then [x] + s
    else [s[0]] + Insert(x, s[1..], key)
  }

  function SortBy<T>(s: seq<T>, key: T -> (int, int)): seq<T>
  {
    if s == [] then [] else Insert(s[0], SortBy(s[1..], key), key)
  }

  /** The sum of a weight over a sequence. */
  function SumBy<T>(s: seq<T>, w: T -> int): int
  {
    if s == [] then 0 else w(s[0]) + SumBy(s[1..], w)
  }

  lemma {:induction false} InsertPermutes<T>(x: T, s: seq<T>, key: T -> (int, int))
    ensures multiset(Insert(x, s, key)) == multiset(s) + multiset{x}
  {
    if s != [] && !KeyLe(key(x), key(s[0])) {
      InsertPermutes(x, s[1..], key);
      assert s == [s[0]] + s[1..];
    }
  }

  lemma {:induction false} SortPermutes<T>(s: seq<T>, key: T -> (int, int))
    ensures multiset(SortBy(s, key)) == multiset(s)
  {
    if s != [] {
      SortPermutes(s[1..], key);
      InsertPermutes(s[0], SortBy(s[1..], key), key);
      assert s == [s[0]] + s[1..];
    }
  }

  lemma {:induction false} InsertSorted<T>(x: T, s: seq<T>, key: T -> (int, int))
    requires SortedBy(s, key)
    ensures SortedBy(Insert(x, s, key), key)
  {
    if s != [] && !KeyLe(key(x), key(s[0])) {
      InsertSorted(x, s[1..], key);
      InsertPermutes(x, s[1..], key);
      var r := Insert(x, s[1..], key);
      forall j | 0 <= j < |r| ensures KeyLe(key(s[0]), key(r[j])) {
        assert r[j] in multiset(r);
        assert r[j] in multiset(s[1..]) + multiset{x};
        if r[j] != x {
          var k :| 1 <= k < |s| && s[k] == r[j];
        }
      }
    }
  }

  lemma {:induction false} SortSorted<T>(s: seq<T>, key: T -> (int, int))
    ensures SortedBy(SortBy(s, key), key)
  {
    if s != [] {
      SortSorted(s[1..], key);
      InsertSorted(s[0], SortBy(s[1..], key), key);
    }
  }

  /** Sorting leaves equal keys adjacent, which is all the merging relies on. */
  lemma SortedIsGrouped<T>(s: seq<T>, key: T -> (int, int))
    requires SortedBy(s, key)
    ensures Grouped(s, key)
  {
  }

  lemma {:induction false} SumConcat<T>(a: seq<T>, b: seq<T>, w: T -> int)
    ensures SumBy(a + b, w) == SumBy(a, w) + SumBy(b, w)
  {
    if a != [] {
      SumConcat(a[1..], b, w);
      assert (a + b)[1..] == a[1..] + b;
    } else {
      assert a + b == b;
    }
  }

  lemma {:induction false} InsertSum<T>(x: T, s: seq<T>, key: T -> (int, int), w: T -> int)
    ensures SumBy(Insert(x, s, key), w) == w(x) + SumBy(s, w)
  {
    if s != [] && !KeyLe(key(x), key(s[0])) {
      InsertSum(x, s[1..], key, w);
      assert ([s[0]] + Insert(x, s[1..], key))[1..] == Insert(x, s[1..], key);
    } else if s != [] {
      assert ([x] + s)[1..] == s;
    }
  }

  /** Sorting does not change the total of any weight. */
  lemma {:induction false} SortSum<T>(s: seq<T>, key: T -> (int, int), w: T -> int)
    ensures SumBy(SortBy(s, key), w) == SumBy(s, w)
  {
    if s != [] {
      SortSum(s[1..], key, w);
      InsertSum(s[0], SortBy(s[1..], key), key, w);
    }
  }

  lemma {:induction false} SumPointwise<T>(s: seq<T>, w1: T -> int, w2: T -> int)
    requires forall i :: 0 <= i < |s| ==> w1(s[i]) == w2(s[i])
    ensures SumBy(s, w1) == SumBy(s, w2)
  {
    if s != [] {
      SumPointwise(s[1..], w1, w2);
    }
  }

  lemma {:induction false} SumZero<T>(s: seq<T>, w: T -> int)
    requires forall i :: 0 <= i < |s| ==> w(s[i]) == 0
    ensures SumBy(s, w) == 0
  {
    if s != [] {
      SumZero(s[1..], w);
    }
  }

  /** Distinct entries stay distinct under sorting. */
  lemma {:induction false} SortDistinct<T>(s: seq<T>, key: T -> (int, int))
    requires forall i, j :: 0 <= i < j < |s| ==> s[i] != s[j]
    ensures forall i, j :: 0 <= i < j < |SortBy(s, key)| ==> SortBy(s, key)[i] != SortBy(s, key)[j]
  {
    if s != [] {
      SortDistinct(s[1..], key);
      SortPermutes(s[1..], key);
      assert s[0] !in multiset(SortBy(s[1..], key));
      InsertDistinct(s[0], SortBy(s[1..], key), key);
    }
  }

  lemma {:induction false} InsertDistinct<T>(x: T, s: seq<T>, key: T -> (int, int))
    requires forall i, j :: 0 <= i < j < |s| ==> s[i] != s[j]
    requires x !in s
    ensures forall i, j :: 0 <= i < j < |Insert(x, s, key)| ==> Insert(x, s, key)[i] != Insert(x, s, key)[j]
  {
    if s != [] && !KeyLe(key(x), key(s[0])) {
      InsertDistinct(x, s[1..], key);
      InsertPermutes(x, s[1..], key);
      assert s[0] !in multiset(s[1..]) + multiset{x};
      assert s[0] !in Insert(x, s[1..], key);
    }
  }

  lemma SumThree<T>(h: T, a: seq<T>, b: seq<T>, w: T -> int)
    ensures SumBy([h] + a + b, w) == w(h) + SumBy(a, w) + SumBy(b, w)
  {
    SumConcat([h] + a, b, w);
    SumConcat([h], a, w);
  }

  lemma SumSplit<T>(s: seq<T>, d: nat, w: T -> int)
    requires d <= |s|
    ensures SumBy(s, w) == SumBy(s[..d], w) + SumBy(s[d..], w)
  {
    assert s == s[..d] + s[d..];
    SumConcat(s[..d], s[d..], w);
  }

  lemma PrefixSplit<T>(s: seq<T>, i: nat, j: nat)
    requires i <= j <= |s|
    ensures s[..j] == s[..i] + s[i..j]
  {
  }

  lemma ConcatAssoc<T>(a: seq<T>, b: seq<T>, c: seq<T>)
    ensures (a + b) + c == a + (b + c)
  {
  }

  lemma SliceOfSlice<T>(a: seq<T>, i: nat, d: nat)
    requires 1 <= d && i + d <= |a|
    ensures a[i..][..d] == a[i..i + d] && a[i..][1..d] == a[i + 1..i + d] && a[i..][d..] == a[i + d..]
  {
  }
}
