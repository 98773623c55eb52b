/**
 * `simplify_positionings`: after sorting, every run of kerns with the same
 * (left, right) pair is folded into its first entry, whose amount becomes
 * the run's total; the other entries of the run are marked removed with
 * left = -1.  Positionings are folded the same way by code, summing pdx,
 * pdy and adx and marking the rest with code = -1.
 */
module Merge {
  import opened Tables
  import opened Sorting

  function KernKey(k: Kern): (int, int)
  {
    (k.left, k.right)
  }

  function KernAmount(k: Kern): int
  {
    k.amount
  }

  /** A kern's amount, counted towards `key` only. */
  function KernWeight(key: (int, int)): Kern -> int
  {
    k => if KernKey(k) == key then k.amount else 0
  }

  /** One for each kern with key `key`. */
  function KernCount(key: (int, int)): Kern -> int
  {
    k => if KernKey(k) == key then 1 else 0
  }

  /** The end of the run of entries keyed like s[0], scanning from `i`. */
  function KernRunEnd(s: seq<Kern>, i: nat): (d: nat)
    requires 1 <= i <= |s|
    ensures i <= d <= |s|
    ensures forall k :: i <= k < d ==> KernKey(s[k]) == KernKey(s[0])
    ensures d < |s| ==> KernKey(s[d]) != KernKey(s[0])
    decreases |s| - i
  {
    if i == |s| || KernKey(s[i]) != KernKey(s[0]) then i else KernRunEnd(s, i + 1)
  }

  function KillKerns(s: seq<Kern>): seq<Kern>
  {
    seq(|s|, i requires 0 <= i < |s| => s[i].(left := -1))
  }

  /** The table the merge loop of `simplify_positionings` leaves. */
  function MergeKerns(s: seq<Kern>): (r: seq<Kern>)
    ensures |r| == |s|
    decreases |s|
  {
    if s == [] then []
    else
      var d := KernRunEnd(s, 1);
      [s[0].(amount := SumBy(s[..d], KernAmount))] + KillKerns(s[1..d]) + MergeKerns(s[d..])
  }

  /** Merging changes no right code, and changes a left code only by
    * removing the entry. */
  lemma {:induction false} MergeKernsCodes(s: seq<Kern>)
    ensures forall i :: 0 <= i < |s| ==>
      MergeKerns(s)[i].right == s[i].right && (MergeKerns(s)[i].left == s[i].left || MergeKerns(s)[i].left == -1)
    decreases |s|
  {
    if s != [] {
      var d := KernRunEnd(s, 1);
      var h, dead, rest := s[0].(amount := SumBy(s[..d], KernAmount)), KillKerns(s[1..d]), MergeKerns(s[d..]);
      MergeKernsUnfold(s);
      MergeKernsCodes(s[d..]);
      var r := MergeKerns(s);
      forall i | 0 <= i < |s| ensures r[i].right == s[i].right && (r[i].left == s[i].left || r[i].left == -1) {
        if i == 0 {
          assert r[i] == h;
        } else if i < d {
          assert r[i] == dead[i - 1];
        } else {
          assert r[i] == rest[i - d] && s[d..][i - d] == s[i];
        }
      }
    }
  }

  lemma KilledKernsWeightless(s: seq<Kern>, key: (int, int))
    requires key.0 >= 0
    ensures SumBy(KillKerns(s), KernWeight(key)) == 0
    ensures SumBy(KillKerns(s), KernCount(key)) == 0
  {
    SumZero(KillKerns(s), KernWeight(key));
    SumZero(KillKerns(s), KernCount(key));
  }

  /** The weight of a run is what its merged head carries. */
  lemma KernRunWeight(s: seq<Kern>, d: nat, key: (int, int))
    requires 1 <= d <= |s|
    requires forall k :: 0 <= k < d ==> KernKey(s[k]) == KernKey(s[0])
    ensures SumBy(s[..d], KernWeight(key)) == KernWeight(key)(s[0].(amount := SumBy(s[..d], KernAmount)))
  {
    if KernKey(s[0]) == key {
      SumPointwise(s[..d], KernWeight(key), KernAmount);
    } else {
      SumZero(s[..d], KernWeight(key));
    }
  }

  lemma MergeKernsUnfold(s: seq<Kern>)
    requires s != []
    ensures MergeKerns(s) ==
      [s[0].(amount := SumBy(s[..KernRunEnd(s, 1)], KernAmount))] + KillKerns(s[1..KernRunEnd(s, 1)]) + MergeKerns(s[KernRunEnd(s, 1)..])
  {
  }

  /** Merging keeps, for every live key, the total amount. */
  lemma {:induction false} MergeKernsKeepsSums(s: seq<Kern>, key: (int, int))
    requires key.0 >= 0
    ensures SumBy(MergeKerns(s), KernWeight(key)) == SumBy(s, KernWeight(key))
    decreases |s|
  {
    if s != [] {
      var w := KernWeight(key);
      var d := KernRunEnd(s, 1);
      var h, dead, rest := s[0].(amount := SumBy(s[..d], KernAmount)), KillKerns(s[1..d]), MergeKerns(s[d..]);
      MergeKernsUnfold(s);
      SumThree(h, dead, rest, w);
      KilledKernsWeightless(s[1..d], key);
      MergeKernsKeepsSums(s[d..], key);
      KernRunWeight(s, d, key);
      SumSplit(s, d, w);
      assert SumBy(MergeKerns(s), w) == w(h) + SumBy(rest, w);
    }
  }

  /** No entry of a merged table carries a live key its input lacks. */
  lemma MergeKernsAbsent(s: seq<Kern>, key: (int, int))
    requires key.0 >= 0
    requires forall i :: 0 <= i < |s| ==> KernKey(s[i]) != key
    ensures SumBy(MergeKerns(s), KernCount(key)) == 0
  {
    var r := MergeKerns(s);
    MergeKernsCodes(s);
    assert forall i :: 0 <= i < |r| ==> KernCount(key)(r[i]) == 0;
    SumZero(r, KernCount(key));
  }

  lemma GroupedSuffix(s: seq<Kern>, d: nat)
    requires Grouped(s, KernKey) && d <= |s|
    ensures Grouped(s[d..], KernKey)
  {
    forall i, k, j | 0 <= i < k < j < |s[d..]| && KernKey(s[d..][i]) == KernKey(s[d..][j])
      ensures KernKey(s[d..][k]) == KernKey(s[d..][i])
    {
      assert KernKey(s[d + i]) == KernKey(s[d + j]);
    }
  }

  /** In a table whose equal keys are adjacent, no entry after the first
    * run has the run's key. */
  lemma KernRunIsWhole(s: seq<Kern>)
    requires s != [] && Grouped(s, KernKey)
    ensures forall i :: 0 <= i < |s[KernRunEnd(s, 1)..]| ==> KernKey(s[KernRunEnd(s, 1)..][i]) != KernKey(s[0])
  {
    var d := KernRunEnd(s, 1);
    forall i | 0 <= i < |s[d..]| ensures KernKey(s[d..][i]) != KernKey(s[0]) {
      assert KernKey(s[d + i]) == KernKey(s[d..][i]);
    }
  }

  /** Merging a table whose equal keys are adjacent leaves at most one
    * entry with any live key. */
  lemma {:induction false} MergeKernsUnique(s: seq<Kern>, key: (int, int))
    requires key.0 >= 0 && Grouped(s, KernKey)
    ensures SumBy(MergeKerns(s), KernCount(key)) <= 1
    decreases |s|
  {
    if s != [] {
      var c := KernCount(key);
      var d := KernRunEnd(s, 1);
      MergeKernsUnfold(s);
      SumThree(s[0].(amount := SumBy(s[..d], KernAmount)), KillKerns(s[1..d]), MergeKerns(s[d..]), c);
      KilledKernsWeightless(s[1..d], key);
      if KernKey(s[0]) == key {
        KernRunIsWhole(s);
        MergeKernsAbsent(s[d..], key);
      } else {
        GroupedSuffix(s, d);
        MergeKernsUnique(s[d..], key);
      }
    }
  }

  /** `simplify_positionings` on kerns: sorting and merging keep every live
    * key's total amount and leave at most one entry per live key. */
  lemma SimplifiedKerns(ks: seq<Kern>, key: (int, int))
    requires key.0 >= 0
    ensures SumBy(MergeKerns(SortBy(ks, KernKey)), KernWeight(key)) == SumBy(ks, KernWeight(key))
    ensures SumBy(MergeKerns(SortBy(ks, KernKey)), KernCount(key)) <= 1
  {
    SortSum(ks, KernKey, KernWeight(key));
    SortSorted(ks, KernKey);
    SortedIsGrouped(SortBy(ks, KernKey), KernKey);
    MergeKernsKeepsSums(SortBy(ks, KernKey), key);
    MergeKernsUnique(SortBy(ks, KernKey), key);
  }

  // Positionings, keyed by code.

  function VfposKey(v: Vfpos): (int, int)
  {
    (v.code, 0)
  }

  function Pdx(v: Vfpos): int { v.pdx }
  function Pdy(v: Vfpos): int { v.pdy }
  function Adx(v: Vfpos): int { v.adx }

  /** The offsets of positionings for code `c`, one weight per component. */
  function PdxFor(c: int): Vfpos -> int { (v: Vfpos) => if v.code == c then v.pdx else 0 }
  function PdyFor(c: int): Vfpos -> int { (v: Vfpos) => if v.code == c then v.pdy else 0 }
  function AdxFor(c: int): Vfpos -> int { (v: Vfpos) => if v.code == c then v.adx else 0 }

  /** One for each positioning of code `c`. */
  function VfposCount(c: int): Vfpos -> int
  {
    (v: Vfpos) => if v.code == c then 1 else 0
  }

  function VfposRunEnd(s: seq<Vfpos>, i: nat): (d: nat)
    requires 1 <= i <= |s|
    ensures i <= d <= |s|
    ensures forall k :: i <= k < d ==> s[k].code == s[0].code
    ensures d < |s| ==> s[d].code != s[0].code
    decreases |s| - i
  {
    if i == |s| || s[i].code != s[0].code then i else VfposRunEnd(s, i + 1)
  }

  function KillVfpos(s: seq<Vfpos>): seq<Vfpos>
  {
    seq(|s|, i requires 0 <= i < |s| => s[i].(code := -1))
  }

  function MergeVfpos(s: seq<Vfpos>): (r: seq<Vfpos>)
    ensures |r| == |s|
    decreases |s|
  {
    if s == [] then []
    else
      var d := VfposRunEnd(s, 1);
      [VfposHead(s, d)] + KillVfpos(s[1..d]) + MergeVfpos(s[d..])
  }

  /** Merging changes a positioning's code only by removing the entry. */
  lemma {:induction false} MergeVfposCodes(s: seq<Vfpos>)
    ensures forall i :: 0 <= i < |s| ==> MergeVfpos(s)[i].code == s[i].code || MergeVfpos(s)[i].code == -1
    decreases |s|
  {
    if s != [] {
      var d := VfposRunEnd(s, 1);
      var h, dead, rest := VfposHead(s, d), KillVfpos(s[1..d]), MergeVfpos(s[d..]);
      MergeVfposUnfold(s);
      MergeVfposCodes(s[d..]);
      var r := MergeVfpos(s);
      forall i | 0 <= i < |s| ensures r[i].code == s[i].code || r[i].code == -1 {
        if i == 0 {
          assert r[i] == h;
        } else if i < d {
          assert r[i] == dead[i - 1];
        } else {
          assert r[i] == rest[i - d] && s[d..][i - d] == s[i];
        }
      }
    }
  }

  lemma KilledVfposWeightless(s: seq<Vfpos>, c: int)
    requires c >= 0
    ensures SumBy(KillVfpos(s), PdxFor(c)) == 0 && SumBy(KillVfpos(s), PdyFor(c)) == 0
    ensures SumBy(KillVfpos(s), AdxFor(c)) == 0 && SumBy(KillVfpos(s), VfposCount(c)) == 0
  {
    SumZero(KillVfpos(s), PdxFor(c));
    SumZero(KillVfpos(s), PdyFor(c));
    SumZero(KillVfpos(s), AdxFor(c));
    SumZero(KillVfpos(s), VfposCount(c));
  }

  function VfposHead(s: seq<Vfpos>, d: nat): Vfpos
    requires 1 <= d <= |s|
  {
    s[0].(pdx := SumBy(s[..d], Pdx), pdy := SumBy(s[..d], Pdy), adx := SumBy(s[..d], Adx))
  }

  lemma VfposRunWeight(s: seq<Vfpos>, d: nat, c: int)
    requires 1 <= d <= |s|
    requires forall k :: 0 <= k < d ==> s[k].code == s[0].code
    ensures SumBy(s[..d], PdxFor(c)) == PdxFor(c)(VfposHead(s, d))
    ensures SumBy(s[..d], PdyFor(c)) == PdyFor(c)(VfposHead(s, d))
    ensures SumBy(s[..d], AdxFor(c)) == AdxFor(c)(VfposHead(s, d))
  {
    if s[0].code == c {
      SumPointwise(s[..d], PdxFor(c), Pdx);
      SumPointwise(s[..d], PdyFor(c), Pdy);
      SumPointwise(s[..d], AdxFor(c), Adx);
    } else {
      SumZero(s[..d], PdxFor(c));
      SumZero(s[..d], PdyFor(c));
      SumZero(s[..d], AdxFor(c));
    }
  }

  lemma MergeVfposUnfold(s: seq<Vfpos>)
    requires s != []
    ensures MergeVfpos(s) ==
      [VfposHead(s, VfposRunEnd(s, 1))] + KillVfpos(s[1..VfposRunEnd(s, 1)]) + MergeVfpos(s[VfposRunEnd(s, 1)..])
  {
  }

  /** Merging keeps, for every live code, the total of each offset. */
  lemma {:induction false} MergeVfposKeepsSums(s: seq<Vfpos>, c: int)
    requires c >= 0
    ensures SumBy(MergeVfpos(s), PdxFor(c)) == SumBy(s, PdxFor(c))
    ensures SumBy(MergeVfpos(s), PdyFor(c)) == SumBy(s, PdyFor(c))
    ensures SumBy(MergeVfpos(s), AdxFor(c)) == SumBy(s, AdxFor(c))
    decreases |s|
  {
    if s != [] {
      var d := VfposRunEnd(s, 1);
      var h, dead, rest := VfposHead(s, d), KillVfpos(s[1..d]), MergeVfpos(s[d..]);
      MergeVfposUnfold(s);
      SumThree(h, dead, rest, PdxFor(c));
      SumThree(h, dead, rest, PdyFor(c));
      SumThree(h, dead, rest, AdxFor(c));
      KilledVfposWeightless(s[1..d], c);
      MergeVfposKeepsSums(s[d..], c);
      SumSplit(s, d, PdxFor(c));
      SumSplit(s, d, PdyFor(c));
      SumSplit(s, d, AdxFor(c));
      VfposRunWeight(s, d, c);
    }
  }

  lemma MergeVfposAbsent(s: seq<Vfpos>, c: int)
    requires c >= 0
    requires forall i :: 0 <= i < |s| ==> s[i].code != c
    ensures SumBy(MergeVfpos(s), VfposCount(c)) == 0
  {
    var r := MergeVfpos(s);
    MergeVfposCodes(s);
    assert forall i :: 0 <= i < |r| ==> VfposCount(c)(r[i]) == 0;
    SumZero(r, VfposCount(c));
  }

  lemma VfposGroupedSuffix(s: seq<Vfpos>, d: nat)
    requires Grouped(s, VfposKey) && d <= |s|
    ensures Grouped(s[d..], VfposKey)
  {
    forall i, k, j | 0 <= i < k < j < |s[d..]| && VfposKey(s[d..][i]) == VfposKey(s[d..][j])
      ensures VfposKey(s[d..][k]) == VfposKey(s[d..][i])
    {
      assert VfposKey(s[d + i]) == VfposKey(s[d + j]);
    }
  }

  lemma VfposRunIsWhole(s: seq<Vfpos>)
    requires s != [] && Grouped(s, VfposKey)
    ensures forall i :: 0 <= i < |s[VfposRunEnd(s, 1)..]| ==> s[VfposRunEnd(s, 1)..][i].code != s[0].code
  {
    var d := VfposRunEnd(s, 1);
    forall i | 0 <= i < |s[d..]| ensures s[d..][i].code != s[0].code {
      assert VfposKey(s[d + i]) == VfposKey(s[d..][i]);
    }
  }

  lemma {:induction false} MergeVfposUnique(s: seq<Vfpos>, c: int)
    requires c >= 0 && Grouped(s, VfposKey)
    ensures SumBy(MergeVfpos(s), VfposCount(c)) <= 1
    decreases |s|
  {
    if s != [] {
      var d := VfposRunEnd(s, 1);
      MergeVfposUnfold(s);
      SumThree(VfposHead(s, d), KillVfpos(s[1..d]), MergeVfpos(s[d..]), VfposCount(c));
      KilledVfposWeightless(s[1..d], c);
      if s[0].code == c {
        VfposRunIsWhole(s);
        MergeVfposAbsent(s[d..], c);
      } else {
        VfposGroupedSuffix(s, d);
        MergeVfposUnique(s[d..], c);
      }
    }
  }

  /** `simplify_positionings` on positionings: every live code keeps its
    * total pdx, pdy and adx and has at most one entry left. */
  lemma SimplifiedVfpos(vs: seq<Vfpos>, c: int)
    requires c >= 0
    ensures SumBy(MergeVfpos(SortBy(vs, VfposKey)), PdxFor(c)) == SumBy(vs, PdxFor(c))
    ensures SumBy(MergeVfpos(SortBy(vs, VfposKey)), PdyFor(c)) == SumBy(vs, PdyFor(c))
    ensures SumBy(MergeVfpos(SortBy(vs, VfposKey)), AdxFor(c)) == SumBy(vs, AdxFor(c))
    ensures SumBy(MergeVfpos(SortBy(vs, VfposKey)), VfposCount(c)) <= 1
  {
    var sorted := SortBy(vs, VfposKey);
    SortSum(vs, VfposKey, PdxFor(c));
    SortSum(vs, VfposKey, PdyFor(c));
    SortSum(vs, VfposKey, AdxFor(c));
    MergeVfposKeepsSums(sorted, c);
    SortSorted(vs, VfposKey);
    SortedIsGrouped(sorted, VfposKey);
    MergeVfposUnique(sorted, c);
  }

  /** Sorting and merging keep every code of the kern and positioning
    * tables in range. */
  lemma SimplifiedTablesIn(ls: seq<Ligature>, fs: seq<Ligature>, ks: seq<Kern>, vs: seq<Vfpos>, n: int)
    requires NoDangling(ls, fs, ks, vs, n)
    ensures NoDangling(ls, fs, MergeKerns(SortBy(ks, KernKey)), MergeVfpos(SortBy(vs, VfposKey)), n)
  {
    var sk, sv := SortBy(ks, KernKey), SortBy(vs, VfposKey);
    SortPermutes(ks, KernKey);
    SortPermutes(vs, VfposKey);
    MergeKernsCodes(sk);
    MergeVfposCodes(sv);
    forall i | 0 <= i < |sk| ensures CodeIn(sk[i].left, n) && CodeIn(sk[i].right, n) {
      assert sk[i] in multiset(ks);
    }
    forall i | 0 <= i < |sv| ensures CodeIn(sv[i].code, n) {
      assert sv[i] in multiset(vs);
    }
  }

  /** The kern table after the inner loop of the kern merge has folded the
    * d entries from i into entry i, one at a time: each added its amount to
    * entry i and was removed. */
  function KernRunMerged(s: seq<Kern>, i: nat, d: nat): (r: seq<Kern>)
    requires 1 <= d && i + d <= |s|
    ensures |r| == |s|
    decreases d
  {
    if d == 1 then s
    else
      var m := KernRunMerged(s, i, d - 1);
      var x := s[i + d - 1];
      m[i := m[i].(amount := m[i].amount + x.amount)][i + d - 1 := x.(left := -1)]
  }

  /** What the folding leaves: entry i holds the run's total amount, the
    * other entries of the run are removed and nothing else changes. */
  lemma {:induction false} KernRunMergedShape(s: seq<Kern>, i: nat, d: nat)
    requires 1 <= d && i + d <= |s|
    ensures var r := KernRunMerged(s, i, d);
      (forall k :: 0 <= k < |s| && (k < i || i + d <= k) ==> r[k] == s[k]) &&
      r[i] == s[i].(amount := SumBy(s[i..i + d], KernAmount)) &&
      (forall k :: i < k < i + d ==> r[k] == s[k].(left := -1))
    decreases d
  {
    if d == 1 {
      assert s[i..i + 1] == [s[i]] && [s[i]][1..] == [];
      assert SumBy(s[i..i + 1], KernAmount) == s[i].amount;
    } else {
      KernRunMergedShape(s, i, d - 1);
      assert s[i..i + d] == s[i..i + d - 1] + [s[i + d - 1]];
      SumConcat(s[i..i + d - 1], [s[i + d - 1]], KernAmount);
      assert [s[i + d - 1]][1..] == [];
    }
  }

  /** A scan that met only entries keyed like s[i] and then the end or a
    * different key has found the end of the run. */
  lemma {:induction false} KernRunEndFrom(t: seq<Kern>, j: nat, d: nat)
    requires 1 <= j <= d <= |t|
    requires forall k :: j <= k < d ==> KernKey(t[k]) == KernKey(t[0])
    requires d == |t| || KernKey(t[d]) != KernKey(t[0])
    ensures KernRunEnd(t, j) == d
    decreases d - j
  {
    if j < d {
      KernRunEndFrom(t, j + 1, d);
    }
  }

  /** One more entry folded into entry i. */
  lemma KernRunNext(s: seq<Kern>, i: nat, d: nat)
    requires 1 <= d && i + d < |s|
    ensures var m := KernRunMerged(s, i, d);
      m[i + d] == s[i + d] && KernKey(m[i]) == KernKey(s[i]) &&
      KernRunMerged(s, i, d + 1) == m[i := m[i].(amount := m[i].amount + m[i + d].amount)][i + d := m[i + d].(left := -1)]
  {
    KernRunMergedShape(s, i, d);
  }

  /** The table after one turn of the kern merge loop at i: the part
    * before i, then the merged run. */
  lemma KernTurnPrefix(before: seq<Kern>, after: seq<Kern>, i: nat, d: nat)
    requires 1 <= d && i + d <= |before| && after == KernRunMerged(before, i, d)
    ensures after[..i + d] == before[..i] +
      ([before[i..][0].(amount := SumBy(before[i..][..d], KernAmount))] + KillKerns(before[i..][1..d]))
    ensures after[i + d..] == before[i + d..]
  {
    KernRunMergedShape(before, i, d);
    SliceOfSlice(before, i, d);
    PrefixSplit(after, i, i + d);
    assert after[..i] == before[..i];
    assert after[i..i + d] == [before[i].(amount := SumBy(before[i..i + d], KernAmount))] + KillKerns(before[i + 1..i + d]);
  }

  /** The invariant of the kern merge loop at i: the entries from i on are
    * still those of the original table s0, and the table so far followed
    * by the merge of the original rest is the merge of s0. */
  ghost predicate KernsMergedTo(s0: seq<Kern>, s: seq<Kern>, i: nat)
  {
    i <= |s| == |s0| && s[i..] == s0[i..] && s[..i] + MergeKerns(s0[i..]) == MergeKerns(s0)
  }

  /** The kern merge invariant moves past a run once the table holds the
    * merged run in its place and is untouched after it. */
  lemma MergeKernsPast(s0: seq<Kern>, before: seq<Kern>, after: seq<Kern>, i: nat, d: nat, next: nat)
    requires KernsMergedTo(s0, before, i) && i < |before| == |after|
    requires d == KernRunEnd(before[i..], 1) && next == i + d
    requires after[..next] == before[..i] +
      ([before[i..][0].(amount := SumBy(before[i..][..d], KernAmount))] + KillKerns(before[i..][1..d]))
    requires after[next..] == before[next..]
    ensures KernsMergedTo(s0, after, next)
  {
    var s := before[i..];
    var h := [s[0].(amount := SumBy(s[..d], KernAmount))] + KillKerns(s[1..d]);
    MergeKernsUnfold(s);
    assert s0[i..] == s;
    assert s0[next..] == s[d..];
    calc {
      after[..next] + MergeKerns(s0[next..]);
      (before[..i] + h) + MergeKerns(s[d..]);
      { ConcatAssoc(before[..i], h, MergeKerns(s[d..])); }
      before[..i] + MergeKerns(s0[i..]);
    }
  }

  /** One turn of the kern merge loop at i, which merges the run starting
    * there, keeps the loop's invariant. */
  lemma MergeKernsTurn(s0: seq<Kern>, before: seq<Kern>, after: seq<Kern>, i: nat, d: nat, next: nat)
    requires KernsMergedTo(s0, before, i) && i < |before|
    requires d == KernRunEnd(before[i..], 1) && next == i + d
    requires after == KernRunMerged(before, i, d)
    ensures KernsMergedTo(s0, after, next)
  {
    KernTurnPrefix(before, after, i, d);
    MergeKernsPast(s0, before, after, i, d, next);
  }

  /** When at most one entry is left, the loop has merged the whole table. */
  lemma MergeKernsDone(s0: seq<Kern>, t: seq<Kern>, i: nat)
    requires KernsMergedTo(s0, t, i) && i + 1 >= |t|
    ensures t == MergeKerns(s0)
  {
    if i < |t| {
      var s := s0[i..];
      assert s[..1] == s == [s[0]] && s[1..] == [] && s[..1][1..] == [];
      assert KernRunEnd(s, 1) == 1;
      assert SumBy(s[..1], KernAmount) == s[0].amount;
      assert KillKerns(s[1..1]) == [] && MergeKerns(s[1..]) == [];
      assert MergeKerns(s) == [s[0]] + [] + [];
    }
    assert t == t[..i] + t[i..];
  }

  /** The positioning table after the inner loop of the positioning merge
    * has folded the d entries from i into entry i, one at a time. */
  function VfposRunMerged(s: seq<Vfpos>, i: nat, d: nat): (r: seq<Vfpos>)
    requires 1 <= d && i + d <= |s|
    ensures |r| == |s|
    decreases d
  {
    if d == 1 then s
    else
      var m := VfposRunMerged(s, i, d - 1);
      var x := s[i + d - 1];
      m[i := m[i].(pdx := m[i].pdx + x.pdx, pdy := m[i].pdy + x.pdy, adx := m[i].adx + x.adx)][i + d - 1 := x.(code := -1)]
  }

  /** Entry i holds the run's total offsets, the other entries of the run
    * are removed and nothing else changes. */
  lemma {:induction false} VfposRunMergedShape(s: seq<Vfpos>, i: nat, d: nat)
    requires 1 <= d && i + d <= |s|
    ensures var r := VfposRunMerged(s, i, d);
      (forall k :: 0 <= k < |s| && (k < i || i + d <= k) ==> r[k] == s[k]) &&
      r[i] == VfposHead(s[i..], d) &&
      (forall k :: i < k < i + d ==> r[k] == s[k].(code := -1))
    decreases d
  {
    var t := s[i..];
    if d == 1 {
      assert t[0] == s[i];
      assert t[..1] == [s[i]] && [s[i]][1..] == [];
      assert SumBy(t[..1], Pdx) == s[i].pdx && SumBy(t[..1], Pdy) == s[i].pdy && SumBy(t[..1], Adx) == s[i].adx;
    } else {
      VfposRunMergedShape(s, i, d - 1);
      assert t[..d] == t[..d - 1] + [t[d - 1]];
      SumConcat(t[..d - 1], [t[d - 1]], Pdx);
      SumConcat(t[..d - 1], [t[d - 1]], Pdy);
      SumConcat(t[..d - 1], [t[d - 1]], Adx);
      assert [t[d - 1]][1..] == [];
    }
  }

  lemma {:induction false} VfposRunEndFrom(t: seq<Vfpos>, j: nat, d: nat)
    requires 1 <= j <= d <= |t|
    requires forall k :: j <= k < d ==> t[k].code == t[0].code
    requires d == |t| || t[d].code != t[0].code
    ensures VfposRunEnd(t, j) == d
    decreases d - j
  {
    if j < d {
      VfposRunEndFrom(t, j + 1, d);
    }
  }

  lemma VfposRunNext(s: seq<Vfpos>, i: nat, d: nat)
    requires 1 <= d && i + d < |s|
    ensures var m := VfposRunMerged(s, i, d);
      m[i + d] == s[i + d] && m[i].code == s[i].code &&
      VfposRunMerged(s, i, d + 1) ==
        m[i := m[i].(pdx := m[i].pdx + m[i + d].pdx, pdy := m[i].pdy + m[i + d].pdy, adx := m[i].adx + m[i + d].adx)][i + d := m[i + d].(code := -1)]
  {
    VfposRunMergedShape(s, i, d);
  }

  lemma VfposTurnPrefix(before: seq<Vfpos>, after: seq<Vfpos>, i: nat, d: nat)
    requires 1 <= d && i + d <= |before| && after == VfposRunMerged(before, i, d)
    ensures after[..i + d] == before[..i] + ([VfposHead(before[i..], d)] + KillVfpos(before[i..][1..d]))
    ensures after[i + d..] == before[i + d..]
  {
    VfposRunMergedShape(before, i, d);
    SliceOfSlice(before, i, d);
    PrefixSplit(after, i, i + d);
    assert after[..i] == before[..i];
    assert after[i..i + d] == [VfposHead(before[i..], d)] + KillVfpos(before[i + 1..i + d]);
  }

  /** The invariant of the positioning merge loop at i. */
  ghost predicate VfposMergedTo(s0: seq<Vfpos>, s: seq<Vfpos>, i: nat)
  {
    i <= |s| == |s0| && s[i..] == s0[i..] && s[..i] + MergeVfpos(s0[i..]) == MergeVfpos(s0)
  }

  lemma MergeVfposPast(s0: seq<Vfpos>, before: seq<Vfpos>, after: seq<Vfpos>, i: nat, d: nat, next: nat)
    requires VfposMergedTo(s0, before, i) && i < |before| == |after|
    requires d == VfposRunEnd(before[i..], 1) && next == i + d
    requires after[..next] == before[..i] + ([VfposHead(before[i..], d)] + KillVfpos(before[i..][1..d]))
    requires after[next..] == before[next..]
    ensures VfposMergedTo(s0, after, next)
  {
    var s := before[i..];
    var h := [VfposHead(s, d)] + KillVfpos(s[1..d]);
    MergeVfposUnfold(s);
    assert s0[i..] == s;
    assert s0[next..] == s[d..];
    calc {
      after[..next] + MergeVfpos(s0[next..]);
      (before[..i] + h) + MergeVfpos(s[d..]);
      { ConcatAssoc(before[..i], h, MergeVfpos(s[d..])); }
      before[..i] + MergeVfpos(s0[i..]);
    }
  }

  lemma MergeVfposTurn(s0: seq<Vfpos>, before: seq<Vfpos>, after: seq<Vfpos>, i: nat, d: nat, next: nat)
    requires VfposMergedTo(s0, before, i) && i < |before|
    requires d == VfposRunEnd(before[i..], 1) && next == i + d
    requires after == VfposRunMerged(before, i, d)
    ensures VfposMergedTo(s0, after, next)
  {
    VfposTurnPrefix(before, after, i, d);
    MergeVfposPast(s0, before, after, i, d, next);
  }

  lemma MergeVfposDone(s0: seq<Vfpos>, t: seq<Vfpos>, i: nat)
    requires i <= |t| == |s0| && i + 1 >= |t| && t[i..] == s0[i..]
    requires t[..i] + MergeVfpos(s0[i..]) == MergeVfpos(s0)
    ensures t == MergeVfpos(s0)
  {
    if i < |t| {
      var s := s0[i..];
      assert s[..1] == s == [s[0]] && s[1..] == [] && s[..1][1..] == [];
      assert VfposRunEnd(s, 1) == 1;
      assert SumBy(s[..1], Pdx) == s[0].pdx && SumBy(s[..1], Pdy) == s[0].pdy && SumBy(s[..1], Adx) == s[0].adx;
      assert KillVfpos(s[1..1]) == [] && MergeVfpos(s[1..]) == [];
      assert MergeVfpos(s) == [s[0]] + [] + [];
    }
    assert t == t[..i] + t[i..];
  }
}
