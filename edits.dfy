/**
 * The engine's table edits `remove_ligatures`, `remove_kerns` and
 * `reencode_right_ligkern`, as functions on the tables, with what the
 * queries see afterwards.  A removed entry is kept in place with its first
 * code (a ligature's first input, a kern's left code) set to -1.
 */
module Edits {
  import opened Tables
  import opened Merge
  import opened Queries

  /** A two-input ligature `remove_ligatures(code1, code2)` removes;
    * `wildcard` matches any code. */
  predicate LigatureMatches(l: Ligature, code1: int, code2: int, wildcard: int)
  {
    |l.ins| == 2 && (code1 == wildcard || l.ins[0] == code1) && (code2 == wildcard || l.ins[1] == code2)
  }

  function RemovedLigatures(ls: seq<Ligature>, code1: int, code2: int, wildcard: int): (r: seq<Ligature>)
    ensures |r| == |ls|
  {
    seq(|ls|, i requires 0 <= i < |ls| =>
      if LigatureMatches(ls[i], code1, code2, wildcard) then ls[i].(ins := ls[i].ins[0 := -1]) else ls[i])
  }

  /** After removal no live code reports a matching two-input ligature, and
    * every other ligature it reported is still reported. */
  lemma RemovedLigaturesGone(ls: seq<Ligature>, code1: int, code2: int, wildcard: int, c: int)
    requires c >= 0
    ensures forall l :: l in TwoligaturesOf(RemovedLigatures(ls, code1, code2, wildcard), c) ==>
      !LigatureMatches(l, code1, code2, wildcard)
    ensures forall l :: l in TwoligaturesOf(ls, c) && !LigatureMatches(l, code1, code2, wildcard) ==>
      l in TwoligaturesOf(RemovedLigatures(ls, code1, code2, wildcard), c)
  {
    var r := RemovedLigatures(ls, code1, code2, wildcard);
    forall l | l in TwoligaturesOf(r, c) ensures !LigatureMatches(l, code1, code2, wildcard) {
      var i :| 0 <= i < |r| && r[i] == l;
    }
    forall l | l in TwoligaturesOf(ls, c) && !LigatureMatches(l, code1, code2, wildcard)
      ensures l in TwoligaturesOf(r, c)
    {
      var i :| 0 <= i < |ls| && ls[i] == l;
      assert r[i] == l;
    }
  }

  /** Removal leaves no dangling code and every ligature an input. */
  lemma RemovedLigaturesValid(ls: seq<Ligature>, code1: int, code2: int, wildcard: int, n: int)
    requires LigaturesIn(ls, n) && HaveInputs(ls)
    ensures LigaturesIn(RemovedLigatures(ls, code1, code2, wildcard), n)
    ensures HaveInputs(RemovedLigatures(ls, code1, code2, wildcard))
  {
    var r := RemovedLigatures(ls, code1, code2, wildcard);
    forall i | 0 <= i < |r| ensures LigatureIn(r[i], n) {
      assert LigatureIn(ls[i], n);
    }
  }

  predicate KernMatches(k: Kern, code1: int, code2: int, wildcard: int)
  {
    (code1 == wildcard || k.left == code1) && (code2 == wildcard || k.right == code2)
  }

  function RemovedKerns(ks: seq<Kern>, code1: int, code2: int, wildcard: int): (r: seq<Kern>)
    ensures |r| == |ks|
  {
    seq(|ks|, i requires 0 <= i < |ks| => if KernMatches(ks[i], code1, code2, wildcard) then ks[i].(left := -1) else ks[i])
  }

  /** After `remove_kerns`, `kern` answers 0 for every matching live pair and
    * `kerns` reports no matching entry. */
  lemma RemovedKernsGone(ks: seq<Kern>, code1: int, code2: int, wildcard: int, a: int, b: int)
    requires a >= 0 && KernMatches(Kern(a, b, 0), code1, code2, wildcard)
    ensures FirstKernAmount(RemovedKerns(ks, code1, code2, wildcard), a, b) == 0
    ensures forall k :: k in KernsFrom(RemovedKerns(ks, code1, code2, wildcard), a) ==> !KernMatches(k, code1, code2, wildcard)
  {
    var r := RemovedKerns(ks, code1, code2, wildcard);
    assert forall i :: 0 <= i < |r| ==> KernKey(r[i]) != (a, b);
    forall k | k in KernsFrom(r, a) ensures !KernMatches(k, code1, code2, wildcard) {
      var i :| 0 <= i < |r| && r[i] == k;
    }
  }

  lemma RemovedKernsValid(ks: seq<Kern>, code1: int, code2: int, wildcard: int, n: int)
    requires KernsIn(ks, n)
    ensures KernsIn(RemovedKerns(ks, code1, code2, wildcard), n)
  {
  }

  /** A ligature with every input after the first equal to `oldCode` moved
    * to `newCode`. */
  function ReencodeRight(l: Ligature, oldCode: int, newCode: int): Ligature
  {
    l.(ins := seq(|l.ins|, j requires 0 <= j < |l.ins| => if j >= 1 && l.ins[j] == oldCode then newCode else l.ins[j]))
  }

  function ReencodedLigatures(ls: seq<Ligature>, oldCode: int, newCode: int): (r: seq<Ligature>)
    ensures |r| == |ls|
  {
    seq(|ls|, i requires 0 <= i < |ls| => ReencodeRight(ls[i], oldCode, newCode))
  }

  function ReencodedKerns(ks: seq<Kern>, oldCode: int, newCode: int): (r: seq<Kern>)
    ensures |r| == |ks|
  {
    seq(|ks|, i requires 0 <= i < |ks| => if ks[i].right == oldCode then ks[i].(right := newCode) else ks[i])
  }

  /** After `reencode_right_ligkern`, `oldCode` (when it differs from
    * `newCode`) is no ligature's later input and no kern's right code, and
    * the kerns from any code keep their amounts; with `newCode` a valid code
    * no reference dangles. */
  lemma ReencodedRight(ls: seq<Ligature>, ks: seq<Kern>, oldCode: int, newCode: int, n: int)
    ensures oldCode != newCode ==>
      (forall i, j :: 0 <= i < |ls| && 1 <= j < |ReencodedLigatures(ls, oldCode, newCode)[i].ins| ==>
        ReencodedLigatures(ls, oldCode, newCode)[i].ins[j] != oldCode) &&
      (forall i :: 0 <= i < |ks| ==> ReencodedKerns(ks, oldCode, newCode)[i].right != oldCode)
    ensures forall i :: 0 <= i < |ks| ==>
      ReencodedKerns(ks, oldCode, newCode)[i].left == ks[i].left && ReencodedKerns(ks, oldCode, newCode)[i].amount == ks[i].amount
    ensures CodeIn(newCode, n) && LigaturesIn(ls, n) && HaveInputs(ls) ==>
      LigaturesIn(ReencodedLigatures(ls, oldCode, newCode), n) && HaveInputs(ReencodedLigatures(ls, oldCode, newCode))
    ensures CodeIn(newCode, n) && KernsIn(ks, n) ==> KernsIn(ReencodedKerns(ks, oldCode, newCode), n)
  {
    var r := ReencodedLigatures(ls, oldCode, newCode);
    if CodeIn(newCode, n) && LigaturesIn(ls, n) {
      forall i | 0 <= i < |r| ensures LigatureIn(r[i], n) {
        assert LigatureIn(ls[i], n);
      }
    }
  }
}
