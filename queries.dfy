/**
 * What the engine's read-only queries answer, as functions of its tables:
 * `setting` (how a renderer sets one code), `twoligatures`, `kerns` and
 * `kern`.
 */
module Queries {
  import opened Tables
  import opened Sorting
  import opened Merge

  /** The index of the first positioning for `code`, or -1. */
  function FirstVfposIndex(vs: seq<Vfpos>, code: int): (k: int)
    ensures -1 <= k < |vs|
    ensures k == -1 <==> forall i :: 0 <= i < |vs| ==> vs[i].code != code
    ensures k >= 0 ==> vs[k].code == code && forall i :: 0 <= i < k ==> vs[i].code != code
  {
    if vs == [] then -1
    else if vs[0].code == code then 0
    else
      var k := FirstVfposIndex(vs[1..], code);
      if k < 0 then -1 else k + 1
  }

  /** The offsets (pdx, pdy, adx) `setting` uses: those of the first
    * positioning for `code`, or none. */
  function FirstOffsets(vs: seq<Vfpos>, code: int): (int, int, int)
  {
    var k := FirstVfposIndex(vs, code);
    if k < 0 then (0, 0, 0) else (vs[k].pdx, vs[k].pdy, vs[k].adx)
  }

  /** The steps that set `glyph` with offsets `o`: move by (pdx, pdy), show,
    * move back vertically and on to the advance; zero moves are omitted. */
  function SettingFor(glyph: int, o: (int, int, int)): seq<SettingOp>
  {
    HMove(o.0) + VMove(o.1) + [Show(glyph)] + VMove(-o.1) + HMove(o.2 - o.0)
  }

  /** A horizontal move by dx, omitted when dx is zero. */
  function HMove(dx: int): (v: seq<SettingOp>)
    ensures |v| <= 1 && forall i :: 0 <= i < |v| ==> v[i] == HMoveTo(dx) && dx != 0
  {
    if dx != 0 then [HMoveTo(dx)] else []
  }

  /** A vertical move by dy, omitted when dy is zero. */
  function VMove(dy: int): (v: seq<SettingOp>)
    ensures |v| <= 1 && forall i :: 0 <= i < |v| ==> v[i] == VMoveTo(dy) && dy != 0
  {
    if dy != 0 then [VMoveTo(dy)] else []
  }

  /** The glyphs a setting shows, in order. */
  function Shown(v: seq<SettingOp>): seq<int>
  {
    if v == [] then [] else (if v[0].Show? then [v[0].glyph] else []) + Shown(v[1..])
  }

  /** The total horizontal and vertical movement of a setting. */
  function Movement(v: seq<SettingOp>): (int, int)
  {
    if v == [] then (0, 0)
    else
      var m := Movement(v[1..]);
      match v[0]
      case HMoveTo(dx) => (dx + m.0, m.1)
      case VMoveTo(dy) => (m.0, dy + m.1)
      case Show(_) => m
  }

  /** The movement made before the first glyph is shown. */
  function MovementBeforeShow(v: seq<SettingOp>): (int, int)
  {
    if v == [] then (0, 0)
    else
      var m := MovementBeforeShow(v[1..]);
      match v[0]
      case HMoveTo(dx) => (dx + m.0, m.1)
      case VMoveTo(dy) => (m.0, dy + m.1)
      case Show(_) => (0, 0)
  }

  predicate NoNullMoves(v: seq<SettingOp>)
  {
    forall i :: 0 <= i < |v| ==> (v[i].HMoveTo? ==> v[i].dx != 0) && (v[i].VMoveTo? ==> v[i].dy != 0)
  }

  lemma {:induction false} ShownConcat(a: seq<SettingOp>, b: seq<SettingOp>)
    ensures Shown(a + b) == Shown(a) + Shown(b)
  {
    if a == [] {
      assert a + b == b;
    } else {
      assert (a + b)[0] == a[0] && (a + b)[1..] == a[1..] + b;
      ShownConcat(a[1..], b);
    }
  }

  lemma {:induction false} MovementConcat(a: seq<SettingOp>, b: seq<SettingOp>)
    ensures Movement(a + b) == (Movement(a).0 + Movement(b).0, Movement(a).1 + Movement(b).1)
  {
    if a == [] {
      assert a + b == b;
    } else {
      assert (a + b)[0] == a[0] && (a + b)[1..] == a[1..] + b;
      MovementConcat(a[1..], b);
    }
  }

  lemma {:induction false} BeforeShowConcat(a: seq<SettingOp>, b: seq<SettingOp>)
    requires Shown(a) == []
    ensures MovementBeforeShow(a + b) == (Movement(a).0 + MovementBeforeShow(b).0, Movement(a).1 + MovementBeforeShow(b).1)
  {
    if a == [] {
      assert a + b == b;
    } else {
      assert (a + b)[0] == a[0] && (a + b)[1..] == a[1..] + b;
      assert !a[0].Show?;
      BeforeShowConcat(a[1..], b);
    }
  }

  /** Once a glyph is shown, later steps do not change the movement made
    * before it. */
  lemma {:induction false} BeforeShowTail(a: seq<SettingOp>, b: seq<SettingOp>)
    requires Shown(a) != []
    ensures MovementBeforeShow(a + b) == MovementBeforeShow(a)
  {
    assert (a + b)[0] == a[0] && (a + b)[1..] == a[1..] + b;
    if !a[0].Show? {
      BeforeShowTail(a[1..], b);
    }
  }

  lemma NoNullConcat(a: seq<SettingOp>, b: seq<SettingOp>)
    requires NoNullMoves(a) && NoNullMoves(b)
    ensures NoNullMoves(a + b)
  {
    forall i | 0 <= i < |a + b|
      ensures ((a + b)[i].HMoveTo? ==> (a + b)[i].dx != 0) && ((a + b)[i].VMoveTo? ==> (a + b)[i].dy != 0)
    {
      if i < |a| {
        assert (a + b)[i] == a[i];
      } else {
        assert (a + b)[i] == b[i - |a|];
      }
    }
  }

  /** A horizontal move shows nothing and moves by dx. */
  lemma HMoveSteps(dx: int)
    ensures Shown(HMove(dx)) == [] && Movement(HMove(dx)) == (dx, 0) && MovementBeforeShow(HMove(dx)) == (dx, 0)
  {
    if dx != 0 {
      assert HMove(dx)[1..] == [];
    }
  }

  /** A vertical move shows nothing and moves by dy. */
  lemma VMoveSteps(dy: int)
    ensures Shown(VMove(dy)) == [] && Movement(VMove(dy)) == (0, dy) && MovementBeforeShow(VMove(dy)) == (0, dy)
  {
    if dy != 0 {
      assert VMove(dy)[1..] == [];
    }
  }

  /** Showing a glyph moves nothing. */
  lemma ShowStep(glyph: int)
    ensures Shown([Show(glyph)]) == [glyph] && Movement([Show(glyph)]) == (0, 0) && MovementBeforeShow([Show(glyph)]) == (0, 0)
  {
    assert [Show(glyph)][1..] == [];
  }

  lemma {:induction false} ShownFive(a: seq<SettingOp>, b: seq<SettingOp>, m: seq<SettingOp>, c: seq<SettingOp>, d: seq<SettingOp>)
    ensures Shown(a + b + m + c + d) == Shown(a) + Shown(b) + Shown(m) + Shown(c) + Shown(d)
  {
    ShownConcat(a, b);
    ShownConcat(a + b, m);
    ShownConcat(a + b + m, c);
    ShownConcat(a + b + m + c, d);
  }

  lemma {:induction false} MovementFive(a: seq<SettingOp>, b: seq<SettingOp>, m: seq<SettingOp>, c: seq<SettingOp>, d: seq<SettingOp>)
    ensures Movement(a + b + m + c + d).0 == Movement(a).0 + Movement(b).0 + Movement(m).0 + Movement(c).0 + Movement(d).0
    ensures Movement(a + b + m + c + d).1 == Movement(a).1 + Movement(b).1 + Movement(m).1 + Movement(c).1 + Movement(d).1
  {
    MovementConcat(a, b);
    MovementConcat(a + b, m);
    MovementConcat(a + b + m, c);
    MovementConcat(a + b + m + c, d);
  }

  lemma {:induction false} BeforeShowFive(a: seq<SettingOp>, b: seq<SettingOp>, m: seq<SettingOp>, c: seq<SettingOp>, d: seq<SettingOp>)
    requires Shown(a) == [] && Shown(b) == [] && Shown(m) != []
    ensures MovementBeforeShow(a + b + m + c + d).0 == Movement(a).0 + Movement(b).0 + MovementBeforeShow(m).0
    ensures MovementBeforeShow(a + b + m + c + d).1 == Movement(a).1 + Movement(b).1 + MovementBeforeShow(m).1
  {
    ShownConcat(a, b);
    MovementConcat(a, b);
    BeforeShowConcat(a, b);
    BeforeShowConcat(a + b, m);
    ShownConcat(a + b, m);
    assert a + b + m + c + d == (a + b + m) + (c + d);
    BeforeShowTail(a + b + m, c + d);
  }

  lemma SettingShown(glyph: int, o: (int, int, int))
    ensures Shown(SettingFor(glyph, o)) == [glyph]
  {
    var a, b, m, c, d := HMove(o.0), VMove(o.1), [Show(glyph)], VMove(-o.1), HMove(o.2 - o.0);
    assert SettingFor(glyph, o) == a + b + m + c + d;
    ShownFive(a, b, m, c, d);
    HMoveSteps(o.0); VMoveSteps(o.1); ShowStep(glyph); VMoveSteps(-o.1); HMoveSteps(o.2 - o.0);
    var e: seq<int> := [];
    assert e + e + [glyph] + e + e == [glyph];
  }

  lemma SettingMovement(glyph: int, o: (int, int, int))
    ensures Movement(SettingFor(glyph, o)) == (o.2, 0)
  {
    var a, b, m, c, d := HMove(o.0), VMove(o.1), [Show(glyph)], VMove(-o.1), HMove(o.2 - o.0);
    assert SettingFor(glyph, o) == a + b + m + c + d;
    MovementFive(a, b, m, c, d);
    HMoveSteps(o.0); VMoveSteps(o.1); ShowStep(glyph); VMoveSteps(-o.1); HMoveSteps(o.2 - o.0);
  }

  lemma SettingBeforeShow(glyph: int, o: (int, int, int))
    ensures MovementBeforeShow(SettingFor(glyph, o)) == (o.0, o.1)
  {
    var a, b, m, c, d := HMove(o.0), VMove(o.1), [Show(glyph)], VMove(-o.1), HMove(o.2 - o.0);
    assert SettingFor(glyph, o) == a + b + m + c + d;
    HMoveSteps(o.0); VMoveSteps(o.1); ShowStep(glyph);
    BeforeShowFive(a, b, m, c, d);
  }

  lemma SettingNoNull(glyph: int, o: (int, int, int))
    ensures NoNullMoves(SettingFor(glyph, o))
  {
    var a, b, m, c, d := HMove(o.0), VMove(o.1), [Show(glyph)], VMove(-o.1), HMove(o.2 - o.0);
    assert SettingFor(glyph, o) == a + b + m + c + d;
    NoNullConcat(a, b);
    NoNullConcat(a + b, m);
    NoNullConcat(a + b + m, c);
    NoNullConcat(a + b + m + c, d);
  }

  /** A setting shows its glyph once, placed at (pdx, pdy), and leaves the
    * pen advanced by adx on the baseline; it makes no null move. */
  lemma SettingMoves(glyph: int, o: (int, int, int))
    ensures Shown(SettingFor(glyph, o)) == [glyph]
    ensures MovementBeforeShow(SettingFor(glyph, o)) == (o.0, o.1)
    ensures Movement(SettingFor(glyph, o)) == (o.2, 0)
    ensures NoNullMoves(SettingFor(glyph, o))
  {
    SettingShown(glyph, o);
    SettingBeforeShow(glyph, o);
    SettingMovement(glyph, o);
    SettingNoNull(glyph, o);
  }

  /** The ligatures `twoligatures(code1, …)` reports. */
  predicate IsTwoligatureOf(l: Ligature, code1: int)
  {
    |l.ins| == 2 && l.ins[0] == code1 && l.ins[1] >= 0 && l.out >= 0
  }

  /** The ligatures of `ls` that start with `code1`, in table order. */
  function TwoligaturesOf(ls: seq<Ligature>, code1: int): (r: seq<Ligature>)
    ensures |r| <= |ls|
    ensures forall l :: l in r <==> l in ls && IsTwoligatureOf(l, code1)
    ensures forall i :: 0 <= i < |r| ==> IsTwoligatureOf(r[i], code1)
  {
    if ls == [] then []
    else
      var rest := TwoligaturesOf(ls[1..], code1);
      assert forall l :: l in ls <==> l == ls[0] || l in ls[1..];
      if IsTwoligatureOf(ls[0], code1) then [ls[0]] + rest else rest
  }

  /** The kerns `kerns(code1, …)` reports. */
  predicate IsKernOf(k: Kern, code1: int)
  {
    k.left == code1 && k.right >= 0
  }

  /** The kerns of `ks` with left code `code1`, in table order. */
  function KernsFrom(ks: seq<Kern>, code1: int): (r: seq<Kern>)
    ensures |r| <= |ks|
    ensures forall k :: k in r <==> k in ks && IsKernOf(k, code1)
  {
    if ks == [] then []
    else
      var rest := KernsFrom(ks[1..], code1);
      assert forall k :: k in ks <==> k == ks[0] || k in ks[1..];
      if IsKernOf(ks[0], code1) then [ks[0]] + rest else rest
  }

  /** What `kern(code1, code2)` answers: the amount of the first kern for
    * the pair, or 0. */
  function FirstKernAmount(ks: seq<Kern>, code1: int, code2: int): (a: int)
    ensures (forall i :: 0 <= i < |ks| ==> KernKey(ks[i]) != (code1, code2)) ==> a == 0
    ensures forall i :: (0 <= i < |ks| && KernKey(ks[i]) == (code1, code2) &&
      (forall k :: 0 <= k < i ==> KernKey(ks[k]) != (code1, code2))) ==> a == ks[i].amount
  {
    if ks == [] then 0
    else if KernKey(ks[0]) == (code1, code2) then ks[0].amount
    else
      var a := FirstKernAmount(ks[1..], code1, code2);
      assert forall i :: 1 <= i < |ks| ==> ks[i] == ks[1..][i - 1];
      a
  }

  lemma {:induction false} CountNonNegative(s: seq<Kern>, key: (int, int))
    ensures SumBy(s, KernCount(key)) >= 0
  {
    if s != [] {
      CountNonNegative(s[1..], key);
    }
  }

  lemma {:induction false} AbsentWeightless(s: seq<Kern>, key: (int, int))
    requires SumBy(s, KernCount(key)) == 0
    ensures SumBy(s, KernWeight(key)) == 0
    ensures FirstKernAmount(s, key.0, key.1) == 0
  {
    if s != [] {
      CountNonNegative(s[1..], key);
      AbsentWeightless(s[1..], key);
    }
  }

  /** When a pair has at most one kern, `kern` answers the table's total for
    * that pair. */
  lemma {:induction false} UniqueKernAmount(s: seq<Kern>, key: (int, int))
    requires SumBy(s, KernCount(key)) <= 1
    ensures FirstKernAmount(s, key.0, key.1) == SumBy(s, KernWeight(key))
  {
    if s != [] {
      CountNonNegative(s[1..], key);
      if KernKey(s[0]) == key {
        AbsentWeightless(s[1..], key);
      } else {
        UniqueKernAmount(s[1..], key);
      }
    }
  }

  /** After `simplify_positionings`, `kern(code1, code2)` of a live pair
    * answers the sum of all kerns the table held for that pair. */
  lemma KernAfterSimplify(ks: seq<Kern>, code1: int, code2: int)
    requires code1 >= 0
    ensures FirstKernAmount(MergeKerns(SortBy(ks, KernKey)), code1, code2) == SumBy(ks, KernWeight((code1, code2)))
  {
    SimplifiedKerns(ks, (code1, code2));
    UniqueKernAmount(MergeKerns(SortBy(ks, KernKey)), (code1, code2));
  }

  /** The same, for every live pair at once. */
  lemma KernsAfterSimplify(ks: seq<Kern>)
    ensures forall c1, c2 :: c1 >= 0 ==>
      FirstKernAmount(MergeKerns(SortBy(ks, KernKey)), c1, c2) == SumBy(ks, KernWeight((c1, c2)))
  {
    forall c1, c2 | c1 >= 0
      ensures FirstKernAmount(MergeKerns(SortBy(ks, KernKey)), c1, c2) == SumBy(ks, KernWeight((c1, c2)))
    {
      KernAfterSimplify(ks, c1, c2);
    }
  }
}
