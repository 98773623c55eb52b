/**
 * The positioning pass `apply(Vector<Positioning>)` as a function.  The
 * code table does not change during the pass; a pair kern or a single
 * positioning is recorded only for the first rule that reaches its code
 * pair or code, which the bitvectors `pair_changed` (one per left code) and
 * `single_changed` remember.
 */
module Positionings {
  import opened Tables
  import opened GlyphLookup
  import opened Tracker

  datatype Positioning =
    | PairKern(leftGlyph: int, rightGlyph: int, adx: int)
    | SinglePos(glyph: int, pdx: int, pdy: int, adx: int)
    | OtherPositioning

  /** What the pass reads and writes besides the unchanging code table. */
  datatype PosState = PosState(emap: seq<int>, kerns: seq<Kern>, vfpos: seq<Vfpos>, pairSeen: seq<set<int>>, singleSeen: set<int>)

  function CountPositionings(pv: seq<Positioning>): (n: nat)
    ensures n <= |pv|
    ensures n == 0 <==> forall i :: 0 <= i < |pv| ==> pv[i].OtherPositioning?
  {
    if pv == [] then 0
    else CountPositionings(pv[..|pv| - 1]) + (if pv[|pv| - 1].OtherPositioning? then 0 else 1)
  }

  /** The state the pass starts from: nothing seen. */
  function StartState(enc: seq<int>, emap: seq<int>, kerns: seq<Kern>, vfpos: seq<Vfpos>): (st: PosState)
    ensures |st.pairSeen| == |enc|
    ensures forall c :: 0 <= c < |enc| ==> st.pairSeen[c] == {}
  {
    PosState(emap, kerns, vfpos, seq(|enc|, _ => {}), {})
  }

  /** The codes a pair rule reaches. */
  function PairCodes(enc: seq<int>, emap: seq<int>, p: Positioning): (int, int)
    requires p.PairKern?
  {
    (Lookup(enc, emap, p.leftGlyph), Lookup(enc, emap, p.rightGlyph))
  }

  /** A pair rule whose glyphs are both encoded. */
  predicate PairFound(enc: seq<int>, emap: seq<int>, p: Positioning)
  {
    p.PairKern? && PairCodes(enc, emap, p).0 >= 0 && PairCodes(enc, emap, p).1 >= 0
  }

  /** A single positioning whose glyph is encoded. */
  predicate SingleFound(enc: seq<int>, emap: seq<int>, p: Positioning)
  {
    p.SinglePos? && Lookup(enc, emap, p.glyph) >= 0
  }

  /** One rule: a found pair not yet seen adds a kern, a found code not yet
    * seen adds a positioning, and the rule is then remembered as seen. */
  function PosStep(enc: seq<int>, st: PosState, p: Positioning): (r: PosState)
    requires |st.pairSeen| == |enc|
    ensures |r.pairSeen| == |enc|
    ensures forall h :: Lookup(enc, r.emap, h) == Lookup(enc, st.emap, h)
    ensures !p.SinglePos? ==> r.vfpos == st.vfpos && r.singleSeen == st.singleSeen
    ensures !p.PairKern? ==> r.kerns == st.kerns && r.pairSeen == st.pairSeen
    ensures p.PairKern? && !PairFound(enc, st.emap, p) ==> r.kerns == st.kerns && r.pairSeen == st.pairSeen
    ensures PairFound(enc, st.emap, p) ==>
      var key := PairCodes(enc, st.emap, p);
      r.pairSeen == st.pairSeen[key.0 := st.pairSeen[key.0] + {key.1}] &&
      r.kerns == if key.1 in st.pairSeen[key.0] then st.kerns else st.kerns + [Kern(key.0, key.1, p.adx)]
    ensures p.SinglePos? && !SingleFound(enc, st.emap, p) ==> r.vfpos == st.vfpos && r.singleSeen == st.singleSeen
    ensures SingleFound(enc, st.emap, p) ==>
      var c := Lookup(enc, st.emap, p.glyph);
      r.singleSeen == st.singleSeen + {c} &&
      r.vfpos == if c in st.singleSeen then st.vfpos else st.vfpos + [Vfpos(c, p.pdx, p.pdy, p.adx)]
  {
    match p
    case PairKern(lg, rg, adx) =>
      var c1 := Lookup(enc, st.emap, lg);
      var m1 := LookupCache(enc, st.emap, lg);
      var c2 := Lookup(enc, m1, rg);
      var m2 := LookupCache(enc, m1, rg);
      if c1 >= 0 && c2 >= 0 then
        var b := AssignBitvec(st.pairSeen[c1], c2, |enc|);
        var kerns := if b.0 then st.kerns else st.kerns + [Kern(c1, c2, adx)];
        st.(emap := m2, pairSeen := st.pairSeen[c1 := b.1], kerns := kerns)
      else st.(emap := m2)
    case SinglePos(g, pdx, pdy, adx) =>
      var c := Lookup(enc, st.emap, g);
      var m := LookupCache(enc, st.emap, g);
      if c >= 0 then
        var b := AssignBitvec(st.singleSeen, c, |enc|);
        var vfpos := if b.0 then st.vfpos else st.vfpos + [Vfpos(c, pdx, pdy, adx)];
        st.(emap := m, singleSeen := b.1, vfpos := vfpos)
      else st.(emap := m)
    case OtherPositioning => st
  }

  function ApplyPos(enc: seq<int>, st: PosState, pv: seq<Positioning>): (r: PosState)
    requires |st.pairSeen| == |enc|
    ensures |r.pairSeen| == |enc|
  {
    if pv == [] then st else PosStep(enc, ApplyPos(enc, st, pv[..|pv| - 1]), pv[|pv| - 1])
  }

  /** The pass over one more rule is one more step, and counts it unless it
    * is of another kind. */
  lemma ApplyPosNext(enc: seq<int>, st: PosState, pv: seq<Positioning>, i: nat)
    requires |st.pairSeen| == |enc| && i < |pv|
    ensures ApplyPos(enc, st, pv[..i + 1]) == PosStep(enc, ApplyPos(enc, st, pv[..i]), pv[i])
    ensures CountPositionings(pv[..i + 1]) == CountPositionings(pv[..i]) + if pv[i].OtherPositioning? then 0 else 1
  {
    assert pv[..i + 1][..i] == pv[..i] && pv[..i + 1][i] == pv[i];
  }

  /** Rule k is the first in `pv` to reach its code pair. */
  ghost predicate FirstPair(enc: seq<int>, emap: seq<int>, pv: seq<Positioning>, k: int)
    requires 0 <= k < |pv|
  {
    PairFound(enc, emap, pv[k]) &&
    forall k' :: 0 <= k' < k && PairFound(enc, emap, pv[k']) ==> PairCodes(enc, emap, pv[k']) != PairCodes(enc, emap, pv[k])
  }

  /** Rule k is the first in `pv` to reach its code. */
  ghost predicate FirstSingle(enc: seq<int>, emap: seq<int>, pv: seq<Positioning>, k: int)
    requires 0 <= k < |pv|
  {
    SingleFound(enc, emap, pv[k]) &&
    forall k' :: 0 <= k' < k && SingleFound(enc, emap, pv[k']) ==> Lookup(enc, emap, pv[k'].glyph) != Lookup(enc, emap, pv[k].glyph)
  }

  /** Every found pair rule among the first j is remembered as seen. */
  ghost predicate PairsSeen(enc: seq<int>, emap0: seq<int>, pv: seq<Positioning>, j: int, st: PosState)
    requires 0 <= j <= |pv| && |st.pairSeen| == |enc|
  {
    forall k :: 0 <= k < j && PairFound(enc, emap0, pv[k]) ==>
      PairCodes(enc, emap0, pv[k]).1 in st.pairSeen[PairCodes(enc, emap0, pv[k]).0]
  }

  /** The seen pairs are exactly those of the kerns added since `n0`. */
  ghost predicate SeenIsAdded(enc: seq<int>, n0: int, st: PosState)
    requires |st.pairSeen| == |enc| && 0 <= n0 <= |st.kerns|
  {
    (forall x, y :: 0 <= x < |enc| && y in st.pairSeen[x] ==>
      exists i :: n0 <= i < |st.kerns| && st.kerns[i].left == x && st.kerns[i].right == y) &&
    (forall i :: n0 <= i < |st.kerns| ==>
      0 <= st.kerns[i].left < |enc| && 0 <= st.kerns[i].right < |enc| &&
      st.kerns[i].right in st.pairSeen[st.kerns[i].left])
  }

  ghost predicate KernsDistinct(ks: seq<Kern>, n0: int)
    requires 0 <= n0
  {
    forall i, i' :: n0 <= i < i' < |ks| ==> (ks[i].left, ks[i].right) != (ks[i'].left, ks[i'].right)
  }

  /** Kern `kn` is the one pair rule `p` would add. */
  predicate KernOf(enc: seq<int>, emap: seq<int>, p: Positioning, kn: Kern)
  {
    p.PairKern? && PairCodes(enc, emap, p) == (kn.left, kn.right) && p.adx == kn.amount
  }

  /** One of the first j rules is the first for its pair and adds `kn`. */
  ghost predicate KernFromFirst(enc: seq<int>, emap0: seq<int>, pv: seq<Positioning>, j: int, kn: Kern)
    requires 0 <= j <= |pv|
  {
    exists k :: 0 <= k < j && FirstPair(enc, emap0, pv, k) && KernOf(enc, emap0, pv[k], kn)
  }

  /** Every kern added since `n0` comes from the first rule for its pair. */
  ghost predicate KernsFromFirst(enc: seq<int>, emap0: seq<int>, pv: seq<Positioning>, j: int, ks: seq<Kern>, n0: int)
    requires 0 <= j <= |pv| && 0 <= n0
  {
    forall i :: n0 <= i < |ks| ==> KernFromFirst(enc, emap0, pv, j, ks[i])
  }

  ghost predicate PairInv(enc: seq<int>, emap0: seq<int>, n0: int, pv: seq<Positioning>, j: int, st: PosState)
    requires 0 <= j <= |pv|
  {
    |st.pairSeen| == |enc| && 0 <= n0 <= |st.kerns| &&
    PairsSeen(enc, emap0, pv, j, st) && SeenIsAdded(enc, n0, st) && KernsDistinct(st.kerns, n0) &&
    KernsFromFirst(enc, emap0, pv, j, st.kerns, n0)
  }

  ghost predicate CodesSeen(enc: seq<int>, emap0: seq<int>, pv: seq<Positioning>, j: int, st: PosState)
    requires 0 <= j <= |pv|
  {
    forall k :: 0 <= k < j && SingleFound(enc, emap0, pv[k]) ==> Lookup(enc, emap0, pv[k].glyph) in st.singleSeen
  }

  ghost predicate CodeSeenIsAdded(enc: seq<int>, v0: int, st: PosState)
    requires 0 <= v0 <= |st.vfpos|
  {
    (forall c :: c in st.singleSeen ==> exists i :: v0 <= i < |st.vfpos| && st.vfpos[i].code == c) &&
    (forall i :: v0 <= i < |st.vfpos| ==> 0 <= st.vfpos[i].code < |enc| && st.vfpos[i].code in st.singleSeen)
  }

  ghost predicate VfposDistinct(vs: seq<Vfpos>, v0: int)
    requires 0 <= v0
  {
    forall i, i' :: v0 <= i < i' < |vs| ==> vs[i].code != vs[i'].code
  }

  /** Positioning `v` is the one single rule `p` would add. */
  predicate VfposOf(enc: seq<int>, emap: seq<int>, p: Positioning, v: Vfpos)
  {
    p.SinglePos? && Lookup(enc, emap, p.glyph) == v.code && p.pdx == v.pdx && p.pdy == v.pdy && p.adx == v.adx
  }

  /** One of the first j rules is the first for its code and adds `v`. */
  ghost predicate SingleFromFirst(enc: seq<int>, emap0: seq<int>, pv: seq<Positioning>, j: int, v: Vfpos)
    requires 0 <= j <= |pv|
  {
    exists k :: 0 <= k < j && FirstSingle(enc, emap0, pv, k) && VfposOf(enc, emap0, pv[k], v)
  }

  /** Every positioning added since `v0` comes from the first rule for its code. */
  ghost predicate VfposFromFirst(enc: seq<int>, emap0: seq<int>, pv: seq<Positioning>, j: int, vs: seq<Vfpos>, v0: int)
    requires 0 <= j <= |pv| && 0 <= v0
  {
    forall i :: v0 <= i < |vs| ==> SingleFromFirst(enc, emap0, pv, j, vs[i])
  }

  ghost predicate SingleInv(enc: seq<int>, emap0: seq<int>, v0: int, pv: seq<Positioning>, j: int, st: PosState)
    requires 0 <= j <= |pv|
  {
    0 <= v0 <= |st.vfpos| &&
    CodesSeen(enc, emap0, pv, j, st) && CodeSeenIsAdded(enc, v0, st) && VfposDistinct(st.vfpos, v0) &&
    VfposFromFirst(enc, emap0, pv, j, st.vfpos, v0)
  }

  lemma AddedSeenIsAdded(enc: seq<int>, n0: int, st: PosState, r: PosState, key: (int, int), adx: int)
    requires |st.pairSeen| == |enc| && 0 <= n0 <= |st.kerns| && SeenIsAdded(enc, n0, st)
    requires 0 <= key.0 < |enc| && 0 <= key.1 < |enc|
    requires r.pairSeen == st.pairSeen[key.0 := st.pairSeen[key.0] + {key.1}]
    requires r.kerns == st.kerns + [Kern(key.0, key.1, adx)]
    ensures SeenIsAdded(enc, n0, r)
  {
    forall x, y | 0 <= x < |enc| && y in r.pairSeen[x]
      ensures exists i :: n0 <= i < |r.kerns| && r.kerns[i].left == x && r.kerns[i].right == y
    {
      if x == key.0 && y == key.1 {
        assert r.kerns[|st.kerns|].left == x;
      } else {
        assert y in st.pairSeen[x];
        var i :| n0 <= i < |st.kerns| && st.kerns[i].left == x && st.kerns[i].right == y;
        assert r.kerns[i] == st.kerns[i];
      }
    }
  }

  lemma AddedFromFirst(enc: seq<int>, emap0: seq<int>, n0: int, pv: seq<Positioning>, j: int, st: PosState, r: PosState)
    requires 0 <= j < |pv| && 0 <= n0 <= |st.kerns| && KernsFromFirst(enc, emap0, pv, j, st.kerns, n0)
    requires FirstPair(enc, emap0, pv, j)
    requires r.kerns == st.kerns + [Kern(PairCodes(enc, emap0, pv[j]).0, PairCodes(enc, emap0, pv[j]).1, pv[j].adx)]
    ensures KernsFromFirst(enc, emap0, pv, j + 1, r.kerns, n0)
  {
    forall i | n0 <= i < |r.kerns| ensures KernFromFirst(enc, emap0, pv, j + 1, r.kerns[i]) {
      if i < |st.kerns| {
        KernFromFirstMono(enc, emap0, pv, j, j + 1, st.kerns[i]);
      } else {
        assert KernOf(enc, emap0, pv[j], r.kerns[i]);
      }
    }
  }

  lemma KernFromFirstMono(enc: seq<int>, emap0: seq<int>, pv: seq<Positioning>, j: int, j': int, kn: Kern)
    requires 0 <= j <= j' <= |pv| && KernFromFirst(enc, emap0, pv, j, kn)
    ensures KernFromFirst(enc, emap0, pv, j', kn)
  {
    var k :| 0 <= k < j && FirstPair(enc, emap0, pv, k) && KernOf(enc, emap0, pv[k], kn);
  }

  /** A found pair not yet seen: its kern is new and the rule is the first
    * for its pair. */
  lemma PairAdded(enc: seq<int>, emap0: seq<int>, n0: int, pv: seq<Positioning>, j: int, st: PosState, r: PosState)
    requires 0 <= j < |pv| && PairInv(enc, emap0, n0, pv, j, st)
    requires PairFound(enc, emap0, pv[j])
    requires PairCodes(enc, emap0, pv[j]).1 !in st.pairSeen[PairCodes(enc, emap0, pv[j]).0]
    requires var key := PairCodes(enc, emap0, pv[j]);
      r.pairSeen == st.pairSeen[key.0 := st.pairSeen[key.0] + {key.1}] &&
      r.kerns == st.kerns + [Kern(key.0, key.1, pv[j].adx)]
    ensures PairInv(enc, emap0, n0, pv, j + 1, r)
  {
    var key := PairCodes(enc, emap0, pv[j]);
    PairAddedFirst(enc, emap0, n0, pv, j, st);
    AddedSeenIsAdded(enc, n0, st, r, key, pv[j].adx);
    AddedFromFirst(enc, emap0, n0, pv, j, st, r);
    AddedKernsDistinct(enc, n0, st, r, key, pv[j].adx);
    AddedPairsSeen(enc, emap0, pv, j, st, r);
  }

  /** A found pair not yet seen is the first rule for its pair. */
  lemma PairAddedFirst(enc: seq<int>, emap0: seq<int>, n0: int, pv: seq<Positioning>, j: int, st: PosState)
    requires 0 <= j < |pv| && |st.pairSeen| == |enc| && PairsSeen(enc, emap0, pv, j, st)
    requires PairFound(enc, emap0, pv[j])
    requires PairCodes(enc, emap0, pv[j]).1 !in st.pairSeen[PairCodes(enc, emap0, pv[j]).0]
    ensures FirstPair(enc, emap0, pv, j)
  {
  }

  lemma AddedKernsDistinct(enc: seq<int>, n0: int, st: PosState, r: PosState, key: (int, int), adx: int)
    requires |st.pairSeen| == |enc| && 0 <= n0 <= |st.kerns| && SeenIsAdded(enc, n0, st) && KernsDistinct(st.kerns, n0)
    requires 0 <= key.0 < |enc| && key.1 !in st.pairSeen[key.0]
    requires r.kerns == st.kerns + [Kern(key.0, key.1, adx)]
    ensures KernsDistinct(r.kerns, n0)
  {
    forall i | n0 <= i < |st.kerns| ensures (st.kerns[i].left, st.kerns[i].right) != key {
      assert st.kerns[i].right in st.pairSeen[st.kerns[i].left];
    }
  }

  lemma AddedPairsSeen(enc: seq<int>, emap0: seq<int>, pv: seq<Positioning>, j: int, st: PosState, r: PosState)
    requires 0 <= j < |pv| && |st.pairSeen| == |enc| && PairsSeen(enc, emap0, pv, j, st)
    requires PairFound(enc, emap0, pv[j])
    requires var key := PairCodes(enc, emap0, pv[j]); r.pairSeen == st.pairSeen[key.0 := st.pairSeen[key.0] + {key.1}]
    ensures PairsSeen(enc, emap0, pv, j + 1, r)
  {
  }

  /** A pair already seen, or a rule of another kind, changes no kern. */
  lemma PairKept(enc: seq<int>, emap0: seq<int>, n0: int, pv: seq<Positioning>, j: int, st: PosState, r: PosState)
    requires 0 <= j < |pv| && PairInv(enc, emap0, n0, pv, j, st)
    requires r.kerns == st.kerns && |r.pairSeen| == |enc|
    requires PairFound(enc, emap0, pv[j]) ==>
      var key := PairCodes(enc, emap0, pv[j]);
      key.1 in st.pairSeen[key.0] && r.pairSeen == st.pairSeen[key.0 := st.pairSeen[key.0] + {key.1}]
    requires !PairFound(enc, emap0, pv[j]) ==> r.pairSeen == st.pairSeen
    ensures PairInv(enc, emap0, n0, pv, j + 1, r)
  {
    if PairFound(enc, emap0, pv[j]) {
      var key := PairCodes(enc, emap0, pv[j]);
      assert st.pairSeen[key.0] + {key.1} == st.pairSeen[key.0];
      assert r.pairSeen == st.pairSeen;
    }
    assert PairsSeen(enc, emap0, pv, j + 1, r);
    assert KernsFromFirst(enc, emap0, pv, j + 1, r.kerns, n0) by {
      forall i | n0 <= i < |r.kerns| ensures KernFromFirst(enc, emap0, pv, j + 1, r.kerns[i]) {
        KernFromFirstMono(enc, emap0, pv, j, j + 1, r.kerns[i]);
      }
    }
  }

  lemma PairPosStep(enc: seq<int>, emap0: seq<int>, n0: int, pv: seq<Positioning>, j: int, st: PosState)
    requires 0 <= j < |pv| && PairInv(enc, emap0, n0, pv, j, st)
    requires forall h :: Lookup(enc, st.emap, h) == Lookup(enc, emap0, h)
    ensures PairInv(enc, emap0, n0, pv, j + 1, PosStep(enc, st, pv[j]))
  {
    var r := PosStep(enc, st, pv[j]);
    var p := pv[j];
    if p.PairKern? {
      assert PairCodes(enc, st.emap, p) == PairCodes(enc, emap0, p);
    }
    if PairFound(enc, emap0, p) && PairCodes(enc, emap0, p).1 !in st.pairSeen[PairCodes(enc, emap0, p).0] {
      PairAdded(enc, emap0, n0, pv, j, st, r);
    } else {
      PairKept(enc, emap0, n0, pv, j, st, r);
    }
  }

  lemma SingleAdded(enc: seq<int>, emap0: seq<int>, v0: int, pv: seq<Positioning>, j: int, st: PosState, r: PosState)
    requires 0 <= j < |pv| && SingleInv(enc, emap0, v0, pv, j, st)
    requires SingleFound(enc, emap0, pv[j])
    requires Lookup(enc, emap0, pv[j].glyph) !in st.singleSeen
    requires var c := Lookup(enc, emap0, pv[j].glyph);
      r.singleSeen == st.singleSeen + {c} && r.vfpos == st.vfpos + [Vfpos(c, pv[j].pdx, pv[j].pdy, pv[j].adx)]
    ensures SingleInv(enc, emap0, v0, pv, j + 1, r)
  {
    var c := Lookup(enc, emap0, pv[j].glyph);
    SingleAddedFirst(enc, emap0, pv, j, st);
    AddedCodeSeenIsAdded(enc, v0, st, r, c, pv[j].pdx, pv[j].pdy, pv[j].adx);
    AddedVfposFromFirst(enc, emap0, v0, pv, j, st, r);
    AddedVfposDistinct(enc, v0, st, r, c, pv[j].pdx, pv[j].pdy, pv[j].adx);
    AddedCodesSeen(enc, emap0, pv, j, st, r);
  }

  /** A found code not yet seen is the first rule for its code. */
  lemma SingleAddedFirst(enc: seq<int>, emap0: seq<int>, pv: seq<Positioning>, j: int, st: PosState)
    requires 0 <= j < |pv| && CodesSeen(enc, emap0, pv, j, st)
    requires SingleFound(enc, emap0, pv[j]) && Lookup(enc, emap0, pv[j].glyph) !in st.singleSeen
    ensures FirstSingle(enc, emap0, pv, j)
  {
  }

  lemma AddedCodeSeenIsAdded(enc: seq<int>, v0: int, st: PosState, r: PosState, c: int, pdx: int, pdy: int, adx: int)
    requires 0 <= v0 <= |st.vfpos| && CodeSeenIsAdded(enc, v0, st) && 0 <= c < |enc|
    requires r.singleSeen == st.singleSeen + {c} && r.vfpos == st.vfpos + [Vfpos(c, pdx, pdy, adx)]
    ensures CodeSeenIsAdded(enc, v0, r)
  {
    forall x | x in r.singleSeen
      ensures exists i :: v0 <= i < |r.vfpos| && r.vfpos[i].code == x
    {
      if x == c {
        assert r.vfpos[|st.vfpos|].code == x;
      } else {
        var i :| v0 <= i < |st.vfpos| && st.vfpos[i].code == x;
        assert r.vfpos[i] == st.vfpos[i];
      }
    }
  }

  lemma AddedVfposFromFirst(enc: seq<int>, emap0: seq<int>, v0: int, pv: seq<Positioning>, j: int, st: PosState, r: PosState)
    requires 0 <= j < |pv| && 0 <= v0 <= |st.vfpos| && VfposFromFirst(enc, emap0, pv, j, st.vfpos, v0)
    requires FirstSingle(enc, emap0, pv, j)
    requires r.vfpos == st.vfpos + [Vfpos(Lookup(enc, emap0, pv[j].glyph), pv[j].pdx, pv[j].pdy, pv[j].adx)]
    ensures VfposFromFirst(enc, emap0, pv, j + 1, r.vfpos, v0)
  {
    forall i | v0 <= i < |r.vfpos| ensures SingleFromFirst(enc, emap0, pv, j + 1, r.vfpos[i]) {
      if i < |st.vfpos| {
        SingleFromFirstMono(enc, emap0, pv, j, j + 1, st.vfpos[i]);
      } else {
        assert VfposOf(enc, emap0, pv[j], r.vfpos[i]);
      }
    }
  }

  lemma AddedVfposDistinct(enc: seq<int>, v0: int, st: PosState, r: PosState, c: int, pdx: int, pdy: int, adx: int)
    requires 0 <= v0 <= |st.vfpos| && CodeSeenIsAdded(enc, v0, st) && VfposDistinct(st.vfpos, v0) && c !in st.singleSeen
    requires r.vfpos == st.vfpos + [Vfpos(c, pdx, pdy, adx)]
    ensures VfposDistinct(r.vfpos, v0)
  {
  }

  lemma AddedCodesSeen(enc: seq<int>, emap0: seq<int>, pv: seq<Positioning>, j: int, st: PosState, r: PosState)
    requires 0 <= j < |pv| && CodesSeen(enc, emap0, pv, j, st)
    requires SingleFound(enc, emap0, pv[j]) && r.singleSeen == st.singleSeen + {Lookup(enc, emap0, pv[j].glyph)}
    ensures CodesSeen(enc, emap0, pv, j + 1, r)
  {
  }

  lemma SingleKept(enc: seq<int>, emap0: seq<int>, v0: int, pv: seq<Positioning>, j: int, st: PosState, r: PosState)
    requires 0 <= j < |pv| && SingleInv(enc, emap0, v0, pv, j, st)
    requires r.vfpos == st.vfpos
    requires SingleFound(enc, emap0, pv[j]) ==>
      var c := Lookup(enc, emap0, pv[j].glyph);
      c in st.singleSeen && r.singleSeen == st.singleSeen + {c}
    requires !SingleFound(enc, emap0, pv[j]) ==> r.singleSeen == st.singleSeen
    ensures SingleInv(enc, emap0, v0, pv, j + 1, r)
  {
    if SingleFound(enc, emap0, pv[j]) {
      assert st.singleSeen + {Lookup(enc, emap0, pv[j].glyph)} == st.singleSeen;
    }
    assert CodesSeen(enc, emap0, pv, j + 1, r);
    assert VfposFromFirst(enc, emap0, pv, j + 1, r.vfpos, v0) by {
      forall i | v0 <= i < |r.vfpos| ensures SingleFromFirst(enc, emap0, pv, j + 1, r.vfpos[i]) {
        SingleFromFirstMono(enc, emap0, pv, j, j + 1, r.vfpos[i]);
      }
    }
  }

  lemma SingleFromFirstMono(enc: seq<int>, emap0: seq<int>, pv: seq<Positioning>, j: int, j': int, v: Vfpos)
    requires 0 <= j <= j' <= |pv| && SingleFromFirst(enc, emap0, pv, j, v)
    ensures SingleFromFirst(enc, emap0, pv, j', v)
  {
    var k :| 0 <= k < j && FirstSingle(enc, emap0, pv, k) && VfposOf(enc, emap0, pv[k], v);
  }

  lemma SinglePosStep(enc: seq<int>, emap0: seq<int>, v0: int, pv: seq<Positioning>, j: int, st: PosState)
    requires 0 <= j < |pv| && |st.pairSeen| == |enc| && SingleInv(enc, emap0, v0, pv, j, st)
    requires forall h :: Lookup(enc, st.emap, h) == Lookup(enc, emap0, h)
    ensures SingleInv(enc, emap0, v0, pv, j + 1, PosStep(enc, st, pv[j]))
  {
    var r := PosStep(enc, st, pv[j]);
    var p := pv[j];
    if p.SinglePos? {
      assert Lookup(enc, st.emap, p.glyph) == Lookup(enc, emap0, p.glyph);
    }
    if SingleFound(enc, emap0, p) && Lookup(enc, emap0, p.glyph) !in st.singleSeen {
      SingleAdded(enc, emap0, v0, pv, j, st, r);
    } else {
      SingleKept(enc, emap0, v0, pv, j, st, r);
    }
  }

  /** The invariants the pass keeps after j rules. */
  ghost predicate PosInv(enc: seq<int>, emap0: seq<int>, kerns0: seq<Kern>, vfpos0: seq<Vfpos>, pv: seq<Positioning>, j: int, r: PosState)
    requires 0 <= j <= |pv|
  {
    PairInv(enc, emap0, |kerns0|, pv, j, r) && SingleInv(enc, emap0, |vfpos0|, pv, j, r) &&
    r.kerns[..|kerns0|] == kerns0 && r.vfpos[..|vfpos0|] == vfpos0 &&
    forall h :: Lookup(enc, r.emap, h) == Lookup(enc, emap0, h)
  }

  lemma PosInvStep(enc: seq<int>, emap0: seq<int>, kerns0: seq<Kern>, vfpos0: seq<Vfpos>, pv: seq<Positioning>, j: int, p: PosState)
    requires 0 <= j < |pv| && PosInv(enc, emap0, kerns0, vfpos0, pv, j, p)
    ensures PosInv(enc, emap0, kerns0, vfpos0, pv, j + 1, PosStep(enc, p, pv[j]))
  {
    PairPosStep(enc, emap0, |kerns0|, pv, j, p);
    SinglePosStep(enc, emap0, |vfpos0|, pv, j, p);
    var r := PosStep(enc, p, pv[j]);
    assert r.kerns[..|kerns0|] == kerns0;
    assert r.vfpos[..|vfpos0|] == vfpos0;
  }

  lemma {:induction false} InvariantsHold(enc: seq<int>, emap0: seq<int>, kerns0: seq<Kern>, vfpos0: seq<Vfpos>, pv: seq<Positioning>, j: int)
    requires 0 <= j <= |pv|
    ensures var r := ApplyPos(enc, StartState(enc, emap0, kerns0, vfpos0), pv[..j]);
      PairInv(enc, emap0, |kerns0|, pv, j, r) && SingleInv(enc, emap0, |vfpos0|, pv, j, r) &&
      r.kerns[..|kerns0|] == kerns0 && r.vfpos[..|vfpos0|] == vfpos0 &&
      forall h :: Lookup(enc, r.emap, h) == Lookup(enc, emap0, h)
  {
    PosInvHolds(enc, emap0, kerns0, vfpos0, pv, j);
  }

  lemma {:induction false} PosInvHolds(enc: seq<int>, emap0: seq<int>, kerns0: seq<Kern>, vfpos0: seq<Vfpos>, pv: seq<Positioning>, j: int)
    requires 0 <= j <= |pv|
    ensures PosInv(enc, emap0, kerns0, vfpos0, pv, j, ApplyPos(enc, StartState(enc, emap0, kerns0, vfpos0), pv[..j]))
  {
    var st := StartState(enc, emap0, kerns0, vfpos0);
    if j > 0 {
      PosInvHolds(enc, emap0, kerns0, vfpos0, pv, j - 1);
      assert pv[..j][..j - 1] == pv[..j - 1] && pv[..j][j - 1] == pv[j - 1];
      PosInvStep(enc, emap0, kerns0, vfpos0, pv, j - 1, ApplyPos(enc, st, pv[..j - 1]));
    } else {
      assert pv[..j] == [];
      assert st.kerns[..|kerns0|] == kerns0 && st.vfpos[..|vfpos0|] == vfpos0;
    }
  }

  /** First writer wins for kerns: the pass keeps the kerns it started with
    * and appends kerns with pairwise different code pairs, each the kern of
    * the first rule to reach its pair. */
  lemma PairsFirstWriterWins(enc: seq<int>, emap0: seq<int>, kerns0: seq<Kern>, vfpos0: seq<Vfpos>, pv: seq<Positioning>)
    ensures var r := ApplyPos(enc, StartState(enc, emap0, kerns0, vfpos0), pv);
      |r.kerns| >= |kerns0| && r.kerns[..|kerns0|] == kerns0 &&
      KernsDistinct(r.kerns, |kerns0|) && KernsFromFirst(enc, emap0, pv, |pv|, r.kerns, |kerns0|)
  {
    InvariantsHold(enc, emap0, kerns0, vfpos0, pv, |pv|);
    assert pv[..|pv|] == pv;
  }

  /** Every rule whose glyphs are both encoded is represented by an added
    * kern for its code pair. */
  lemma PairsCovered(enc: seq<int>, emap0: seq<int>, kerns0: seq<Kern>, vfpos0: seq<Vfpos>, pv: seq<Positioning>)
    ensures var r := ApplyPos(enc, StartState(enc, emap0, kerns0, vfpos0), pv);
      forall k :: 0 <= k < |pv| && PairFound(enc, emap0, pv[k]) ==>
        exists i :: |kerns0| <= i < |r.kerns| && (r.kerns[i].left, r.kerns[i].right) == PairCodes(enc, emap0, pv[k])
  {
    InvariantsHold(enc, emap0, kerns0, vfpos0, pv, |pv|);
    assert pv[..|pv|] == pv;
    var r := ApplyPos(enc, StartState(enc, emap0, kerns0, vfpos0), pv);
    assert PairsSeen(enc, emap0, pv, |pv|, r) && SeenIsAdded(enc, |kerns0|, r);
    forall k | 0 <= k < |pv| && PairFound(enc, emap0, pv[k])
      ensures exists i :: |kerns0| <= i < |r.kerns| && (r.kerns[i].left, r.kerns[i].right) == PairCodes(enc, emap0, pv[k])
    {
      var key := PairCodes(enc, emap0, pv[k]);
      assert key.1 in r.pairSeen[key.0];
      var i :| |kerns0| <= i < |r.kerns| && r.kerns[i].left == key.0 && r.kerns[i].right == key.1;
    }
  }

  /** First writer wins for single positionings, in the same sense, and
    * every rule whose glyph is encoded is represented by an added entry for
    * its code. */
  lemma SinglesFirstWriterWins(enc: seq<int>, emap0: seq<int>, kerns0: seq<Kern>, vfpos0: seq<Vfpos>, pv: seq<Positioning>)
    ensures var r := ApplyPos(enc, StartState(enc, emap0, kerns0, vfpos0), pv);
      |r.vfpos| >= |vfpos0| && r.vfpos[..|vfpos0|] == vfpos0 &&
      VfposDistinct(r.vfpos, |vfpos0|) && VfposFromFirst(enc, emap0, pv, |pv|, r.vfpos, |vfpos0|) &&
      (forall k :: 0 <= k < |pv| && SingleFound(enc, emap0, pv[k]) ==>
        exists i :: |vfpos0| <= i < |r.vfpos| && r.vfpos[i].code == Lookup(enc, emap0, pv[k].glyph))
  {
    InvariantsHold(enc, emap0, kerns0, vfpos0, pv, |pv|);
    assert pv[..|pv|] == pv;
    var r := ApplyPos(enc, StartState(enc, emap0, kerns0, vfpos0), pv);
    assert CodesSeen(enc, emap0, pv, |pv|, r) && CodeSeenIsAdded(enc, |vfpos0|, r);
    forall k | 0 <= k < |pv| && SingleFound(enc, emap0, pv[k])
      ensures exists i :: |vfpos0| <= i < |r.vfpos| && r.vfpos[i].code == Lookup(enc, emap0, pv[k].glyph)
    {
      assert Lookup(enc, emap0, pv[k].glyph) in r.singleSeen;
    }
  }
}
