/**
 * The records of the encoding engine's auxiliary tables, the "no dangling
 * code" invariant over them, and the rewriting of every code in them under
 * one reassignment (`reassign_codes`).
 *
 * A code is an index into the encoding table; -1 means "no code" (a removed
 * entry or a dropped glyph).
 */
module Tables {

  /** `in` is a keyword here, so the inputs are `ins`.  `context` is 0 for a
    * plain ligature, 1 for a right-context and -1 for a left-context single
    * substitution. */
  datatype Ligature = Ligature(ins: seq<int>, out: int, skip: bool, context: int)

  datatype Kern = Kern(left: int, right: int, amount: int)

  /** `in` of the original is `code` here. */
  datatype Vfpos = Vfpos(code: int, pdx: int, pdy: int, adx: int)

  /** One step a renderer performs to set a code. */
  datatype SettingOp = HMoveTo(dx: int) | VMoveTo(dy: int) | Show(glyph: int)

  /** The glyph value of a code synthesized to stand for the first two
    * inputs of a longer ligature.  Its value comes from gsubencoding.hh,
    * which is not part of this model; the engine only relies on it being
    * a positive glyph value. */
  const FAKE_LIGATURE: int := 0x7FFF_FFFE

  /** The wildcard code of `remove_ligatures` and `remove_kerns`, also from
    * gsubencoding.hh; it is not a code of any table the engine builds. */
  const CODE_ALL: int := 0x7FFF_FFFF

  predicate CodeIn(c: int, n: int)
  {
    -1 <= c < n
  }

  ghost predicate LigatureIn(l: Ligature, n: int)
  {
    (forall j :: 0 <= j < |l.ins| ==> CodeIn(l.ins[j], n)) && CodeIn(l.out, n)
  }

  ghost predicate LigaturesIn(ls: seq<Ligature>, n: int)
  {
    forall i :: 0 <= i < |ls| ==> LigatureIn(ls[i], n)
  }

  ghost predicate KernsIn(ks: seq<Kern>, n: int)
  {
    forall i :: 0 <= i < |ks| ==> CodeIn(ks[i].left, n) && CodeIn(ks[i].right, n)
  }

  ghost predicate VfposIn(vs: seq<Vfpos>, n: int)
  {
    forall i :: 0 <= i < |vs| ==> CodeIn(vs[i].code, n)
  }

  /** Every ligature has a first input, which the simplification passes read. */
  ghost predicate HaveInputs(ls: seq<Ligature>)
  {
    forall i :: 0 <= i < |ls| ==> |ls[i].ins| >= 1
  }

  /** No dangling code reference: every code in every table is -1 or below `n`. */
  ghost predicate NoDangling(ls: seq<Ligature>, fs: seq<Ligature>, ks: seq<Kern>, vs: seq<Vfpos>, n: int)
  {
    LigaturesIn(ls, n) && LigaturesIn(fs, n) && KernsIn(ks, n) && VfposIn(vs, n)
  }

  /** A reassignment, indexed by old code + 1, whose every entry is -1 or below `m`. */
  ghost predicate MapsInto(r: seq<int>, m: int)
  {
    forall k :: 0 <= k < |r| ==> CodeIn(r[k], m)
  }

  function RemapLigature(l: Ligature, r: seq<int>): Ligature
    requires LigatureIn(l, |r| - 1)
  {
    l.(ins := seq(|l.ins|, j requires 0 <= j < |l.ins| => r[l.ins[j] + 1]), out := r[l.out + 1])
  }

  function RemapLigatures(ls: seq<Ligature>, r: seq<int>): seq<Ligature>
    requires LigaturesIn(ls, |r| - 1)
  {
    seq(|ls|, i requires 0 <= i < |ls| => RemapLigature(ls[i], r))
  }

  function RemapKerns(ks: seq<Kern>, r: seq<int>): seq<Kern>
    requires KernsIn(ks, |r| - 1)
  {
    seq(|ks|, i requires 0 <= i < |ks| => ks[i].(left := r[ks[i].left + 1], right := r[ks[i].right + 1]))
  }

  function RemapVfpos(vs: seq<Vfpos>, r: seq<int>): seq<Vfpos>
    requires VfposIn(vs, |r| - 1)
  {
    seq(|vs|, i requires 0 <= i < |vs| => vs[i].(code := r[vs[i].code + 1]))
  }

  /** Rewriting under a reassignment into [-1, m) leaves no dangling code
    * for a table of size `m`, and keeps every ligature's number of inputs. */
  lemma RemapLeavesNoDangling(ls: seq<Ligature>, fs: seq<Ligature>, ks: seq<Kern>, vs: seq<Vfpos>, r: seq<int>, m: int)
    requires NoDangling(ls, fs, ks, vs, |r| - 1) && MapsInto(r, m)
    ensures NoDangling(RemapLigatures(ls, r), RemapLigatures(fs, r), RemapKerns(ks, r), RemapVfpos(vs, r), m)
    ensures HaveInputs(ls) ==> HaveInputs(RemapLigatures(ls, r))
    ensures HaveInputs(fs) ==> HaveInputs(RemapLigatures(fs, r))
  {
    forall i | 0 <= i < |ls| ensures LigatureIn(RemapLigatures(ls, r)[i], m) {
      MapsIntoAt(r, m, ls[i].out + 1);
    }
    forall i | 0 <= i < |fs| ensures LigatureIn(RemapLigatures(fs, r)[i], m) {
      MapsIntoAt(r, m, fs[i].out + 1);
    }
  }

  lemma MapsIntoAt(r: seq<int>, m: int, k: int)
    requires MapsInto(r, m) && 0 <= k < |r|
    ensures CodeIn(r[k], m)
  {
  }

  /** A larger table leaves every reference valid. */
  lemma NoDanglingGrow(ls: seq<Ligature>, fs: seq<Ligature>, ks: seq<Kern>, vs: seq<Vfpos>, n: int, m: int)
    requires NoDangling(ls, fs, ks, vs, n) && n <= m
    ensures NoDangling(ls, fs, ks, vs, m)
  {
    forall i | 0 <= i < |ls| ensures LigatureIn(ls[i], m) {
      assert LigatureIn(ls[i], n);
    }
    forall i | 0 <= i < |fs| ensures LigatureIn(fs[i], m) {
      assert LigatureIn(fs[i], n);
    }
  }
}
