/**
 * The per-pass bookkeeping of the rule appliers.  The heap bitvectors of
 * the original (one word per 32 codes, allocated on first use, absent
 * until then, meaning "all clear") are sets of codes; a bit is meaningful only
 * for codes below the size the bitvector was made for.
 */
module Tracker {
  import opened Tables

  /** CH_NO, CH_SOME and CH_ALL: a code is untouched, was changed in some
    * contexts, or was changed unconditionally during this pass. */
  datatype Changed = ChNo | ChSome | ChAll

  /** `changed` and `changed_context` of `apply(Vector<Substitution>)`. */
  datatype Tracker = Tracker(changed: seq<Changed>, context: seq<set<int>>)

  ghost predicate TrackerOk(t: Tracker, n: int)
  {
    |t.changed| == n && |t.context| == n
  }

  /** The tracker a pass starts with: every code untouched. */
  function NewTracker(n: nat): (t: Tracker)
    ensures TrackerOk(t, n)
    ensures forall e :: 0 <= e < n ==> t.changed[e] == ChNo && t.context[e] == {}
  {
    Tracker(seq(n, _ => ChNo), seq(n, _ => {}))
  }

  /** `in_changed_context(e1, e2)`: code `e1` has already been rewritten
    * when followed by `e2`, or everywhere. */
  predicate InChangedContext(t: Tracker, e1: int, e2: int)
    requires |t.changed| == |t.context|
  {
    var n := |t.context|;
    0 <= e1 < n && 0 <= e2 < n && (t.changed[e1] == ChAll || e2 in t.context[e1])
  }

  /** `assign_changed_context(e1, e2)`: record that `e1` was rewritten when
    * followed by `e2`.  Out-of-range codes are ignored. */
  function AssignChangedContext(t: Tracker, e1: int, e2: int): (t': Tracker)
    requires |t.changed| == |t.context|
    requires 0 <= e1 < |t.context| && 0 <= e2 < |t.context| ==> t.changed[e1] != ChAll
    ensures TrackerOk(t', |t.context|)
    ensures forall a, b :: InChangedContext(t', a, b) <==>
      InChangedContext(t, a, b) || (a == e1 && b == e2 && 0 <= e1 < |t.context| && 0 <= e2 < |t.context|)
    ensures 0 <= e1 < |t.context| && 0 <= e2 < |t.context| ==> t'.changed[e1] == ChSome
    ensures forall a :: 0 <= a < |t.context| && a != e1 ==> t'.changed[a] == t.changed[a] && t'.context[a] == t.context[a]
    ensures !(0 <= e1 < |t.context| && 0 <= e2 < |t.context|) ==> t' == t
  {
    var n := |t.context|;
    if 0 <= e1 < n && 0 <= e2 < n then
      Tracker(t.changed[e1 := ChSome], t.context[e1 := t.context[e1] + {e2}])
    else
      t
  }

  /** `in_bitvec(bits, e, n)`. */
  predicate InBitvec(bits: set<int>, e: int, n: int)
  {
    0 <= e < n && e in bits
  }

  /** `assign_bitvec(bits, e, n)`: set bit `e` and say whether it was set
    * before; out-of-range codes are never recorded. */
  function AssignBitvec(bits: set<int>, e: int, n: int): (r: (bool, set<int>))
    ensures r.0 == InBitvec(bits, e, n)
    ensures forall x :: InBitvec(r.1, x, n) <==> InBitvec(bits, x, n) || (x == e && 0 <= e < n)
    ensures !(0 <= e < n) ==> r.1 == bits
  {
    if 0 <= e < n then (e in bits, bits + {e}) else (false, bits)
  }

  /** The entry `add_single_context_substitution` makes, before its filter. */
  function ContextLigature(left: int, right: int, out: int, isRight: bool): Ligature
  {
    Ligature([left, right], out, true, if isRight then 1 else -1)
  }

  /** The right-context ligatures a single substitution of a CH_SOME code `e`
    * adds for codes j0, ..., n-1: one per encoded code not yet covered,
    * except the output code itself. */
  function ContextFill(enc: seq<int>, e: int, out: int, covered: set<int>, j: nat, n: nat): seq<Ligature>
    requires n <= |enc|
    decreases n - j
  {
    if j >= n then []
    else
      (if enc[j] > 0 && j !in covered && out != j then [ContextLigature(e, j, out, true)] else [])
      + ContextFill(enc, e, out, covered, j + 1, n)
  }

  /** The context ligatures of a code below `m` into an output below `m`
    * refer only to codes below `m`, and each has two inputs. */
  lemma {:induction false} ContextFillIn(enc: seq<int>, e: int, out: int, covered: set<int>, j: nat, n: nat, m: int)
    requires n <= |enc| && n <= m && 0 <= e < m && 0 <= out < m
    ensures LigaturesIn(ContextFill(enc, e, out, covered, j, n), m)
    ensures HaveInputs(ContextFill(enc, e, out, covered, j, n))
    decreases n - j
  {
    if j < n {
      ContextFillIn(enc, e, out, covered, j + 1, n, m);
      var head := if enc[j] > 0 && j !in covered && out != j then [ContextLigature(e, j, out, true)] else [];
      var rest := ContextFill(enc, e, out, covered, j + 1, n);
      assert head != [] ==> LigatureIn(head[0], m);
      assert forall i :: 0 <= i < |head + rest| ==> (head + rest)[i] == if i < |head| then head[i] else rest[i - |head|];
    }
  }

  /** Exactly the uncovered encoded contexts get a ligature, each of the
    * shape [e, j] -> out with right context. */
  lemma {:induction false} ContextFillExactly(enc: seq<int>, e: int, out: int, covered: set<int>, j: nat, n: nat)
    requires n <= |enc|
    ensures forall l :: l in ContextFill(enc, e, out, covered, j, n) ==>
      |l.ins| == 2 && l.ins[0] == e && j <= l.ins[1] < n && l.out == out && l.skip && l.context == 1
    ensures forall c :: ContextLigature(e, c, out, true) in ContextFill(enc, e, out, covered, j, n) <==>
      j <= c < n && enc[c] > 0 && c !in covered && c != out
    decreases n - j
  {
    if j < n {
      ContextFillExactly(enc, e, out, covered, j + 1, n);
    }
  }
}
