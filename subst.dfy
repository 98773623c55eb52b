/**
 * The substitution pass `apply(Vector<Substitution>)` as a function of the
 * engine's code table, cache and ligature table.  Each rule is applied in
 * turn against a per-pass tracker sized to the table as it was when the
 * pass began; codes appended during the pass are outside the tracker and
 * are ignored by its range checks.
 */
module Substitutions {
  import opened Tables
  import opened GlyphLookup
  import opened Tracker

  /** The rule kinds the pass distinguishes.  An alternate substitution
    * carries its first alternative. */
  datatype Substitution =
    | Single(inGlyph: int, outGlyph: int)
    | Alternate(inGlyph: int, outGlyph: int)
    | LigatureRule(inGlyphs: seq<int>, outGlyph: int)
    | RightContext(inGlyph: int, rightGlyph: int, outGlyph: int)
    | LeftContext(leftGlyph: int, inGlyph: int, outGlyph: int)
    | OtherSubstitution

  /** The part of the engine a substitution pass touches. */
  datatype Engine = Engine(enc: seq<int>, emap: seq<int>, ligs: seq<Ligature>)

  /** Rules the pass counts: single and alternate ones only when
    * `allowSingle`. */
  predicate Handled(s: Substitution, allowSingle: bool)
  {
    match s
    case Single(_, _) => allowSingle
    case Alternate(_, _) => allowSingle
    case OtherSubstitution => false
    case _ => true
  }

  function CountHandled(sv: seq<Substitution>, allowSingle: bool): (n: nat)
    ensures n <= |sv|
    ensures n == 0 <==> forall i :: 0 <= i < |sv| ==> !Handled(sv[i], allowSingle)
  {
    if sv == [] then 0
    else
      CountHandled(sv[..|sv| - 1], allowSingle) + (if Handled(sv[|sv| - 1], allowSingle) then 1 else 0)
  }

  /** Every ligature rule names at least one input glyph. */
  ghost predicate RulesHaveInputs(sv: seq<Substitution>)
  {
    forall i :: 0 <= i < |sv| && sv[i].LigatureRule? ==> |sv[i].inGlyphs| >= 1
  }

  /** `add_single_context_substitution`: the two-code ligature, unless the
    * output equals the context code. */
  function AddContext(ligs: seq<Ligature>, left: int, right: int, out: int, isRight: bool): seq<Ligature>
  {
    if out != (if isRight then right else left) then ligs + [ContextLigature(left, right, out, isRight)] else ligs
  }

  /** A code a ligature rule cannot take as input: unencoded, appended during
    * this pass, or already rewritten unconditionally. */
  predicate Blocked(t: Tracker, e: int)
    requires |t.changed| == |t.context|
  {
    e < 0 || e >= |t.changed| || t.changed[e] == ChAll
  }

  /** A single or alternate rule. */
  function SingleStep(st: Engine, t: Tracker, inGlyph: int, outGlyph: int): (r: (Engine, Tracker))
    requires TrackerOk(t, |t.changed|) && |t.changed| <= |st.enc|
    ensures TrackerOk(r.1, |t.changed|) && |r.0.enc| >= |st.enc| && |r.0.ligs| >= |st.ligs|
    ensures var e := Lookup(st.enc, st.emap, inGlyph);
      Blocked(t, e) ==> r.0.enc == st.enc && r.0.ligs == st.ligs && r.1 == t
    ensures var e := Lookup(st.enc, st.emap, inGlyph);
      !Blocked(t, e) && t.changed[e] == ChNo ==>
        |r.0.enc| == |st.enc| && r.0.enc[e] == outGlyph &&
        (forall c :: 0 <= c < |st.enc| && c != e ==> r.0.enc[c] == st.enc[c]) &&
        r.0.ligs == st.ligs
    ensures var e := Lookup(st.enc, st.emap, inGlyph);
      !Blocked(t, e) && t.changed[e] == ChSome ==>
        var m := LookupCache(st.enc, st.emap, inGlyph);
        r.0.enc == ForcedTable(st.enc, m, outGlyph) &&
        r.0.ligs == st.ligs + ContextFill(r.0.enc, e, ForcedCode(st.enc, m, outGlyph), t.context[e], 0, |t.changed|)
    ensures var e := Lookup(st.enc, st.emap, inGlyph);
      !Blocked(t, e) ==> r.1.changed == t.changed[e := ChAll] && r.1.context == t.context
  {
    var n := |t.changed|;
    var e := Lookup(st.enc, st.emap, inGlyph);
    var m := LookupCache(st.enc, st.emap, inGlyph);
    if e < 0 || e >= n then (st.(emap := m), t)
    else if t.changed[e] == ChNo then
      (Engine(st.enc[e := outGlyph], CacheAssign(CacheAssign(m, inGlyph, -2), outGlyph, e), st.ligs),
       t.(changed := t.changed[e := ChAll]))
    else if t.changed[e] == ChSome then
      var out := ForcedCode(st.enc, m, outGlyph);
      var enc := ForcedTable(st.enc, m, outGlyph);
      (Engine(enc, ForcedEmap(st.enc, m, outGlyph), st.ligs + ContextFill(enc, e, out, t.context[e], 0, n)),
       t.(changed := t.changed[e := ChAll]))
    else (st.(emap := m), t)
  }

  /** The codes of a ligature rule's inputs, looked up left to right; the
    * scan stops at the first blocked input.  `emap` is the cache after the
    * lookups made. */
  datatype Codes = Codes(codes: seq<int>, emap: seq<int>, ok: bool)

  function LigatureCodes(enc: seq<int>, emap: seq<int>, t: Tracker, gs: seq<int>): (r: Codes)
    requires |t.changed| == |t.context|
    ensures r.ok <==> forall k :: 0 <= k < |gs| ==> !Blocked(t, Lookup(enc, emap, gs[k]))
    ensures r.ok ==> |r.codes| == |gs| && forall k :: 0 <= k < |gs| ==> r.codes[k] == Lookup(enc, emap, gs[k])
    ensures forall h :: Lookup(enc, r.emap, h) == Lookup(enc, emap, h)
    decreases |gs|
  {
    if gs == [] then Codes([], emap, true)
    else
      var e := Lookup(enc, emap, gs[0]);
      var m := LookupCache(enc, emap, gs[0]);
      if Blocked(t, e) then Codes([], m, false)
      else
        var r := LigatureCodes(enc, m, t, gs[1..]);
        assert forall k :: 1 <= k < |gs| ==> gs[k] == gs[1..][k - 1];
        Codes([e] + r.codes, r.emap, r.ok)
  }

  /** A ligature rule: one new ligature, with `skip` set and no context,
    * when every input is usable; otherwise nothing but cache updates. */
  function LigatureStep(st: Engine, t: Tracker, gs: seq<int>, outGlyph: int): (r: Engine)
    requires TrackerOk(t, |t.changed|) && |t.changed| <= |st.enc|
    ensures |r.enc| >= |st.enc| && |r.ligs| >= |st.ligs|
    ensures !LigatureCodes(st.enc, st.emap, t, gs).ok ==> r.enc == st.enc && r.ligs == st.ligs
    ensures LigatureCodes(st.enc, st.emap, t, gs).ok ==>
      |r.ligs| == |st.ligs| + 1 && r.ligs[..|st.ligs|] == st.ligs &&
      var l := r.ligs[|st.ligs|];
      l.context == 0 && l.skip && |l.ins| == |gs| &&
      (forall k :: 0 <= k < |gs| ==> l.ins[k] == Lookup(st.enc, st.emap, gs[k]) && 0 <= l.ins[k] < |t.changed|) &&
      0 <= l.out < |r.enc| && r.enc[l.out] == outGlyph
  {
    var c := LigatureCodes(st.enc, st.emap, t, gs);
    if !c.ok then st.(emap := c.emap)
    else
      Engine(ForcedTable(st.enc, c.emap, outGlyph), ForcedEmap(st.enc, c.emap, outGlyph),
             st.ligs + [Ligature(c.codes, ForcedCode(st.enc, c.emap, outGlyph), true, 0)])
  }

  /** A context rule: `first` is rewritten to `outGlyph` when followed by
    * `second` (right context) or `second` when preceded by `first` (left
    * context).  A pair already covered adds nothing. */
  function ContextStep(st: Engine, t: Tracker, first: int, second: int, outGlyph: int, isRight: bool): (r: (Engine, Tracker))
    requires TrackerOk(t, |t.changed|) && |t.changed| <= |st.enc|
    ensures TrackerOk(r.1, |t.changed|) && |r.0.enc| >= |st.enc| && |r.0.ligs| >= |st.ligs|
    ensures var a := Lookup(st.enc, st.emap, first);
      var b := Lookup(st.enc, st.emap, second);
      var newPair := 0 <= a < |t.changed| && 0 <= b < |t.changed| && !InChangedContext(t, a, b);
      (!newPair ==> r.0.enc == st.enc && r.0.ligs == st.ligs && r.1 == t) &&
      (newPair ==>
        InChangedContext(r.1, a, b) && r.1.changed[a] == ChSome &&
        (forall x, y :: InChangedContext(r.1, x, y) <==> InChangedContext(t, x, y) || (x == a && y == b)) &&
        exists out :: 0 <= out < |r.0.enc| && r.0.enc[out] == outGlyph &&
          r.0.ligs == AddContext(st.ligs, a, b, out, isRight))
  {
    var n := |t.changed|;
    var a := Lookup(st.enc, st.emap, first);
    var m1 := LookupCache(st.enc, st.emap, first);
    var b := Lookup(st.enc, m1, second);
    var m2 := LookupCache(st.enc, m1, second);
    if 0 <= a < n && 0 <= b < n && !InChangedContext(t, a, b) then
      var out := ForcedCode(st.enc, m2, outGlyph);
      (Engine(ForcedTable(st.enc, m2, outGlyph), ForcedEmap(st.enc, m2, outGlyph), AddContext(st.ligs, a, b, out, isRight)),
       AssignChangedContext(t, a, b))
    else (st.(emap := m2), t)
  }

  /** One iteration of the pass. */
  function Step(st: Engine, t: Tracker, s: Substitution, allowSingle: bool): (r: (Engine, Tracker))
    requires TrackerOk(t, |t.changed|) && |t.changed| <= |st.enc|
    ensures TrackerOk(r.1, |t.changed|) && |r.0.enc| >= |st.enc| && |r.0.ligs| >= |st.ligs|
    ensures !Handled(s, allowSingle) ==> r == (st, t)
  {
    match s
    case Single(i, o) => if allowSingle then SingleStep(st, t, i, o) else (st, t)
    case Alternate(i, o) => if allowSingle then SingleStep(st, t, i, o) else (st, t)
    case LigatureRule(gs, o) => (LigatureStep(st, t, gs, o), t)
    case RightContext(i, rg, o) => ContextStep(st, t, i, rg, o, true)
    case LeftContext(lg, i, o) => ContextStep(st, t, lg, i, o, false)
    case OtherSubstitution => (st, t)
  }

  /** The whole pass over `sv`, rule by rule. */
  function ApplyAll(st: Engine, t: Tracker, sv: seq<Substitution>, allowSingle: bool): (r: (Engine, Tracker))
    requires TrackerOk(t, |t.changed|) && |t.changed| <= |st.enc|
    ensures TrackerOk(r.1, |t.changed|) && |r.0.enc| >= |st.enc| && |r.0.ligs| >= |st.ligs|
  {
    if sv == [] then (st, t)
    else
      var p := ApplyAll(st, t, sv[..|sv| - 1], allowSingle);
      Step(p.0, p.1, sv[|sv| - 1], allowSingle)
  }

  /** The pass over one more rule is one more step, and counts it when it
    * is of a handled kind. */
  lemma ApplyAllNext(st: Engine, t: Tracker, sv: seq<Substitution>, i: nat, allowSingle: bool)
    requires TrackerOk(t, |t.changed|) && |t.changed| <= |st.enc| && i < |sv|
    ensures var p := ApplyAll(st, t, sv[..i], allowSingle);
      ApplyAll(st, t, sv[..i + 1], allowSingle) == Step(p.0, p.1, sv[i], allowSingle)
    ensures CountHandled(sv[..i + 1], allowSingle) == CountHandled(sv[..i], allowSingle) + if Handled(sv[i], allowSingle) then 1 else 0
  {
    assert sv[..i + 1][..i] == sv[..i] && sv[..i + 1][i] == sv[i];
  }

  ghost predicate LigsOk(st: Engine)
  {
    LigaturesIn(st.ligs, |st.enc|) && HaveInputs(st.ligs)
  }

  /** Every ligature a rule adds refers only to codes of the resulting table
    * and has an input; earlier ligatures are kept. */
  lemma StepKeepsLigs(st: Engine, t: Tracker, s: Substitution, allowSingle: bool)
    requires TrackerOk(t, |t.changed|) && |t.changed| <= |st.enc|
    requires LigsOk(st) && (s.LigatureRule? ==> |s.inGlyphs| >= 1)
    ensures LigsOk(Step(st, t, s, allowSingle).0)
    ensures Step(st, t, s, allowSingle).0.ligs[..|st.ligs|] == st.ligs
  {
    match s
    case Single(i, o) => if allowSingle { SingleKeepsLigs(st, t, i, o); }
    case Alternate(i, o) => if allowSingle { SingleKeepsLigs(st, t, i, o); }
    case LigatureRule(gs, o) => LigatureKeepsLigs(st, t, gs, o);
    case RightContext(i, rg, o) => ContextKeepsLigs(st, t, i, rg, o, true);
    case LeftContext(lg, i, o) => ContextKeepsLigs(st, t, lg, i, o, false);
    case OtherSubstitution =>
  }

  lemma KeptLigs(st: Engine, r: Engine)
    requires LigsOk(st) && |r.enc| >= |st.enc| && |r.ligs| >= |st.ligs| && r.ligs[..|st.ligs|] == st.ligs
    ensures forall i :: 0 <= i < |st.ligs| ==> LigatureIn(r.ligs[i], |r.enc|) && |r.ligs[i].ins| >= 1
  {
    forall i | 0 <= i < |st.ligs| ensures LigatureIn(r.ligs[i], |r.enc|) && |r.ligs[i].ins| >= 1 {
      assert r.ligs[i] == st.ligs[i];
      assert LigatureIn(st.ligs[i], |st.enc|);
    }
  }

  /** The context ligatures `[e, c] -> out` over codes of the table keep the
    * table sound. */
  lemma FillAdded(st: Engine, r: Engine, e: int, out: int, covered: set<int>, n: nat)
    requires LigsOk(st) && 0 <= e < |st.enc| && 0 <= out < |r.enc| && n <= |st.enc| <= |r.enc|
    requires r.ligs == st.ligs + ContextFill(r.enc, e, out, covered, 0, n)
    ensures LigsOk(r) && r.ligs[..|st.ligs|] == st.ligs
  {
    var fill := ContextFill(r.enc, e, out, covered, 0, n);
    ContextFillIn(r.enc, e, out, covered, 0, n, |r.enc|);
    assert r.ligs[..|st.ligs|] == st.ligs;
    KeptLigs(st, r);
    forall i | |st.ligs| <= i < |r.ligs| ensures LigatureIn(r.ligs[i], |r.enc|) && |r.ligs[i].ins| >= 1 {
      assert r.ligs[i] == fill[i - |st.ligs|];
    }
  }

  lemma SingleKeepsLigs(st: Engine, t: Tracker, inGlyph: int, outGlyph: int)
    requires TrackerOk(t, |t.changed|) && |t.changed| <= |st.enc| && LigsOk(st)
    ensures LigsOk(SingleStep(st, t, inGlyph, outGlyph).0)
    ensures SingleStep(st, t, inGlyph, outGlyph).0.ligs[..|st.ligs|] == st.ligs
  {
    var r := SingleStep(st, t, inGlyph, outGlyph).0;
    var e := Lookup(st.enc, st.emap, inGlyph);
    if !Blocked(t, e) && t.changed[e] == ChSome {
      var m := LookupCache(st.enc, st.emap, inGlyph);
      FillAdded(st, r, e, ForcedCode(st.enc, m, outGlyph), t.context[e], |t.changed|);
    } else {
      assert r.ligs == st.ligs && |r.enc| >= |st.enc|;
      KeptLigs(st, r);
    }
  }

  lemma LigatureKeepsLigs(st: Engine, t: Tracker, gs: seq<int>, outGlyph: int)
    requires TrackerOk(t, |t.changed|) && |t.changed| <= |st.enc| && LigsOk(st) && |gs| >= 1
    ensures LigsOk(LigatureStep(st, t, gs, outGlyph))
    ensures LigatureStep(st, t, gs, outGlyph).ligs[..|st.ligs|] == st.ligs
  {
    var r := LigatureStep(st, t, gs, outGlyph);
    KeptLigs(st, r);
  }

  /** A context ligature over codes of the table keeps the table sound. */
  lemma ContextAdded(st: Engine, r: Engine, a: int, b: int, out: int, isRight: bool)
    requires LigsOk(st) && 0 <= a < |st.enc| && 0 <= b < |st.enc| && 0 <= out < |r.enc| && |r.enc| >= |st.enc|
    requires r.ligs == AddContext(st.ligs, a, b, out, isRight)
    ensures LigsOk(r) && r.ligs[..|st.ligs|] == st.ligs
  {
    assert r.ligs[..|st.ligs|] == st.ligs;
    KeptLigs(st, r);
  }

  lemma ContextKeepsLigs(st: Engine, t: Tracker, first: int, second: int, outGlyph: int, isRight: bool)
    requires TrackerOk(t, |t.changed|) && |t.changed| <= |st.enc| && LigsOk(st)
    ensures LigsOk(ContextStep(st, t, first, second, outGlyph, isRight).0)
    ensures ContextStep(st, t, first, second, outGlyph, isRight).0.ligs[..|st.ligs|] == st.ligs
  {
    var r := ContextStep(st, t, first, second, outGlyph, isRight).0;
    var a := Lookup(st.enc, st.emap, first);
    var b := Lookup(st.enc, st.emap, second);
    if 0 <= a < |t.changed| && 0 <= b < |t.changed| && !InChangedContext(t, a, b) {
      var out :| 0 <= out < |r.enc| && r.enc[out] == outGlyph && r.ligs == AddContext(st.ligs, a, b, out, isRight);
      ContextAdded(st, r, a, b, out, isRight);
    } else {
      assert r.ligs == st.ligs && r.enc == st.enc;
    }
  }

  /** The pass leaves no dangling code in the ligature table and keeps every
    * ligature it started with. */
  lemma {:induction false} ApplyAllKeepsLigs(st: Engine, t: Tracker, sv: seq<Substitution>, allowSingle: bool)
    requires TrackerOk(t, |t.changed|) && |t.changed| <= |st.enc|
    requires LigsOk(st) && RulesHaveInputs(sv)
    ensures LigsOk(ApplyAll(st, t, sv, allowSingle).0)
    ensures ApplyAll(st, t, sv, allowSingle).0.ligs[..|st.ligs|] == st.ligs
  {
    if sv != [] {
      var p := ApplyAll(st, t, sv[..|sv| - 1], allowSingle);
      ApplyAllKeepsLigs(st, t, sv[..|sv| - 1], allowSingle);
      StepKeepsLigs(p.0, p.1, sv[|sv| - 1], allowSingle);
      assert |st.ligs| <= |p.0.ligs|;
      assert st.ligs == p.0.ligs[..|st.ligs|];
    }
  }

  /** A rule leaves a code already changed unconditionally (CH_ALL) as it
    * is: still CH_ALL, and holding the same glyph. */
  lemma StepKeepsChAll(st: Engine, t: Tracker, s: Substitution, allowSingle: bool, e: int)
    requires TrackerOk(t, |t.changed|) && |t.changed| <= |st.enc|
    requires 0 <= e < |t.changed| && t.changed[e] == ChAll
    ensures Step(st, t, s, allowSingle).1.changed[e] == ChAll
    ensures Step(st, t, s, allowSingle).0.enc[e] == st.enc[e]
  {
    match s
    case Single(i, o) =>
    case Alternate(i, o) =>
    case LigatureRule(gs, o) =>
    case RightContext(i, rg, o) => ContextKeepsChAll(st, t, i, rg, o, true, e);
    case LeftContext(lg, i, o) => ContextKeepsChAll(st, t, lg, i, o, false, e);
    case OtherSubstitution =>
  }

  lemma ContextKeepsChAll(st: Engine, t: Tracker, first: int, second: int, outGlyph: int, isRight: bool, e: int)
    requires TrackerOk(t, |t.changed|) && |t.changed| <= |st.enc|
    requires 0 <= e < |t.changed| && t.changed[e] == ChAll
    ensures ContextStep(st, t, first, second, outGlyph, isRight).1.changed[e] == ChAll
    ensures ContextStep(st, t, first, second, outGlyph, isRight).0.enc[e] == st.enc[e]
  {
    var a := Lookup(st.enc, st.emap, first);
    var m1 := LookupCache(st.enc, st.emap, first);
    var b := Lookup(st.enc, m1, second);
    var m2 := LookupCache(st.enc, m1, second);
    if 0 <= a < |t.changed| && 0 <= b < |t.changed| && !InChangedContext(t, a, b) {
      assert a != e;
      var enc := ForcedTable(st.enc, m2, outGlyph);
      assert enc[e] == st.enc[e];
    }
  }

  /** Unconditional substitutions take precedence for the rest of a pass:
    * once a code is CH_ALL after the first k rules, no later rule of the
    * same pass changes it or its glyph. */
  lemma {:induction false} ChAllStays(st: Engine, t: Tracker, sv: seq<Substitution>, k: nat, e: int, allowSingle: bool)
    requires TrackerOk(t, |t.changed|) && |t.changed| <= |st.enc|
    requires k <= |sv| && 0 <= e < |t.changed|
    requires ApplyAll(st, t, sv[..k], allowSingle).1.changed[e] == ChAll
    ensures ApplyAll(st, t, sv, allowSingle).1.changed[e] == ChAll
    ensures ApplyAll(st, t, sv, allowSingle).0.enc[e] == ApplyAll(st, t, sv[..k], allowSingle).0.enc[e]
    decreases |sv| - k
  {
    if k == |sv| {
      assert sv[..k] == sv;
    } else {
      var p := ApplyAll(st, t, sv[..k], allowSingle);
      ApplyAllNext(st, t, sv, k, allowSingle);
      StepKeepsChAll(p.0, p.1, sv[k], allowSingle, e);
      ChAllStays(st, t, sv, k + 1, e, allowSingle);
    }
  }

  /** The number the pass returns counts every rule of a handled kind. */
  lemma {:induction false} CountHandledAppend(sv: seq<Substitution>, s: Substitution, allowSingle: bool)
    ensures CountHandled(sv + [s], allowSingle) == CountHandled(sv, allowSingle) + (if Handled(s, allowSingle) then 1 else 0)
  {
    assert (sv + [s])[..|sv|] == sv;
  }
}
