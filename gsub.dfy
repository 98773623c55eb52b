/**
 * The `GsubEncoding` engine: a code-to-glyph table that OpenType feature
 * rules rewrite, with its reverse cache and the ligature, fake ligature,
 * kern and positioning tables that refer to codes.  The engine's methods
 * rewrite these fields in place; each is proved against the functions of
 * the other modules that say what it computes.
 */
module GsubEncodingEngine {
  import opened Tables
  import opened GlyphLookup
  import opened Tracker
  import opened Substitutions
  import opened Positionings
  import opened Sorting
  import opened Merge
  import opened Queries
  import opened Edits
  import opened LigatureSimplify
  import opened Compaction

  class GsubEncoding {
    var boundaryGlyph: int
    /** Code to glyph; 0 is "no glyph". */
    var encoding: seq<int>
    /** Glyph to code cache; -2 is "unknown". */
    var emap: seq<int>
    var ligatures: seq<Ligature>
    var fakeLigatures: seq<Ligature>
    var kerns: seq<Kern>
    var vfpos: seq<Vfpos>

    /** No dangling code reference, and every ligature has a first input. */
    ghost predicate Valid()
      reads this
    {
      NoDangling(ligatures, fakeLigatures, kerns, vfpos, |encoding|) && HaveInputs(ligatures) && HaveInputs(fakeLigatures)
    }

    /** The part of the engine a substitution pass rewrites. */
    ghost function Snapshot(): Engine
      reads this
    {
      Engine(encoding, emap, ligatures)
    }

    /** A fresh engine: 256 empty codes and no rules; the boundary glyph is
      * the one past the font's last glyph. */
    constructor (nglyphs: int)
      ensures boundaryGlyph == nglyphs
      ensures encoding == seq(256, _ => 0)
      ensures emap == [] && ligatures == [] && fakeLigatures == [] && kerns == [] && vfpos == []
      ensures Valid()
    {
      boundaryGlyph := nglyphs;
      encoding := seq(256, _ => 0);
      emap := [];
      ligatures := [];
      fakeLigatures := [];
      kerns := [];
      vfpos := [];
    }

    /** `setting(code, v)`: how a renderer sets `code`.  False, with no
      * steps, for a code out of range or holding no glyph; otherwise the
      * steps place the glyph at the offsets of the first positioning for
      * the code. */
    method Setting(code: int) returns (ok: bool, v: seq<SettingOp>)
      ensures ok <==> 0 <= code < |encoding| && encoding[code] > 0
      ensures !ok ==> v == []
      ensures ok ==> v == SettingFor(encoding[code], FirstOffsets(vfpos, code))
    {
      v := [];
      if code < 0 || code >= |encoding| {
        return false, v;
      }
      var pdx, pdy, adx := 0, 0, 0;
      var i := 0;
      while i < |vfpos|
        invariant 0 <= i <= |vfpos|
        invariant forall k :: 0 <= k < i ==> vfpos[k].code != code
        invariant (pdx, pdy, adx) == (0, 0, 0)
      {
        if vfpos[i].code == code {
          pdx, pdy, adx := vfpos[i].pdx, vfpos[i].pdy, vfpos[i].adx;
          assert FirstVfposIndex(vfpos, code) == i;
          break;
        }
        i := i + 1;
      }
      assert (pdx, pdy, adx) == FirstOffsets(vfpos, code);
      if encoding[code] <= 0 {
        return false, v;
      }
      if pdx != 0 {
        v := v + [HMoveTo(pdx)];
      }
      if pdy != 0 {
        v := v + [VMoveTo(pdy)];
      }
      v := v + [Show(encoding[code])];
      if pdy != 0 {
        v := v + [VMoveTo(-pdy)];
      }
      if adx - pdx != 0 {
        v := v + [HMoveTo(adx - pdx)];
      }
      ok := true;
    }

    /** `hard_encoding(g)`: scan for the smallest code holding `g`, and cache
      * the answer when `g` occurs at most once. */
    method HardEncoding(g: int) returns (r: int)
      modifies this`emap
      ensures g < 0 ==> r == -1 && emap == old(emap)
      ensures g >= 0 ==> r == FirstIndex(encoding, g)
      ensures g >= 0 && multiset(encoding)[g] < 2 ==> emap == CacheWrite(old(emap), g, r)
      ensures g >= 0 && multiset(encoding)[g] >= 2 ==> emap == old(emap)
    {
      if g < 0 {
        return -1;
      }
      var answer, n := -1, 0;
      var i := |encoding| - 1;
      while i >= 0
        invariant -1 <= i < |encoding|
        invariant n == multiset(encoding[i + 1..])[g]
        invariant answer >= -1 && (answer == -1 <==> g !in encoding[i + 1..])
        invariant answer >= 0 ==> i < answer < |encoding| && encoding[answer] == g && g !in encoding[i + 1..answer]
      {
        assert encoding[i..] == [encoding[i]] + encoding[i + 1..];
        if encoding[i] == g {
          answer, n := i, n + 1;
        }
        i := i - 1;
      }
      assert encoding[0..] == encoding;
      FirstIndexUnique(encoding, g, answer);
      if n < 2 {
        emap := CacheWrite(emap, g, answer);
      }
      r := answer;
    }

    /** `encoding(g)`: the cached code while its slot still holds `g`,
      * otherwise a scan. */
    method Encoding(g: int) returns (r: int)
      modifies this`emap
      ensures r == Lookup(encoding, old(emap), g)
      ensures emap == LookupCache(encoding, old(emap), g)
    {
      if g >= 0 && CacheHolds(encoding, emap, g) {
        r := emap[g];
      } else {
        r := HardEncoding(g);
      }
    }

    /** `assign_emap(g, code)`. */
    method AssignEmap(g: int, code: int)
      modifies this`emap
      ensures emap == CacheAssign(old(emap), g, code)
    {
      if g >= 0 {
        emap := CacheWrite(emap, g, code);
      }
    }

    /** `force_encoding(g)`: the code of `g`, appending `g` to the table when
      * it has none. */
    method ForceEncoding(g: int) returns (r: int)
      modifies this`encoding, this`emap
      ensures r == ForcedCode(old(encoding), old(emap), g)
      ensures encoding == ForcedTable(old(encoding), old(emap), g)
      ensures emap == ForcedEmap(old(encoding), old(emap), g)
    {
      var e := Encoding(g);
      if e >= 0 {
        return e;
      }
      encoding := encoding + [g];
      AssignEmap(g, |encoding| - 1);
      r := |encoding| - 1;
    }

    /** `encode(code, g)`: put `g` at `code`, growing the table with empty
      * codes when needed. */
    method Encode(code: int, g: int)
      requires code >= 0 && g >= 0
      modifies this`encoding, this`emap
      ensures |encoding| == if code < |old(encoding)| then |old(encoding)| else code + 1
      ensures encoding[code] == g
      ensures forall c :: 0 <= c < |encoding| && c != code ==> encoding[c] == if c < |old(encoding)| then old(encoding)[c] else 0
      ensures emap == CacheWrite(old(emap), g, code)
    {
      if code >= |encoding| {
        encoding := encoding + seq(code + 1 - |encoding|, _ => 0);
      }
      encoding := encoding[code := g];
      AssignEmap(g, code);
    }

    /** `add_single_context_substitution`: the two-code ligature, unless its
      * output equals the context code. */
    method AddSingleContextSubstitution(left: int, right: int, out: int, isRight: bool)
      modifies this`ligatures
      ensures ligatures == AddContext(old(ligatures), left, right, out, isRight)
    {
      if out != (if isRight then right else left) {
        ligatures := ligatures + [Ligature([left, right], out, true, if isRight then 1 else -1)];
      }
    }

    method AddTwoligature(code1: int, code2: int, outcode: int)
      modifies this`ligatures
      ensures ligatures == old(ligatures) + [Ligature([code1, code2], outcode, false, 0)]
      ensures old(Valid()) && CodeIn(code1, |encoding|) && CodeIn(code2, |encoding|) && CodeIn(outcode, |encoding|) ==> Valid()
    {
      ligatures := ligatures + [Ligature([code1, code2], outcode, false, 0)];
    }

    method AddKern(left: int, right: int, amount: int)
      modifies this`kerns
      ensures kerns == old(kerns) + [Kern(left, right, amount)]
      ensures old(Valid()) && CodeIn(left, |encoding|) && CodeIn(right, |encoding|) ==> Valid()
    {
      kerns := kerns + [Kern(left, right, amount)];
    }

    method AddSinglePositioning(code: int, pdx: int, pdy: int, adx: int)
      modifies this`vfpos
      ensures vfpos == old(vfpos) + [Vfpos(code, pdx, pdy, adx)]
      ensures old(Valid()) && CodeIn(code, |encoding|) ==> Valid()
    {
      vfpos := vfpos + [Vfpos(code, pdx, pdy, adx)];
    }

    /** A single or alternate rule of the substitution pass. */
    method ApplySingle(t: Tracker, inGlyph: int, outGlyph: int) returns (t': Tracker)
      requires TrackerOk(t, |t.changed|) && |t.changed| <= |encoding|
      modifies this`encoding, this`emap, this`ligatures
      ensures (Snapshot(), t') == SingleStep(old(Snapshot()), t, inGlyph, outGlyph)
    {
      var n := |t.changed|;
      var e := Encoding(inGlyph);
      if e < 0 || e >= n {
        return t;
      }
      if t.changed[e] == ChNo {
        // no rule has rewritten this code yet: rewrite it everywhere
        AssignEmap(inGlyph, -2);
        AssignEmap(outGlyph, e);
        encoding := encoding[e := outGlyph];
        t' := t.(changed := t.changed[e := ChAll]);
        assert Snapshot() == SingleStep(old(Snapshot()), t, inGlyph, outGlyph).0;
      } else if t.changed[e] == ChSome {
        // context rules rewrote it before some codes: cover the others
        var out := ForceEncoding(outGlyph);
        AddRemainingContexts(e, out, t.context[e], n);
        t' := t.(changed := t.changed[e := ChAll]);
        assert Snapshot() == SingleStep(old(Snapshot()), t, inGlyph, outGlyph).0;
      } else {
        t' := t;
      }
    }

    /** The loop of a single rule on a code some context rules rewrote: a
      * right-context ligature [e, j] -> out for every encoded code j below
      * `n` not in `covered`. */
    method AddRemainingContexts(e: int, out: int, covered: set<int>, n: int)
      requires 0 <= n <= |encoding|
      modifies this`ligatures
      ensures ligatures == old(ligatures) + ContextFill(encoding, e, out, covered, 0, n)
    {
      var j := 0;
      while j < n
        invariant 0 <= j <= n
        invariant old(ligatures) + ContextFill(encoding, e, out, covered, 0, n) == ligatures + ContextFill(encoding, e, out, covered, j, n)
      {
        if encoding[j] > 0 && j !in covered {
          AddSingleContextSubstitution(e, j, out, true);
        }
        j := j + 1;
      }
    }

    /** The input loop of a ligature rule: look each input glyph up, and
      * stop at the first that is unencoded, appended during this pass, or
      * rewritten everywhere. */
    method LigatureInputs(t: Tracker, gs: seq<int>) returns (codes: seq<int>, ok: bool)
      requires TrackerOk(t, |t.changed|)
      modifies this`emap
      ensures Codes(codes, emap, ok) == LigatureCodes(encoding, old(emap), t, gs)
    {
      var n := |t.changed|;
      codes, ok := [], true;
      var k := 0;
      ghost var enc, emap0 := encoding, emap;
      LigatureCodesStart(enc, emap0, t, gs);
      while k < |gs|
        invariant encoding == enc && InputsLookedUp(enc, emap0, emap, t, gs, k, codes)
      {
        ghost var before := emap;
        var e := Encoding(gs[k]);
        if e < 0 || e >= n || t.changed[e] == ChAll {
          LigatureCodesStop(enc, emap0, before, t, gs, k, codes);
          ok := false;
          break;
        }
        LigatureCodesStep(enc, emap0, before, emap, t, gs, k, codes, e);
        codes := codes + [e];
        k := k + 1;
      }
      if ok {
        LigatureCodesDone(enc, emap0, emap, t, gs, codes);
      }
    }

    /** A ligature rule of the substitution pass. */
    method ApplyLigature(t: Tracker, gs: seq<int>, outGlyph: int)
      requires TrackerOk(t, |t.changed|) && |t.changed| <= |encoding|
      modifies this`encoding, this`emap, this`ligatures
      ensures Snapshot() == LigatureStep(old(Snapshot()), t, gs, outGlyph)
    {
      var codes, ok := LigatureInputs(t, gs);
      if ok {
        var out := ForceEncoding(outGlyph);
        ligatures := ligatures + [Ligature(codes, out, true, 0)];
      }
    }

    /** A right- or left-context rule of the substitution pass: `first` is
      * the rewritten glyph and `second` its right context, or `first` the
      * left context and `second` the rewritten glyph. */
    method ApplyContext(t: Tracker, first: int, second: int, outGlyph: int, isRight: bool) returns (t': Tracker)
      requires TrackerOk(t, |t.changed|) && |t.changed| <= |encoding|
      modifies this`encoding, this`emap, this`ligatures
      ensures (Snapshot(), t') == ContextStep(old(Snapshot()), t, first, second, outGlyph, isRight)
    {
      var n := |t.changed|;
      var a := Encoding(first);
      var b := Encoding(second);
      if 0 <= a < n && 0 <= b < n && !InChangedContext(t, a, b) {
        var out := ForceEncoding(outGlyph);
        AddSingleContextSubstitution(a, b, out, isRight);
        t' := AssignChangedContext(t, a, b);
      } else {
        t' := t;
      }
    }

    /** One iteration of the substitution pass; `counted` says whether the
      * rule is of a kind the pass counts. */
    method ApplyRule(t: Tracker, s: Substitution, allowSingle: bool) returns (t': Tracker, counted: bool)
      requires TrackerOk(t, |t.changed|) && |t.changed| <= |encoding|
      modifies this`encoding, this`emap, this`ligatures
      ensures (Snapshot(), t') == Step(old(Snapshot()), t, s, allowSingle)
      ensures counted == Handled(s, allowSingle)
    {
      t', counted := t, false;
      match s {
        case Single(g, o) =>
          if allowSingle {
            t' := ApplySingle(t, g, o);
            counted := true;
          }
        case Alternate(g, o) =>
          if allowSingle {
            t' := ApplySingle(t, g, o);
            counted := true;
          }
        case LigatureRule(gs, o) =>
          ApplyLigature(t, gs, o);
          counted := true;
        case RightContext(g, rg, o) =>
          t' := ApplyContext(t, g, rg, o, true);
          counted := true;
        case LeftContext(lg, g, o) =>
          t' := ApplyContext(t, lg, g, o, false);
          counted := true;
        case OtherSubstitution =>
      }
    }

    /** `apply(Vector<Substitution>, allow_single)`: every rule in turn,
      * against a tracker sized to the table as the pass began.  The result
      * counts the rules of a handled kind; the pass leaves no dangling code
      * when every ligature rule names an input. */
    method ApplySubstitutions(sv: seq<Substitution>, allowSingle: bool) returns (success: int)
      modifies this`encoding, this`emap, this`ligatures
      ensures success == CountHandled(sv, allowSingle)
      ensures Snapshot() == ApplyAll(old(Snapshot()), NewTracker(|old(encoding)|), sv, allowSingle).0
      ensures old(Valid()) && RulesHaveInputs(sv) ==> Valid()
    {
      ghost var st0, t0 := Snapshot(), NewTracker(|encoding|);
      var t := NewTracker(|encoding|);
      success := 0;
      var i := 0;
      while i < |sv|
        invariant 0 <= i <= |sv|
        invariant (Snapshot(), t) == ApplyAll(st0, t0, sv[..i], allowSingle)
        invariant success == CountHandled(sv[..i], allowSingle)
      {
        ApplyAllNext(st0, t0, sv, i, allowSingle);
        var counted;
        t, counted := ApplyRule(t, sv[i], allowSingle);
        if counted {
          success := success + 1;
        }
        i := i + 1;
      }
      assert sv[..|sv|] == sv;
      if old(Valid()) && RulesHaveInputs(sv) {
        PassKeepsValid(st0, t0, sv, allowSingle, fakeLigatures, kerns, vfpos);
      }
    }

    /** A pair kern rule of the positioning pass. */
    method ApplyPairKern(pairSeen: seq<set<int>>, singleSeen: set<int>, lg: int, rg: int, adx: int) returns (seen: seq<set<int>>)
      requires |pairSeen| == |encoding|
      modifies this`emap, this`kerns
      ensures PosState(emap, kerns, vfpos, seen, singleSeen) ==
        PosStep(encoding, PosState(old(emap), old(kerns), vfpos, pairSeen, singleSeen), PairKern(lg, rg, adx))
      ensures old(Valid()) ==> Valid()
    {
      var code1 := Encoding(lg);
      var code2 := Encoding(rg);
      seen := pairSeen;
      if code1 >= 0 && code2 >= 0 {
        var b := AssignBitvec(pairSeen[code1], code2, |encoding|);
        seen := pairSeen[code1 := b.1];
        if !b.0 {
          AddKern(code1, code2, adx);
        }
      }
    }

    /** A single positioning rule of the positioning pass. */
    method ApplySinglePos(pairSeen: seq<set<int>>, singleSeen: set<int>, g: int, pdx: int, pdy: int, adx: int) returns (seen: set<int>)
      requires |pairSeen| == |encoding|
      modifies this`emap, this`vfpos
      ensures PosState(emap, kerns, vfpos, pairSeen, seen) ==
        PosStep(encoding, PosState(old(emap), kerns, old(vfpos), pairSeen, singleSeen), SinglePos(g, pdx, pdy, adx))
      ensures old(Valid()) ==> Valid()
    {
      var code := Encoding(g);
      seen := singleSeen;
      if code >= 0 {
        var b := AssignBitvec(singleSeen, code, |encoding|);
        seen := b.1;
        if !b.0 {
          AddSinglePositioning(code, pdx, pdy, adx);
        }
      }
    }

    /** `apply(Vector<Positioning>)`: every rule in turn; a kern or a
      * positioning is added only for the first rule to reach its code pair
      * or code. */
    method ApplyPositionings(pv: seq<Positioning>) returns (success: int)
      modifies this`emap, this`kerns, this`vfpos
      ensures success == CountPositionings(pv)
      ensures var r := ApplyPos(encoding, StartState(encoding, old(emap), old(kerns), old(vfpos)), pv);
        emap == r.emap && kerns == r.kerns && vfpos == r.vfpos
      ensures old(Valid()) ==> Valid()
    {
      var pairSeen: seq<set<int>> := seq(|encoding|, _ => {});
      var singleSeen: set<int> := {};
      ghost var enc, st0 := encoding, StartState(encoding, emap, kerns, vfpos);
      success := 0;
      var i := 0;
      while i < |pv|
        invariant 0 <= i <= |pv| && encoding == enc && |pairSeen| == |enc|
        invariant PosState(emap, kerns, vfpos, pairSeen, singleSeen) == ApplyPos(enc, st0, pv[..i])
        invariant success == CountPositionings(pv[..i])
        invariant old(Valid()) ==> Valid()
      {
        ApplyPosNext(enc, st0, pv, i);
        var counted;
        pairSeen, singleSeen, counted := ApplyPosRule(pairSeen, singleSeen, pv[i]);
        if counted {
          success := success + 1;
        }
        i := i + 1;
      }
      assert pv[..|pv|] == pv;
    }

    /** One rule of the positioning pass; `counted` says whether the pass
      * counts it as handled. */
    method ApplyPosRule(pairSeen: seq<set<int>>, singleSeen: set<int>, p: Positioning)
      returns (pairSeen': seq<set<int>>, singleSeen': set<int>, counted: bool)
      requires |pairSeen| == |encoding|
      modifies this`emap, this`kerns, this`vfpos
      ensures |pairSeen'| == |encoding|
      ensures PosState(emap, kerns, vfpos, pairSeen', singleSeen') ==
        PosStep(encoding, PosState(old(emap), old(kerns), old(vfpos), pairSeen, singleSeen), p)
      ensures counted == !p.OtherPositioning?
      ensures old(Valid()) ==> Valid()
    {
      pairSeen', singleSeen', counted := pairSeen, singleSeen, true;
      match p {
        case PairKern(lg, rg, adx) =>
          pairSeen' := ApplyPairKern(pairSeen, singleSeen, lg, rg, adx);
        case SinglePos(g, pdx, pdy, adx) =>
          singleSeen' := ApplySinglePos(pairSeen, singleSeen, g, pdx, pdy, adx);
        case OtherPositioning =>
          counted := false;
      }
    }

    /** `twoligatures(code1, …)`: the second input, output and context of
      * every two-input ligature starting with `code1` whose other codes
      * are live. */
    method Twoligatures(code1: int) returns (n: int, code2: seq<int>, outcode: seq<int>, context: seq<int>)
      ensures var ts := TwoligaturesOf(ligatures, code1);
        n == |ts| && |code2| == n && |outcode| == n && |context| == n &&
        forall i :: 0 <= i < n ==> code2[i] == ts[i].ins[1] && outcode[i] == ts[i].out && context[i] == ts[i].context
    {
      n, code2, outcode, context := 0, [], [], [];
      ghost var ls := ligatures;
      var i := 0;
      while i < |ligatures|
        invariant 0 <= i <= |ls| && ligatures == ls
        invariant ListsTwoligatures(TwoligaturesOf(ls[..i], code1), code2, outcode, context) && n == |code2|
      {
        ghost var ts := TwoligaturesOf(ls[..i], code1);
        var l := ligatures[i];
        TwoligaturesSnoc(ls[..i], l, code1);
        assert ls[..i + 1] == ls[..i] + [l];
        if IsTwoligatureOf(l, code1) {
          ListsTwoligaturesSnoc(ts, code2, outcode, context, l);
          code2 := code2 + [l.ins[1]];
          outcode := outcode + [l.out];
          context := context + [l.context];
          n := n + 1;
        }
        i := i + 1;
      }
      assert ls[..i] == ls;
    }

    /** `kerns(code1, …)`: the right code and amount of every kern from
      * `code1` whose right code is live. */
    method KernsOf(code1: int) returns (n: int, code2: seq<int>, amount: seq<int>)
      ensures var ks := KernsFrom(kerns, code1);
        n == |ks| && |code2| == n && |amount| == n &&
        forall i :: 0 <= i < n ==> code2[i] == ks[i].right && amount[i] == ks[i].amount
    {
      n, code2, amount := 0, [], [];
      ghost var s := kerns;
      var i := 0;
      while i < |kerns|
        invariant 0 <= i <= |s| && kerns == s
        invariant ListsKerns(KernsFrom(s[..i], code1), code2, amount) && n == |code2|
      {
        ghost var ks := KernsFrom(s[..i], code1);
        var k := kerns[i];
        KernsFromSnoc(s[..i], k, code1);
        assert s[..i + 1] == s[..i] + [k];
        if IsKernOf(k, code1) {
          ListsKernsSnoc(ks, code2, amount, k);
          code2 := code2 + [k.right];
          amount := amount + [k.amount];
          n := n + 1;
        }
        i := i + 1;
      }
      assert s[..i] == s;
    }

    /** `kern(code1, code2)`: the amount of the first kern for the pair, or 0. */
    method KernBetween(code1: int, code2: int) returns (amount: int)
      ensures amount == FirstKernAmount(kerns, code1, code2)
    {
      var i := 0;
      while i < |kerns|
        invariant 0 <= i <= |kerns|
        invariant forall k :: 0 <= k < i ==> KernKey(kerns[k]) != (code1, code2)
      {
        if kerns[i].left == code1 && kerns[i].right == code2 {
          return kerns[i].amount;
        }
        i := i + 1;
      }
      return 0;
    }

    /** `remove_ligatures(code1, code2)`: remove every two-input ligature
      * for the pair; CODE_ALL matches any code. */
    method RemoveLigatures(code1: int, code2: int)
      modifies this`ligatures
      ensures ligatures == RemovedLigatures(old(ligatures), code1, code2, CODE_ALL)
      ensures old(Valid()) ==> Valid()
    {
      var i := 0;
      while i < |ligatures|
        invariant 0 <= i <= |ligatures| == |old(ligatures)|
        invariant forall k :: 0 <= k < i ==> ligatures[k] == RemovedLigatures(old(ligatures), code1, code2, CODE_ALL)[k]
        invariant forall k :: i <= k < |ligatures| ==> ligatures[k] == old(ligatures)[k]
      {
        var l := ligatures[i];
        if |l.ins| == 2 && (code1 == CODE_ALL || l.ins[0] == code1) && (code2 == CODE_ALL || l.ins[1] == code2) {
          ligatures := ligatures[i := l.(ins := l.ins[0 := -1])];
        }
        i := i + 1;
      }
      if old(Valid()) {
        RemovedLigaturesValid(old(ligatures), code1, code2, CODE_ALL, |encoding|);
      }
    }

    /** `remove_kerns(code1, code2)`: remove every kern for the pair;
      * CODE_ALL matches any code. */
    method RemoveKerns(code1: int, code2: int)
      modifies this`kerns
      ensures kerns == RemovedKerns(old(kerns), code1, code2, CODE_ALL)
      ensures old(Valid()) ==> Valid()
    {
      var i := 0;
      while i < |kerns|
        invariant 0 <= i <= |kerns| == |old(kerns)|
        invariant forall k :: 0 <= k < i ==> kerns[k] == RemovedKerns(old(kerns), code1, code2, CODE_ALL)[k]
        invariant forall k :: i <= k < |kerns| ==> kerns[k] == old(kerns)[k]
      {
        if (code1 == CODE_ALL || kerns[i].left == code1) && (code2 == CODE_ALL || kerns[i].right == code2) {
          kerns := kerns[i := kerns[i].(left := -1)];
        }
        i := i + 1;
      }
      if old(Valid()) {
        RemovedKernsValid(old(kerns), code1, code2, CODE_ALL, |encoding|);
      }
    }

    /** `reencode_right_ligkern(oldCode, newCode)`: every ligature input
      * after the first and every kern's right code equal to `oldCode`
      * becomes `newCode`. */
    method ReencodeRightLigkern(oldCode: int, newCode: int)
      modifies this`ligatures, this`kerns
      ensures ligatures == ReencodedLigatures(old(ligatures), oldCode, newCode)
      ensures kerns == ReencodedKerns(old(kerns), oldCode, newCode)
      ensures old(Valid()) && CodeIn(newCode, |encoding|) ==> Valid()
    {
      var i := 0;
      while i < |ligatures|
        invariant 0 <= i <= |ligatures| == |old(ligatures)|
        invariant forall k :: 0 <= k < i ==> ligatures[k] == ReencodeRight(old(ligatures)[k], oldCode, newCode)
        invariant forall k :: i <= k < |ligatures| ==> ligatures[k] == old(ligatures)[k]
        invariant kerns == old(kerns)
      {
        var l := ligatures[i];
        var ins := l.ins;
        var j := 1;
        while j < |ins|
          invariant 1 <= j && (j <= |ins| || j == 1) && |ins| == |l.ins|
          invariant forall m :: 0 <= m < |ins| ==> ins[m] == if 1 <= m < j && l.ins[m] == oldCode then newCode else l.ins[m]
        {
          if ins[j] == oldCode {
            ins := ins[j := newCode];
          }
          j := j + 1;
        }
        assert l.(ins := ins) == ReencodeRight(l, oldCode, newCode);
        ligatures := ligatures[i := l.(ins := ins)];
        i := i + 1;
      }
      assert ligatures == ReencodedLigatures(old(ligatures), oldCode, newCode);
      i := 0;
      while i < |kerns|
        invariant 0 <= i <= |kerns| == |old(kerns)|
        invariant ligatures == ReencodedLigatures(old(ligatures), oldCode, newCode)
        invariant forall k :: 0 <= k < i ==> kerns[k] == ReencodedKerns(old(kerns), oldCode, newCode)[k]
        invariant forall k :: i <= k < |kerns| ==> kerns[k] == old(kerns)[k]
      {
        if kerns[i].right == oldCode {
          kerns := kerns[i := kerns[i].(right := newCode)];
        }
        i := i + 1;
      }
      ReencodedRight(old(ligatures), old(kerns), oldCode, newCode, |encoding|);
    }

    /** The tables `simplify_ligatures` reads and extends. */
    ghost function LigTables(): LigState
      reads this
    {
      LigState(encoding, fakeLigatures, ligatures)
    }

    /** `find_skippable_twoligature(a, b, addFake)`: the output of the first
      * plain, non-skippable ligature [a, b]; failing that, with `addFake`,
      * a new code holding FAKE_LIGATURE with a fake ligature [a, b] to it;
      * otherwise -1. */
    method FindSkippableTwoligature(a: int, b: int, addFake: bool) returns (r: int)
      modifies this`encoding, this`fakeLigatures
      ensures (LigTables(), r) == FindOrFake(old(LigTables()), a, b, addFake)
      ensures var k := FirstSkippable(ligatures, a, b);
        (k >= 0 ==> r == ligatures[k].out && encoding == old(encoding) && fakeLigatures == old(fakeLigatures)) &&
        (k < 0 && !addFake ==> r == -1 && encoding == old(encoding) && fakeLigatures == old(fakeLigatures)) &&
        (k < 0 && addFake ==>
          r == |old(encoding)| && encoding == old(encoding) + [FAKE_LIGATURE] &&
          fakeLigatures == old(fakeLigatures) + [Ligature([a, b], r, false, 0)])
    {
      var i := 0;
      while i < |ligatures|
        invariant 0 <= i <= |ligatures|
        invariant forall k :: 0 <= k < i ==> !SkippablePair(ligatures[k], a, b)
      {
        var l := ligatures[i];
        if |l.ins| == 2 && l.ins[0] == a && l.ins[1] == b && !l.skip && l.context == 0 {
          assert SkippablePair(l, a, b);
          return l.out;
        }
        i := i + 1;
      }
      if addFake {
        encoding := encoding + [FAKE_LIGATURE];
        var fake := Ligature([a, b], |encoding| - 1, false, 0);
        fakeLigatures := fakeLigatures + [fake];
        return fake.out;
      }
      return -1;
    }

    /** The marking pass of `simplify_ligatures`. */
    method MarkSkippable()
      requires HaveInputs(ligatures)
      modifies this`ligatures
      ensures ligatures == MarkedSkippable(old(ligatures))
    {
      var i := 0;
      while i < |ligatures|
        invariant 0 <= i <= |ligatures| == |old(ligatures)|
        invariant forall k :: 0 <= k < |ligatures| ==> ligatures[k].ins == old(ligatures)[k].ins
        invariant forall k :: 0 <= k < i ==> ligatures[k] == MarkedSkippable(old(ligatures))[k]
        invariant forall k :: i <= k < |ligatures| ==> ligatures[k] == old(ligatures)[k]
      {
        var c := ligatures[i].out;
        var j := 0;
        while j < |ligatures|
          invariant 0 <= j <= |ligatures|
          invariant forall m :: 0 <= m < j ==> ligatures[m].ins[0] != c
        {
          if ligatures[j].ins[0] == c {
            break;
          }
          j := j + 1;
        }
        if j == |ligatures| {
          ligatures := ligatures[i := ligatures[i].(skip := false)];
        }
        i := i + 1;
      }
    }

    /** The shortening loop on ligature i. */
    method ShortenOne(i: nat, addFake: bool)
      requires i < |ligatures|
      modifies this`encoding, this`fakeLigatures, this`ligatures
      ensures LigTables() == Shorten(old(LigTables()), i, addFake)
    {
      while |ligatures[i].ins| > 2
        invariant i < |ligatures|
        invariant Shorten(LigTables(), i, addFake) == Shorten(old(LigTables()), i, addFake)
        decreases |ligatures[i].ins|
      {
        var l := ligatures[i];
        var l2 := FindSkippableTwoligature(l.ins[0], l.ins[1], addFake);
        ligatures := ligatures[i := l.(ins := [l2] + l.ins[2..])];
      }
    }

    /** The shortening pass of `simplify_ligatures`. */
    method ShortenLigatures(addFake: bool)
      modifies this`encoding, this`fakeLigatures, this`ligatures
      ensures LigTables() == ShortenFrom(old(LigTables()), 0, addFake)
    {
      var i := 0;
      while i < |ligatures|
        invariant 0 <= i <= |ligatures|
        invariant ShortenFrom(LigTables(), i, addFake) == ShortenFrom(old(LigTables()), 0, addFake)
      {
        ShortenOne(i, addFake);
        i := i + 1;
      }
    }

    /** Outer turn i of the redundancy pass, for a live ligature i. */
    method RemoveCovered(i: nat)
      requires HaveInputs(ligatures) && i < |ligatures| && ligatures[i].ins[0] >= 0
      modifies this`ligatures
      ensures ligatures == SieveStep(old(ligatures), i)
    {
      var l := ligatures[i];
      var j := i + 1;
      while j < |ligatures|
        invariant i < j <= |ligatures| == |old(ligatures)|
        invariant forall k :: 0 <= k < |ligatures| ==>
          ligatures[k] == if i < k < j && Covers(l, old(ligatures)[k]) then Kill(old(ligatures)[k]) else old(ligatures)[k]
      {
        var ll := ligatures[j];
        if |ll.ins| >= |l.ins| && ll.ins[..|l.ins|] == l.ins {
          ligatures := ligatures[j := ll.(ins := ll.ins[0 := -1])];
        }
        j := j + 1;
      }
    }

    /** The redundancy pass of `simplify_ligatures`. */
    method RemoveRedundantLigatures()
      requires HaveInputs(ligatures)
      modifies this`ligatures
      ensures ligatures == Sieve(old(ligatures), 0)
    {
      var i := 0;
      while i < |ligatures|
        invariant 0 <= i <= |ligatures| == |old(ligatures)|
        invariant HaveInputs(ligatures)
        invariant Sieve(ligatures, i) == Sieve(old(ligatures), 0)
      {
        if ligatures[i].ins[0] >= 0 {
          RemoveCovered(i);
        }
        i := i + 1;
      }
    }

    /** The null pass of `simplify_ligatures`. */
    method RemoveNullLigatures()
      requires HaveInputs(ligatures)
      modifies this`ligatures
      ensures ligatures == NullRemoved(old(ligatures))
    {
      var i := 0;
      while i < |ligatures|
        invariant 0 <= i <= |ligatures| == |old(ligatures)|
        invariant forall k :: 0 <= k < i ==> ligatures[k] == NullRemoved(old(ligatures))[k]
        invariant forall k :: i <= k < |ligatures| ==> ligatures[k] == old(ligatures)[k]
      {
        var l := ligatures[i];
        if l.ins[0] >= 0 && l.context >= 0 && |l.ins| == l.context + 1 && l.ins[0] == l.out {
          ligatures := ligatures[i := l.(ins := l.ins[0 := -1])];
        }
        i := i + 1;
      }
    }

    /** `simplify_ligatures(addFake)`: the four passes in turn.  With valid
      * tables, every ligature is left with at most two inputs. */
    method SimplifyLigatures(addFake: bool)
      requires HaveInputs(ligatures)
      modifies this`encoding, this`fakeLigatures, this`ligatures
      ensures LigTables() == SimplifiedLigatures(old(LigTables()), addFake)
      ensures old(Valid()) ==> Valid() && forall i :: 0 <= i < |ligatures| ==> |ligatures[i].ins| <= 2
    {
      ghost var st0 := LigTables();
      MarkSkippable();
      ShortenLigatures(addFake);
      RemoveRedundantLigatures();
      RemoveNullLigatures();
      if old(Valid()) {
        SimplifiedLigaturesSound(st0, addFake);
        NoDanglingGrow([], [], kerns, vfpos, |st0.enc|, |encoding|);
      }
    }

    /** One turn of the kern merge loop at i: the amounts of the run of kerns
      * with the pair of kerns[i] are added into kerns[i], and the rest of
      * the run is removed. */
    method MergeKernRun(i: nat) returns (delta: nat)
      requires i < |kerns|
      modifies this`kerns
      ensures delta == KernRunEnd(old(kerns)[i..], 1) && i + delta <= |kerns|
      ensures kerns == KernRunMerged(old(kerns), i, delta)
    {
      delta := 1;
      while i + delta < |kerns|
        invariant 1 <= delta <= |old(kerns)| - i
        invariant forall k :: 1 <= k < delta ==> KernKey(old(kerns)[i..][k]) == KernKey(old(kerns)[i..][0])
        invariant kerns == KernRunMerged(old(kerns), i, delta)
      {
        KernRunNext(old(kerns), i, delta);
        var k1, k2 := kerns[i], kerns[i + delta];
        if k1.left != k2.left || k1.right != k2.right {
          break;
        }
        kerns := kerns[i := k1.(amount := k1.amount + k2.amount)][i + delta := k2.(left := -1)];
        delta := delta + 1;
      }
      KernRunEndFrom(old(kerns)[i..], 1, delta);
    }

    /** The same turn, seen from the outer loop: the table is merged up to
      * the end of the run. */
    method MergeKernTurn(i: nat, ghost s0: seq<Kern>) returns (next: nat)
      requires i < |kerns| && KernsMergedTo(s0, kerns, i)
      modifies this`kerns
      ensures i < next <= |kerns| && KernsMergedTo(s0, kerns, next)
    {
      var delta := MergeKernRun(i);
      next := i + delta;
      MergeKernsTurn(s0, old(kerns), kerns, i, delta, next);
    }

    /** The kern merge loop of `simplify_positionings`. */
    method MergeKernTable()
      modifies this`kerns
      ensures kerns == MergeKerns(old(kerns))
    {
      var i := 0;
      while i + 1 < |kerns|
        invariant 0 <= i && KernsMergedTo(old(kerns), kerns, i)
      {
        i := MergeKernTurn(i, old(kerns));
      }
      MergeKernsDone(old(kerns), kerns, i);
    }

    /** One turn of the positioning merge loop at i. */
    method MergeVfposRun(i: nat) returns (delta: nat)
      requires i < |vfpos|
      modifies this`vfpos
      ensures delta == VfposRunEnd(old(vfpos)[i..], 1) && i + delta <= |vfpos|
      ensures vfpos == VfposRunMerged(old(vfpos), i, delta)
    {
      delta := 1;
      while i + delta < |vfpos|
        invariant 1 <= delta <= |old(vfpos)| - i
        invariant forall k :: 1 <= k < delta ==> old(vfpos)[i..][k].code == old(vfpos)[i..][0].code
        invariant vfpos == VfposRunMerged(old(vfpos), i, delta)
      {
        VfposRunNext(old(vfpos), i, delta);
        var p1, p2 := vfpos[i], vfpos[i + delta];
        if p1.code != p2.code {
          break;
        }
        vfpos := vfpos[i := p1.(pdx := p1.pdx + p2.pdx, pdy := p1.pdy + p2.pdy, adx := p1.adx + p2.adx)][i + delta := p2.(code := -1)];
        delta := delta + 1;
      }
      VfposRunEndFrom(old(vfpos)[i..], 1, delta);
    }

    /** The same turn, seen from the outer loop. */
    method MergeVfposTurn(i: nat, ghost s0: seq<Vfpos>) returns (next: nat)
      requires i < |vfpos| && VfposMergedTo(s0, vfpos, i)
      modifies this`vfpos
      ensures i < next <= |vfpos| && VfposMergedTo(s0, vfpos, next)
    {
      var delta := MergeVfposRun(i);
      next := i + delta;
      Merge.MergeVfposTurn(s0, old(vfpos), vfpos, i, delta, next);
    }

    /** The positioning merge loop of `simplify_positionings`. */
    method MergeVfposTable()
      modifies this`vfpos
      ensures vfpos == MergeVfpos(old(vfpos))
    {
      var i := 0;
      while i + 1 < |vfpos|
        invariant 0 <= i && VfposMergedTo(old(vfpos), vfpos, i)
      {
        i := MergeVfposTurn(i, old(vfpos));
      }
      MergeVfposDone(old(vfpos), vfpos, i);
    }

    /** `simplify_positionings`: sort the kerns by pair and merge each run
      * into its first entry, then the same for positionings by code.
      * Afterwards `kern` answers, for every live pair, the total of all
      * the kerns the table held for it. */
    method SimplifyPositionings()
      modifies this`kerns, this`vfpos
      ensures kerns == MergeKerns(SortBy(old(kerns), KernKey))
      ensures vfpos == MergeVfpos(SortBy(old(vfpos), VfposKey))
      ensures forall c1, c2 :: c1 >= 0 ==> FirstKernAmount(kerns, c1, c2) == SumBy(old(kerns), KernWeight((c1, c2)))
      ensures old(Valid()) ==> Valid()
    {
      ghost var ks0, vs0 := kerns, vfpos;
      KernsAfterSimplify(ks0);
      if Valid() {
        SimplifiedTablesIn(ligatures, fakeLigatures, ks0, vs0, |encoding|);
      }
      SimplifyKernTable();
      SimplifyVfposTable();
    }

    /** The kern half of `simplify_positionings`: sort, then merge runs. */
    method SimplifyKernTable()
      modifies this`kerns
      ensures kerns == MergeKerns(SortBy(old(kerns), KernKey))
    {
      if |kerns| > 0 {
        kerns := SortBy(kerns, KernKey);
        MergeKernTable();
      } else {
        assert SortBy(kerns, KernKey) == [];
      }
    }

    /** The positioning half of `simplify_positionings`. */
    method SimplifyVfposTable()
      modifies this`vfpos
      ensures vfpos == MergeVfpos(SortBy(old(vfpos), VfposKey))
    {
      if |vfpos| > 0 {
        vfpos := SortBy(vfpos, VfposKey);
        MergeVfposTable();
      } else {
        assert SortBy(vfpos, VfposKey) == [];
      }
    }

    /** `reassign_ligature(l, reassignment)`: every input code and the
      * output code of `l` replaced by its entry in the reassignment. */
    method ReassignLigature(l: Ligature, r: seq<int>) returns (l': Ligature)
      requires LigatureIn(l, |r| - 1)
      ensures l' == RemapLigature(l, r)
    {
      var ins := l.ins;
      var j := 0;
      while j < |ins|
        invariant 0 <= j <= |ins| == |l.ins|
        invariant forall m :: 0 <= m < |ins| ==> ins[m] == if m < j then r[l.ins[m] + 1] else l.ins[m]
      {
        ins := ins[j := r[ins[j] + 1]];
        j := j + 1;
      }
      l' := l.(ins := ins, out := r[l.out + 1]);
    }

    /** `reassign_codes(reassignment)`: every code in the ligatures, fake
      * ligatures, kerns and positionings replaced by its entry, and the
      * glyph-to-code cache dropped. */
    method ReassignCodes(r: seq<int>)
      requires NoDangling(ligatures, fakeLigatures, kerns, vfpos, |r| - 1)
      modifies this`ligatures, this`fakeLigatures, this`kerns, this`vfpos, this`emap
      ensures ligatures == RemapLigatures(old(ligatures), r)
      ensures fakeLigatures == RemapLigatures(old(fakeLigatures), r)
      ensures kerns == RemapKerns(old(kerns), r)
      ensures vfpos == RemapVfpos(old(vfpos), r)
      ensures emap == []
    {
      ReassignLigatureTable(r);
      ReassignFakeTable(r);
      ReassignKernTable(r);
      ReassignVfposTable(r);
      emap := [];
    }

    /** The ligature loop of `reassign_codes`. */
    method ReassignLigatureTable(r: seq<int>)
      requires LigaturesIn(ligatures, |r| - 1)
      modifies this`ligatures
      ensures ligatures == RemapLigatures(old(ligatures), r)
    {
      ghost var ls := ligatures;
      var i := 0;
      while i < |ligatures|
        invariant 0 <= i <= |ligatures| == |ls| && LigaturesIn(ls, |r| - 1)
        invariant forall k :: 0 <= k < i ==> ligatures[k] == RemapLigature(ls[k], r)
        invariant forall k :: i <= k < |ligatures| ==> ligatures[k] == ls[k]
      {
        assert LigatureIn(ls[i], |r| - 1);
        var l := ReassignLigature(ligatures[i], r);
        ligatures := ligatures[i := l];
        i := i + 1;
      }
    }

    /** The fake-ligature loop of `reassign_codes`. */
    method ReassignFakeTable(r: seq<int>)
      requires LigaturesIn(fakeLigatures, |r| - 1)
      modifies this`fakeLigatures
      ensures fakeLigatures == RemapLigatures(old(fakeLigatures), r)
    {
      ghost var fs := fakeLigatures;
      var i := 0;
      while i < |fakeLigatures|
        invariant 0 <= i <= |fakeLigatures| == |fs| && LigaturesIn(fs, |r| - 1)
        invariant forall k :: 0 <= k < i ==> fakeLigatures[k] == RemapLigature(fs[k], r)
        invariant forall k :: i <= k < |fakeLigatures| ==> fakeLigatures[k] == fs[k]
      {
        assert LigatureIn(fs[i], |r| - 1);
        var l := ReassignLigature(fakeLigatures[i], r);
        fakeLigatures := fakeLigatures[i := l];
        i := i + 1;
      }
    }

    /** The kern loop of `reassign_codes`. */
    method ReassignKernTable(r: seq<int>)
      requires KernsIn(kerns, |r| - 1)
      modifies this`kerns
      ensures kerns == RemapKerns(old(kerns), r)
    {
      ghost var ks := kerns;
      var i := 0;
      while i < |kerns|
        invariant 0 <= i <= |kerns| == |ks| && KernsIn(ks, |r| - 1)
        invariant forall k :: 0 <= k < i ==> kerns[k] == RemapKerns(ks, r)[k]
        invariant forall k :: i <= k < |kerns| ==> kerns[k] == ks[k]
      {
        kerns := kerns[i := kerns[i].(left := r[kerns[i].left + 1], right := r[kerns[i].right + 1])];
        i := i + 1;
      }
    }

    /** The positioning loop of `reassign_codes`. */
    method ReassignVfposTable(r: seq<int>)
      requires VfposIn(vfpos, |r| - 1)
      modifies this`vfpos
      ensures vfpos == RemapVfpos(old(vfpos), r)
    {
      ghost var vs := vfpos;
      var i := 0;
      while i < |vfpos|
        invariant 0 <= i <= |vfpos| == |vs| && VfposIn(vs, |r| - 1)
        invariant forall k :: 0 <= k < i ==> vfpos[k] == RemapVfpos(vs, r)[k]
        invariant forall k :: i <= k < |vfpos| ==> vfpos[k] == vs[k]
      {
        vfpos := vfpos[i := vfpos[i].(code := r[vfpos[i].code + 1])];
        i := i + 1;
      }
    }

    /** `cut_encoding(size)`: a table no larger than `size` is padded with
      * empty codes; a larger one loses its codes from `size` on, and every
      * reference to them becomes -1. */
    method CutEncoding(size: int)
      requires 0 <= size && Valid()
      modifies this`encoding, this`emap, this`ligatures, this`fakeLigatures, this`kerns, this`vfpos
      ensures |encoding| == size && Valid()
      ensures |old(encoding)| <= size ==>
        encoding == old(encoding) + seq(size - |old(encoding)|, _ => 0) && emap == old(emap) &&
        ligatures == old(ligatures) && fakeLigatures == old(fakeLigatures) && kerns == old(kerns) && vfpos == old(vfpos)
      ensures |old(encoding)| > size ==>
        encoding == old(encoding)[..size] && emap == [] &&
        ligatures == RemapLigatures(old(ligatures), CutMap(|old(encoding)|, size)) &&
        fakeLigatures == RemapLigatures(old(fakeLigatures), CutMap(|old(encoding)|, size)) &&
        kerns == RemapKerns(old(kerns), CutMap(|old(encoding)|, size)) &&
        vfpos == RemapVfpos(old(vfpos), CutMap(|old(encoding)|, size))
    {
      if |encoding| <= size {
        NoDanglingGrow(ligatures, fakeLigatures, kerns, vfpos, |encoding|, size);
        encoding := encoding + seq(size - |encoding|, _ => 0);
      } else {
        var r := CutReassignment(|encoding|, size);
        ReassignCodes(r);
        RemapLeavesNoDangling(old(ligatures), old(fakeLigatures), old(kerns), old(vfpos), r, size);
        encoding := encoding[..size];
      }
    }

    /** The slots of `shrink_encoding`: one per code from `size` on that
      * holds a glyph, in code order. */
    method CollectSlots(size: nat) returns (slots: seq<Slot>)
      requires size <= |encoding|
      ensures slots == HighSlots(encoding, size, |encoding|)
    {
      slots := [];
      var i := size;
      while i < |encoding|
        invariant size <= i <= |encoding| && slots == HighSlots(encoding, size, i)
      {
        if encoding[i] != 0 {
          slots := slots + [Slot(i, -1, encoding[i])];
        }
        i := i + 1;
      }
    }

    /** The first placement pass of `shrink_encoding`: each glyph, in slot
      * order, goes to the code the target encoding gives its name when that
      * code is empty. */
    method PlacePreferred(slots0: seq<Slot>, size: nat, ref: Reference) returns (slots: seq<Slot>)
      requires size <= |encoding|
      requires Unplaced(slots0) && forall i :: 0 <= i < |slots0| ==> slots0[i].value != 0
      requires forall g :: g in ref.preferred ==> ref.preferred[g] < size
      modifies this`encoding
      ensures SameGlyphs(slots0, slots) && PlacedIn(slots, old(encoding), encoding, size)
      ensures forall i :: 0 <= i < |slots| && slots[i].newPosition >= 0 ==>
        slots[i].newPosition == PreferredCode(ref, slots[i].value)
      ensures forall i :: 0 <= i < |slots| ==> PreferredOutcome(ref, slots[i].value, old(encoding), encoding)
    {
      slots := slots0;
      PreferStart(slots0, encoding, size, ref);
      var slotnum := 0;
      while slotnum < |slots|
        invariant Preferring(slots0, slots, old(encoding), encoding, size, ref, slotnum)
      {
        var e := PreferredCode(ref, slots[slotnum].value);
        if e >= 0 && encoding[e] == 0 {
          PreferPlace(slots0, slots, old(encoding), encoding, size, ref, slotnum, e);
          encoding := encoding[e := slots[slotnum].value];
          slots := slots[slotnum := slots[slotnum].(newPosition := e)];
        } else {
          PreferSkip(slots0, slots, old(encoding), encoding, size, ref, slotnum);
        }
        slotnum := slotnum + 1;
      }
    }

    /** The second placement pass of `shrink_encoding`: the glyphs still
      * unplaced fill the empty codes below `size` in order, first avoiding
      * the codes the target encoding uses, then taking any.  A glyph is
      * left out only when every code below `size` is taken. */
    method PlaceRemaining(slots0: seq<Slot>, size: nat, ref: Reference, ghost enc0: seq<int>) returns (slots: seq<Slot>)
      requires size <= |encoding|
      requires PlacedIn(slots0, enc0, encoding, size)
      requires forall i :: 0 <= i < |slots0| ==> slots0[i].value != 0
      modifies this`encoding
      ensures SameGlyphs(slots0, slots) && PlacedIn(slots, enc0, encoding, size)
      ensures forall i :: 0 <= i < |slots| && slots0[i].newPosition >= 0 ==> slots[i] == slots0[i]
      ensures forall c :: 0 <= c < |encoding| && old(encoding)[c] != 0 ==> encoding[c] == old(encoding)[c]
      ensures (exists i :: 0 <= i < |slots| && slots[i].newPosition < 0) ==> forall c :: 0 <= c < size ==> encoding[c] != 0
    {
      slots := slots0;
      var slotnum, e, avoid := 0, 0, true;
      SweepStart(slots0, enc0, encoding, size);
      while slotnum < |slots| && e < size
        invariant Sweeping(slots0, slots, enc0, old(encoding), encoding, size, slotnum, e, avoid)
        decreases if avoid then 1 else 0, size - e + |slots| - slotnum
      {
        if slots[slotnum].newPosition >= 0 {
          SweepSkip(slots0, slots, enc0, old(encoding), encoding, size, slotnum, e, avoid);
          slotnum := slotnum + 1;
        } else if encoding[e] == 0 && (!avoid || e !in ref.encoded) {
          SweepPlace(slots0, slots, enc0, old(encoding), encoding, size, slotnum, e, avoid);
          encoding := encoding[e := slots[slotnum].value];
          slots := slots[slotnum := slots[slotnum].(newPosition := e)];
          e := e + 1;
          slotnum := slotnum + 1;
          if e >= size && avoid {
            avoid, e := false, 0;
          }
        } else {
          SweepPass(slots0, slots, enc0, old(encoding), encoding, size, slotnum, e, avoid);
          e := e + 1;
          if e >= size && avoid {
            avoid, e := false, 0;
          }
        }
      }
      SweepDone(slots0, slots, enc0, old(encoding), encoding, size, slotnum, e, avoid);
    }

    /** The glyphs the warning of `shrink_encoding` lists: those of the
      * slots left unplaced. */
    method UnencodableGlyphs(slots: seq<Slot>) returns (u: seq<int>)
      ensures u == UnplacedValues(slots)
    {
      u := [];
      var s := 0;
      while s < |slots|
        invariant 0 <= s <= |slots| && u == UnplacedValues(slots[..s])
      {
        assert slots[..s + 1][..s] == slots[..s];
        if slots[s].newPosition < 0 {
          u := u + [slots[s].value];
        }
        s := s + 1;
      }
      assert slots[..s] == slots;
    }

    /** The placement part of `shrink_encoding`: collect the glyphs of the
      * codes from `size` on, sort them by glyph, and place them with the
      * two passes.  Each glyph's code in the target encoding, when it was
      * free, went to a glyph with that code. */
    method PlaceHighGlyphs(size: nat, ref: Reference) returns (slots: seq<Slot>)
      requires size < |encoding|
      requires forall g :: g in ref.preferred ==> ref.preferred[g] < size
      modifies this`encoding
      ensures SlotsFrom(slots, old(encoding), size) && PlacedIn(slots, old(encoding), encoding, size)
      ensures forall i :: 0 <= i < |slots| ==> PreferredOutcome(ref, slots[i].value, old(encoding), encoding)
      ensures (exists i :: 0 <= i < |slots| && slots[i].newPosition < 0) ==> forall c :: 0 <= c < size ==> encoding[c] != 0
    {
      var collected := CollectSlots(size);
      slots := SortBy(collected, SlotKey);
      SortedSlots(encoding, size);
      ghost var sorted := slots;
      slots := PlacePreferred(slots, size, ref);
      ghost var slots1, enc1 := slots, encoding;
      slots := PlaceRemaining(slots, size, ref, old(encoding));
      PreferredKept(slots1, ref, old(encoding), enc1, encoding);
      SameGlyphsFrom(sorted, slots1, old(encoding), size);
      SameGlyphsFrom(slots1, slots, old(encoding), size);
    }

    /** `shrink_encoding(size, …)`: a table no larger than `size` is padded
      * with empty codes.  A larger one keeps its low codes, moves the
      * glyphs of its high codes into empty low codes (a glyph's code in
      * the target encoding first, when free), rewrites every reference
      * accordingly and reports the glyphs it could not place; `r` is the
      * reassignment, indexed by old code + 1. */
    method ShrinkEncoding(size: int, ref: Reference) returns (dropped: seq<int>, r: seq<int>)
      requires 0 <= size && Valid()
      requires forall g :: g in ref.preferred ==> ref.preferred[g] < size
      modifies this`encoding, this`emap, this`ligatures, this`fakeLigatures, this`kerns, this`vfpos
      ensures |encoding| == size && Valid()
      ensures |old(encoding)| <= size ==>
        encoding == old(encoding) + seq(size - |old(encoding)|, _ => 0) && dropped == [] && emap == old(emap) &&
        ligatures == old(ligatures) && fakeLigatures == old(fakeLigatures) && kerns == old(kerns) && vfpos == old(vfpos)
      ensures |old(encoding)| > size ==>
        Shrunk(old(encoding), encoding, r, size, ref, dropped) && emap == [] &&
        ligatures == RemapLigatures(old(ligatures), r) && fakeLigatures == RemapLigatures(old(fakeLigatures), r) &&
        kerns == RemapKerns(old(kerns), r) && vfpos == RemapVfpos(old(vfpos), r)
    {
      if |encoding| <= size {
        NoDanglingGrow(ligatures, fakeLigatures, kerns, vfpos, |encoding|, size);
        encoding := encoding + seq(size - |encoding|, _ => 0);
        dropped, r := [], [];
        return;
      }
      var slots := PlaceHighGlyphs(size, ref);
      dropped := UnencodableGlyphs(slots);
      r := ShrinkReassignment(|encoding|, size, slots);
      ShrinkOutcome(old(encoding), encoding, slots, r, size, ref);
      ReassignCodes(r);
      RemapLeavesNoDangling(old(ligatures), old(fakeLigatures), old(kerns), old(vfpos), r, size);
      encoding := encoding[..size];
    }
  }

  /** A substitution pass leaves no dangling code: the tables it does not
    * touch stay valid for the larger code table. */
  lemma PassKeepsValid(st: Engine, t: Tracker, sv: seq<Substitution>, allowSingle: bool,
                       fs: seq<Ligature>, ks: seq<Kern>, vs: seq<Vfpos>)
    requires TrackerOk(t, |t.changed|) && |t.changed| <= |st.enc| && RulesHaveInputs(sv)
    requires NoDangling(st.ligs, fs, ks, vs, |st.enc|) && HaveInputs(st.ligs)
    ensures var r := ApplyAll(st, t, sv, allowSingle).0;
      NoDangling(r.ligs, fs, ks, vs, |r.enc|) && HaveInputs(r.ligs)
  {
    var r := ApplyAll(st, t, sv, allowSingle).0;
    ApplyAllKeepsLigs(st, t, sv, allowSingle);
    NoDanglingGrow(st.ligs, fs, ks, vs, |st.enc|, |r.enc|);
  }

  lemma LigatureCodesUnfold(enc: seq<int>, emap: seq<int>, t: Tracker, gs: seq<int>, k: int)
    requires |t.changed| == |t.context| && 0 <= k < |gs|
    ensures var e := Lookup(enc, emap, gs[k]);
      var m := LookupCache(enc, emap, gs[k]);
      LigatureCodes(enc, emap, t, gs[k..]) ==
        if Blocked(t, e) then Codes([], m, false)
        else var r := LigatureCodes(enc, m, t, gs[k + 1..]); Codes([e] + r.codes, r.emap, r.ok)
  {
    assert gs[k..][0] == gs[k] && gs[k..][1..] == gs[k + 1..];
  }

  /** The input loop of a ligature rule, k inputs in: the codes found so
    * far followed by what the remaining lookups give are what the rule's
    * lookups give from the cache it started with. */
  ghost predicate InputsLookedUp(enc: seq<int>, emap0: seq<int>, emap: seq<int>, t: Tracker, gs: seq<int>, k: int, codes: seq<int>)
    requires |t.changed| == |t.context|
  {
    0 <= k <= |gs| &&
    var rest := LigatureCodes(enc, emap, t, gs[k..]);
    LigatureCodes(enc, emap0, t, gs) == Codes(codes + rest.codes, rest.emap, rest.ok)
  }

  lemma LigatureCodesStart(enc: seq<int>, emap: seq<int>, t: Tracker, gs: seq<int>)
    requires |t.changed| == |t.context|
    ensures InputsLookedUp(enc, emap, emap, t, gs, 0, [])
  {
    assert gs[0..] == gs;
    assert [] + LigatureCodes(enc, emap, t, gs).codes == LigatureCodes(enc, emap, t, gs).codes;
  }

  /** One more input looked up and usable. */
  lemma LigatureCodesStep(enc: seq<int>, emap0: seq<int>, emap: seq<int>, emap': seq<int>, t: Tracker, gs: seq<int>, k: int, codes: seq<int>, e: int)
    requires |t.changed| == |t.context| && k < |gs|
    requires InputsLookedUp(enc, emap0, emap, t, gs, k, codes)
    requires e == Lookup(enc, emap, gs[k]) && emap' == LookupCache(enc, emap, gs[k]) && !Blocked(t, e)
    ensures InputsLookedUp(enc, emap0, emap', t, gs, k + 1, codes + [e])
  {
    LigatureCodesUnfold(enc, emap, t, gs, k);
    var r := LigatureCodes(enc, emap', t, gs[k + 1..]);
    var rest := LigatureCodes(enc, emap, t, gs[k..]);
    assert rest == Codes([e] + r.codes, r.emap, r.ok);
    assert LigatureCodes(enc, emap0, t, gs) == Codes(codes + rest.codes, rest.emap, rest.ok);
    assert codes + rest.codes == codes + [e] + r.codes;
  }

  /** An unusable input ends the lookups. */
  lemma LigatureCodesStop(enc: seq<int>, emap0: seq<int>, emap: seq<int>, t: Tracker, gs: seq<int>, k: int, codes: seq<int>)
    requires |t.changed| == |t.context| && k < |gs|
    requires InputsLookedUp(enc, emap0, emap, t, gs, k, codes)
    requires Blocked(t, Lookup(enc, emap, gs[k]))
    ensures LigatureCodes(enc, emap0, t, gs) == Codes(codes, LookupCache(enc, emap, gs[k]), false)
  {
    LigatureCodesUnfold(enc, emap, t, gs, k);
    assert codes + [] == codes;
  }

  /** Every input looked up and usable. */
  lemma LigatureCodesDone(enc: seq<int>, emap0: seq<int>, emap: seq<int>, t: Tracker, gs: seq<int>, codes: seq<int>)
    requires |t.changed| == |t.context|
    requires InputsLookedUp(enc, emap0, emap, t, gs, |gs|, codes)
    ensures LigatureCodes(enc, emap0, t, gs) == Codes(codes, emap, true)
  {
    assert gs[|gs|..] == [];
    assert codes + [] == codes;
  }

  /** The two properties of `FirstIndex` determine it. */
  lemma FirstIndexUnique(s: seq<int>, g: int, k: int)
    requires k >= -1
    requires k == -1 <==> g !in s
    requires k >= 0 ==> 0 <= k < |s| && s[k] == g && g !in s[..k]
    ensures k == FirstIndex(s, g)
  {

  }

  /** The answer lists of `twoligatures` for the ligatures `ts`. */
  predicate ListsTwoligatures(ts: seq<Ligature>, code2: seq<int>, outcode: seq<int>, context: seq<int>)
  {
    |code2| == |ts| && |outcode| == |ts| && |context| == |ts| &&
    forall k :: 0 <= k < |ts| ==> |ts[k].ins| == 2 && code2[k] == ts[k].ins[1] && outcode[k] == ts[k].out && context[k] == ts[k].context
  }

  lemma ListsTwoligaturesSnoc(ts: seq<Ligature>, code2: seq<int>, outcode: seq<int>, context: seq<int>, l: Ligature)
    requires ListsTwoligatures(ts, code2, outcode, context) && |l.ins| == 2
    ensures ListsTwoligatures(ts + [l], code2 + [l.ins[1]], outcode + [l.out], context + [l.context])
  {
    var ts', c', o', x' := ts + [l], code2 + [l.ins[1]], outcode + [l.out], context + [l.context];
    forall k | 0 <= k < |ts'|
      ensures |ts'[k].ins| == 2 && c'[k] == ts'[k].ins[1] && o'[k] == ts'[k].out && x'[k] == ts'[k].context
    {
      if k < |ts| {
        assert ts'[k] == ts[k] && c'[k] == code2[k] && o'[k] == outcode[k] && x'[k] == context[k];
      }
    }
  }

  /** The answer lists of `kerns` for the kerns `ks`. */
  predicate ListsKerns(ks: seq<Kern>, code2: seq<int>, amount: seq<int>)
  {
    |code2| == |ks| && |amount| == |ks| &&
    forall k :: 0 <= k < |ks| ==> code2[k] == ks[k].right && amount[k] == ks[k].amount
  }

  lemma ListsKernsSnoc(ks: seq<Kern>, code2: seq<int>, amount: seq<int>, kn: Kern)
    requires ListsKerns(ks, code2, amount)
    ensures ListsKerns(ks + [kn], code2 + [kn.right], amount + [kn.amount])
  {
    var ks', c', a' := ks + [kn], code2 + [kn.right], amount + [kn.amount];
    forall k | 0 <= k < |ks'| ensures c'[k] == ks'[k].right && a'[k] == ks'[k].amount {
      if k < |ks| {
        assert ks'[k] == ks[k] && c'[k] == code2[k] && a'[k] == amount[k];
      }
    }
  }

  lemma {:induction false} TwoligaturesSnoc(ls: seq<Ligature>, l: Ligature, code1: int)
    ensures TwoligaturesOf(ls + [l], code1) == TwoligaturesOf(ls, code1) + (if IsTwoligatureOf(l, code1) then [l] else [])
  {
    if ls != [] {
      assert (ls + [l])[1..] == ls[1..] + [l];
      TwoligaturesSnoc(ls[1..], l, code1);
    } else {
      assert ls + [l] == [l];
    }
  }

  lemma {:induction false} KernsFromSnoc(ks: seq<Kern>, k: Kern, code1: int)
    ensures KernsFrom(ks + [k], code1) == KernsFrom(ks, code1) + (if IsKernOf(k, code1) then [k] else [])
  {
    if ks != [] {
      assert (ks + [k])[1..] == ks[1..] + [k];
      KernsFromSnoc(ks[1..], k, code1);
    } else {
      assert ks + [k] == [k];
    }
  }
}
