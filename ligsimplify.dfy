/**
 * `simplify_ligatures` and `find_skippable_twoligature` as functions on the
 * tables they touch, in the order the engine runs its four passes:
 * marking ligatures skippable, shortening ligatures with more than two
 * inputs through two-input ligatures (inventing fake ones when asked),
 * removing ligatures an earlier one shadows, and removing null ligatures.
 * A removed ligature stays in the table with its first input set to -1.
 */
module LigatureSimplify {
  import opened Tables

  /** The tables the shortening pass reads and extends. */
  datatype LigState = LigState(enc: seq<int>, fakes: seq<Ligature>, ligs: seq<Ligature>)

  predicate Live(l: Ligature)
  {
    |l.ins| >= 1 && l.ins[0] >= 0
  }

  function Kill(l: Ligature): (r: Ligature)
    requires |l.ins| >= 1
    ensures !Live(r) && |r.ins| == |l.ins|
  {
    l.(ins := l.ins[0 := -1])
  }

  // Marking.

  /** Some ligature of `ls` starts with code `c`. */
  predicate StartsSome(ls: seq<Ligature>, c: int)
    requires HaveInputs(ls)
  {
    exists j :: 0 <= j < |ls| && ls[j].ins[0] == c
  }

  /** The marking pass: a ligature whose output starts no ligature is no
    * longer skippable; every other one keeps its flag. */
  function MarkedSkippable(ls: seq<Ligature>): (r: seq<Ligature>)
    requires HaveInputs(ls)
    ensures |r| == |ls| && HaveInputs(r)
  {
    seq(|ls|, i requires 0 <= i < |ls| => if StartsSome(ls, ls[i].out) then ls[i] else ls[i].(skip := false))
  }

  // Shortening.

  /** A ligature `find_skippable_twoligature(a, b, …)` accepts. */
  predicate SkippablePair(l: Ligature, a: int, b: int)
  {
    l.ins == [a, b] && !l.skip && l.context == 0
  }

  /** The index of the first ligature of `ls` for (a, b), or -1. */
  function FirstSkippable(ls: seq<Ligature>, a: int, b: int): (k: int)
    ensures -1 <= k < |ls|
    ensures k == -1 <==> forall i :: 0 <= i < |ls| ==> !SkippablePair(ls[i], a, b)
    ensures k >= 0 ==> SkippablePair(ls[k], a, b) && forall i :: 0 <= i < k ==> !SkippablePair(ls[i], a, b)
  {
    if ls == [] then -1
    else if SkippablePair(ls[0], a, b) then 0
    else
      var k := FirstSkippable(ls[1..], a, b);
      if k < 0 then -1 else k + 1
  }

  /** `find_skippable_twoligature(a, b, addFake)`: the state afterwards and
    * the code answered. */
  function FindOrFake(st: LigState, a: int, b: int, addFake: bool): (res: (LigState, int))
    ensures res.0.ligs == st.ligs
  {
    var k := FirstSkippable(st.ligs, a, b);
    if k >= 0 then (st, st.ligs[k].out)
    else if addFake then (st.(enc := st.enc + [FAKE_LIGATURE], fakes := st.fakes + [Ligature([a, b], |st.enc|, false, 0)]), |st.enc|)
    else (st, -1)
  }

  /** One turn of the shortening loop on ligature i: its first two inputs
    * become the one code that stands for them. */
  function ShortenStep(st: LigState, i: nat, addFake: bool): (r: LigState)
    requires i < |st.ligs| && |st.ligs[i].ins| > 2
    ensures |r.ligs| == |st.ligs| && |r.ligs[i].ins| == |st.ligs[i].ins| - 1
    ensures HaveInputs(st.ligs) ==> HaveInputs(r.ligs)
  {
    var l := st.ligs[i];
    var (s, l2) := FindOrFake(st, l.ins[0], l.ins[1], addFake);
    s.(ligs := s.ligs[i := l.(ins := [l2] + l.ins[2..])])
  }

  function Shorten(st: LigState, i: nat, addFake: bool): (r: LigState)
    requires i < |st.ligs|
    ensures |r.ligs| == |st.ligs|
    ensures HaveInputs(st.ligs) ==> HaveInputs(r.ligs)
    decreases |st.ligs[i].ins|
  {
    if |st.ligs[i].ins| <= 2 then st else Shorten(ShortenStep(st, i, addFake), i, addFake)
  }

  /** The shortening pass over ligatures i, i+1, …. */
  function ShortenFrom(st: LigState, i: nat, addFake: bool): (r: LigState)
    ensures |r.ligs| == |st.ligs|
    ensures HaveInputs(st.ligs) ==> HaveInputs(r.ligs)
    decreases |st.ligs| - i
  {
    if i >= |st.ligs| then st else ShortenFrom(Shorten(st, i, addFake), i + 1, addFake)
  }

  /** `r` extends `st` by fake codes only: each new code holds FAKE_LIGATURE
    * and has one new fake two-input ligature producing it. */
  ghost predicate Grown(st: LigState, r: LigState)
  {
    |st.enc| <= |r.enc| && r.enc[..|st.enc|] == st.enc &&
    (forall c :: |st.enc| <= c < |r.enc| ==> r.enc[c] == FAKE_LIGATURE) &&
    |r.fakes| - |st.fakes| == |r.enc| - |st.enc| && |st.fakes| <= |r.fakes| && r.fakes[..|st.fakes|] == st.fakes &&
    (forall j :: |st.fakes| <= j < |r.fakes| ==>
      |r.fakes[j].ins| == 2 && r.fakes[j].out == |st.enc| + (j - |st.fakes|) && !r.fakes[j].skip && r.fakes[j].context == 0)
  }

  /** Codes referenced by the ligatures and fake ligatures are in range. */
  ghost predicate LigValid(st: LigState)
  {
    LigaturesIn(st.ligs, |st.enc|) && LigaturesIn(st.fakes, |st.enc|) && HaveInputs(st.ligs) && HaveInputs(st.fakes)
  }

  /** `l` is `l0` shortened: same output, flag and context, and its inputs
    * after the first are the last inputs of `l0`. */
  ghost predicate Shortened(l0: Ligature, l: Ligature)
  {
    l == l0 ||
    (l.out == l0.out && l.skip == l0.skip && l.context == l0.context &&
     2 <= |l.ins| <= |l0.ins| && l.ins[1..] == l0.ins[|l0.ins| - |l.ins| + 1..])
  }

  /** The ligatures `find_skippable_twoligature` searches: the table and
    * the fake ligatures. */
  function Pool(st: LigState): seq<Ligature>
  {
    st.ligs + st.fakes
  }

  /** Some ligature of `ls` accepted for (a, b) produces `x`: the code `x`
    * stands for the pair. */
  ghost predicate PairOut(ls: seq<Ligature>, x: int, a: int, b: int)
  {
    exists l :: l in ls && SkippablePair(l, a, b) && l.out == x
  }

  /** The code that replaced (a, b): a two-input ligature's output, or -1
    * when no such ligature was found and none could be invented. */
  ghost predicate StandsFor(ls: seq<Ligature>, x: int, a: int, b: int, addFake: bool)
  {
    (x == -1 && !addFake) || PairOut(ls, x, a, b)
  }

  /** `ins` is `ins0` after |xs| - 1 shortening steps: xs[0] is the old
    * first input, each xs[k+1] stands for (xs[k], ins0[k+1]), and the last
    * of them is followed by the old inputs not yet consumed. */
  ghost predicate ChainOf(ls: seq<Ligature>, ins0: seq<int>, ins: seq<int>, xs: seq<int>, addFake: bool)
  {
    1 <= |xs| <= |ins0| && xs[0] == ins0[0] && ins == [xs[|xs| - 1]] + ins0[|xs|..] &&
    forall k :: 0 <= k < |xs| - 1 ==> StandsFor(ls, xs[k + 1], xs[k], ins0[k + 1], addFake)
  }

  /** The inputs `ins` recognise the same sequence as `ins0`, through the
    * two-input ligatures of `ls`. */
  ghost predicate ShortenedVia(ls: seq<Ligature>, ins0: seq<int>, ins: seq<int>, addFake: bool)
  {
    exists xs :: ChainOf(ls, ins0, ins, xs, addFake)
  }

  /** Every two-input ligature of `ls` is still in `ls2`. */
  ghost predicate PairsKept(ls: seq<Ligature>, ls2: seq<Ligature>)
  {
    forall l :: l in ls && |l.ins| == 2 ==> l in ls2
  }

  lemma ChainKept(ls: seq<Ligature>, ls2: seq<Ligature>, ins0: seq<int>, ins: seq<int>, addFake: bool)
    requires ShortenedVia(ls, ins0, ins, addFake) && PairsKept(ls, ls2)
    ensures ShortenedVia(ls2, ins0, ins, addFake)
  {
    var xs :| ChainOf(ls, ins0, ins, xs, addFake);
    forall k | 0 <= k < |xs| - 1 ensures StandsFor(ls2, xs[k + 1], xs[k], ins0[k + 1], addFake) {
      StandsKept(ls, ls2, xs[k + 1], xs[k], ins0[k + 1], addFake);
    }
    assert ChainOf(ls2, ins0, ins, xs, addFake);
  }

  lemma StandsKept(ls: seq<Ligature>, ls2: seq<Ligature>, x: int, a: int, b: int, addFake: bool)
    requires StandsFor(ls, x, a, b, addFake) && PairsKept(ls, ls2)
    ensures StandsFor(ls2, x, a, b, addFake)
  {
    if PairOut(ls, x, a, b) {
      var l :| l in ls && SkippablePair(l, a, b) && l.out == x;
      assert l in ls2;
    }
  }

  lemma GrownTrans(a: LigState, b: LigState, c: LigState)
    requires Grown(a, b) && Grown(b, c)
    ensures Grown(a, c)
  {
    assert c.enc[..|a.enc|] == c.enc[..|b.enc|][..|a.enc|];
    assert c.fakes[..|a.fakes|] == c.fakes[..|b.fakes|][..|a.fakes|];
    forall j | |a.fakes| <= j < |c.fakes|
      ensures |c.fakes[j].ins| == 2 && c.fakes[j].out == |a.enc| + (j - |a.fakes|) && !c.fakes[j].skip && c.fakes[j].context == 0
    {
      if j < |b.fakes| {
        assert c.fakes[j] == c.fakes[..|b.fakes|][j];
      }
    }
  }

  lemma LigaturesGrow(ls: seq<Ligature>, n: int, m: int)
    requires LigaturesIn(ls, n) && n <= m
    ensures LigaturesIn(ls, m)
  {
    forall i | 0 <= i < |ls| ensures LigatureIn(ls[i], m) {
      assert LigatureIn(ls[i], n);
    }
  }

  /** One shortening step grows the tables by at most one fake code, keeps
    * every reference in range, and keeps the ligature's last inputs. */
  lemma ShortenStepSound(st: LigState, i: nat, addFake: bool)
    requires i < |st.ligs| && |st.ligs[i].ins| > 2 && LigValid(st)
    ensures Grown(st, ShortenStep(st, i, addFake)) && LigValid(ShortenStep(st, i, addFake))
    ensures forall j :: 0 <= j < |st.ligs| && j != i ==> ShortenStep(st, i, addFake).ligs[j] == st.ligs[j]
    ensures Shortened(st.ligs[i], ShortenStep(st, i, addFake).ligs[i])
    ensures PairsKept(Pool(st), Pool(ShortenStep(st, i, addFake)))
    ensures var a, b, x := st.ligs[i].ins[0], st.ligs[i].ins[1], ShortenStep(st, i, addFake).ligs[i].ins[0];
      PairOut(Pool(ShortenStep(st, i, addFake)), x, a, b) ||
      (x == -1 && !addFake && forall j :: 0 <= j < |st.ligs| ==> !SkippablePair(st.ligs[j], a, b))
    ensures var a, b, r := st.ligs[i].ins[0], st.ligs[i].ins[1], ShortenStep(st, i, addFake);
      |r.fakes| > |st.fakes| ==> addFake && r.fakes[|st.fakes|] == Ligature([a, b], |st.enc|, false, 0) && r.ligs[i].ins[0] == |st.enc|
  {
    var l := st.ligs[i];
    var (s, l2) := FindOrFake(st, l.ins[0], l.ins[1], addFake);
    var r := ShortenStep(st, i, addFake);
    assert LigatureIn(l, |st.enc|);
    var k := FirstSkippable(st.ligs, l.ins[0], l.ins[1]);
    forall m | m in Pool(st) && |m.ins| == 2 ensures m in Pool(r) {
      if m in st.ligs {
        var j :| 0 <= j < |st.ligs| && st.ligs[j] == m;
        assert r.ligs[j] == m;
      } else {
        assert m in r.fakes[..|st.fakes|];
      }
    }
    if k >= 0 {
      assert LigatureIn(st.ligs[k], |st.enc|);
      assert r.ligs[k] == st.ligs[k];
      assert r.ligs[k] in Pool(r);
    } else if addFake {
      assert r.fakes[|st.fakes|] in Pool(r);
      LigaturesGrow(st.ligs, |st.enc|, |s.enc|);
      LigaturesGrow(st.fakes, |st.enc|, |s.enc|);
      assert LigatureIn(s.fakes[|st.fakes|], |s.enc|);
      assert s.fakes[..|st.fakes|] == st.fakes;
    }
    assert CodeIn(l2, |s.enc|);
    assert LigatureIn(l, |s.enc|);
    assert LigatureIn(r.ligs[i], |r.enc|);
    assert forall j :: 0 <= j < |r.ligs| && j != i ==> r.ligs[j] == s.ligs[j];
  }

  lemma {:induction false} ShortenValid(st: LigState, i: nat, addFake: bool)
    requires i < |st.ligs| && LigValid(st)
    ensures Grown(st, Shorten(st, i, addFake)) && LigValid(Shorten(st, i, addFake))
    decreases |st.ligs[i].ins|
  {
    if |st.ligs[i].ins| > 2 {
      var s := ShortenStep(st, i, addFake);
      ShortenStepSound(st, i, addFake);
      ShortenValid(s, i, addFake);
      GrownTrans(st, s, Shorten(s, i, addFake));
    } else {
      assert st.enc[..|st.enc|] == st.enc && st.fakes[..|st.fakes|] == st.fakes;
    }
  }

  lemma {:induction false} ShortenElsewhere(st: LigState, i: nat, addFake: bool)
    requires i < |st.ligs| && LigValid(st)
    ensures forall j :: 0 <= j < |st.ligs| && j != i ==> Shorten(st, i, addFake).ligs[j] == st.ligs[j]
    decreases |st.ligs[i].ins|
  {
    if |st.ligs[i].ins| > 2 {
      var s := ShortenStep(st, i, addFake);
      ShortenStepSound(st, i, addFake);
      ShortenElsewhere(s, i, addFake);
    }
  }

  lemma ShortenedTrans(l0: Ligature, l1: Ligature, l2: Ligature)
    requires Shortened(l0, l1) && Shortened(l1, l2)
    ensures Shortened(l0, l2)
  {
    if l2 != l1 && l1 != l0 {
      assert l2.ins[1..] == l1.ins[|l1.ins| - |l2.ins| + 1..];
      assert l1.ins[1..] == l0.ins[|l0.ins| - |l1.ins| + 1..];
      assert l2.ins[1..] == l0.ins[|l0.ins| - |l2.ins| + 1..];
    }
  }

  /** One shortening step on ligature i keeps its last inputs. */
  lemma ShortenStepTail(st: LigState, i: nat, addFake: bool)
    requires i < |st.ligs| && |st.ligs[i].ins| > 2
    ensures Shortened(st.ligs[i], ShortenStep(st, i, addFake).ligs[i])
  {
    var l := st.ligs[i];
    var l1 := ShortenStep(st, i, addFake).ligs[i];
    assert l1.ins[1..] == l.ins[2..];
  }

  lemma {:induction false} ShortenTail(st: LigState, i: nat, addFake: bool)
    requires i < |st.ligs|
    ensures Shortened(st.ligs[i], Shorten(st, i, addFake).ligs[i]) && |Shorten(st, i, addFake).ligs[i].ins| <= 2
    decreases |st.ligs[i].ins|
  {
    if |st.ligs[i].ins| > 2 {
      var s := ShortenStep(st, i, addFake);
      ShortenStepTail(st, i, addFake);
      ShortenTail(s, i, addFake);
      ShortenedTrans(st.ligs[i], s.ligs[i], Shorten(s, i, addFake).ligs[i]);
    }
  }

  lemma PairsKeptTrans(a: seq<Ligature>, b: seq<Ligature>, c: seq<Ligature>)
    requires PairsKept(a, b) && PairsKept(b, c)
    ensures PairsKept(a, c)
  {
  }

  /** Shortening ligature i keeps every two-input ligature, and the new
    * inputs of ligature i reach the old ones through a chain of them. */
  lemma {:induction false} ShortenChain(st: LigState, i: nat, addFake: bool)
    requires i < |st.ligs| && LigValid(st)
    ensures PairsKept(Pool(st), Pool(Shorten(st, i, addFake)))
    ensures ShortenedVia(Pool(Shorten(st, i, addFake)), st.ligs[i].ins, Shorten(st, i, addFake).ligs[i].ins, addFake)
    decreases |st.ligs[i].ins|
  {
    var ins0 := st.ligs[i].ins;
    if |ins0| > 2 {
      var s := ShortenStep(st, i, addFake);
      var r := Shorten(s, i, addFake);
      ShortenStepSound(st, i, addFake);
      ShortenChain(s, i, addFake);
      PairsKeptTrans(Pool(st), Pool(s), Pool(r));
      var ys :| ChainOf(Pool(r), s.ligs[i].ins, r.ligs[i].ins, ys, addFake);
      var mid := s.ligs[i].ins;
      assert mid == [ys[0]] + ins0[2..];
      StandsKept(Pool(s), Pool(r), ys[0], ins0[0], ins0[1], addFake);
      var xs := [ins0[0]] + ys;
      forall k | 0 <= k < |xs| - 1 ensures StandsFor(Pool(r), xs[k + 1], xs[k], ins0[k + 1], addFake) {
        if k > 0 {
          assert xs[k + 1] == ys[k] && xs[k] == ys[k - 1] && ins0[k + 1] == mid[k];
        }
      }
      assert ins0[|xs|..] == mid[|ys|..];
      assert ChainOf(Pool(r), ins0, r.ligs[i].ins, xs, addFake);
    } else {
      assert ChainOf(Pool(st), ins0, ins0, [ins0[0]], addFake);
    }
  }

  /** Shortening ligature i grows the tables by fake codes only, keeps every
    * reference in range, changes no other ligature, and leaves ligature i
    * with at most two inputs: its old last input, preceded by a code that
    * stands for all the others through a chain of two-input ligatures. */
  lemma ShortenSound(st: LigState, i: nat, addFake: bool)
    requires i < |st.ligs| && LigValid(st)
    ensures Grown(st, Shorten(st, i, addFake)) && LigValid(Shorten(st, i, addFake))
    ensures forall j :: 0 <= j < |st.ligs| && j != i ==> Shorten(st, i, addFake).ligs[j] == st.ligs[j]
    ensures Shortened(st.ligs[i], Shorten(st, i, addFake).ligs[i]) && |Shorten(st, i, addFake).ligs[i].ins| <= 2
    ensures PairsKept(Pool(st), Pool(Shorten(st, i, addFake)))
    ensures ShortenedVia(Pool(Shorten(st, i, addFake)), st.ligs[i].ins, Shorten(st, i, addFake).ligs[i].ins, addFake)
  {
    ShortenValid(st, i, addFake);
    ShortenElsewhere(st, i, addFake);
    ShortenTail(st, i, addFake);
    ShortenChain(st, i, addFake);
  }

  /** The shape half of ShortenFromSound, by induction on the pass. */
  lemma {:induction false} ShortenFromShape(st: LigState, i: nat, addFake: bool)
    requires LigValid(st)
    ensures Grown(st, ShortenFrom(st, i, addFake)) && LigValid(ShortenFrom(st, i, addFake))
    ensures forall j :: 0 <= j < |st.ligs| && j < i ==> ShortenFrom(st, i, addFake).ligs[j] == st.ligs[j]
    ensures forall j :: i <= j < |st.ligs| ==>
      Shortened(st.ligs[j], ShortenFrom(st, i, addFake).ligs[j]) && |ShortenFrom(st, i, addFake).ligs[j].ins| <= 2
    decreases |st.ligs| - i
  {
    if i >= |st.ligs| {
      assert st.enc[..|st.enc|] == st.enc && st.fakes[..|st.fakes|] == st.fakes;
    } else {
      var s := Shorten(st, i, addFake);
      ShortenSound(st, i, addFake);
      ShortenFromShape(s, i + 1, addFake);
      GrownTrans(st, s, ShortenFrom(s, i + 1, addFake));
    }
  }

  /** After the shortening pass from i on, each of those ligatures' first
    * input stands, through a chain of two-input ligatures of the resulting
    * tables, for all but the last of its old inputs; no two-input ligature
    * is lost on the way. */
  lemma {:induction false} ShortenFromChain(st: LigState, i: nat, addFake: bool)
    requires LigValid(st)
    ensures PairsKept(Pool(st), Pool(ShortenFrom(st, i, addFake)))
    ensures forall j :: i <= j < |st.ligs| ==>
      ShortenedVia(Pool(ShortenFrom(st, i, addFake)), st.ligs[j].ins, ShortenFrom(st, i, addFake).ligs[j].ins, addFake)
    decreases |st.ligs| - i
  {
    if i < |st.ligs| {
      var s := Shorten(st, i, addFake);
      var r := ShortenFrom(s, i + 1, addFake);
      ShortenSound(st, i, addFake);
      ShortenFromChain(s, i + 1, addFake);
      ShortenFromShape(s, i + 1, addFake);
      PairsKeptTrans(Pool(st), Pool(s), Pool(r));
      ChainKept(Pool(s), Pool(r), st.ligs[i].ins, s.ligs[i].ins, addFake);
      assert r.ligs[i] == s.ligs[i];
      forall j | i < j < |st.ligs|
        ensures ShortenedVia(Pool(r), st.ligs[j].ins, r.ligs[j].ins, addFake)
      {
        assert s.ligs[j] == st.ligs[j];
      }
    }
  }

  /** The shortening pass leaves every ligature from i on with at most two
    * inputs and its last input, output, flag and context; its first input
    * stands for the old inputs before the last through a chain of two-input
    * ligatures of the resulting tables, found or invented on the way (or
    * is -1 when one was missing and none could be invented). The pass adds
    * fake codes only, keeps every two-input ligature, and leaves no
    * reference dangling. */
  lemma ShortenFromSound(st: LigState, i: nat, addFake: bool)
    requires LigValid(st)
    ensures Grown(st, ShortenFrom(st, i, addFake)) && LigValid(ShortenFrom(st, i, addFake))
    ensures forall j :: 0 <= j < |st.ligs| && j < i ==> ShortenFrom(st, i, addFake).ligs[j] == st.ligs[j]
    ensures forall j :: i <= j < |st.ligs| ==>
      Shortened(st.ligs[j], ShortenFrom(st, i, addFake).ligs[j]) && |ShortenFrom(st, i, addFake).ligs[j].ins| <= 2
    ensures PairsKept(Pool(st), Pool(ShortenFrom(st, i, addFake)))
    ensures forall j :: i <= j < |st.ligs| ==>
      ShortenedVia(Pool(ShortenFrom(st, i, addFake)), st.ligs[j].ins, ShortenFrom(st, i, addFake).ligs[j].ins, addFake)
  {
    ShortenFromShape(st, i, addFake);
    ShortenFromChain(st, i, addFake);
  }

  // Removing shadowed ligatures.

  /** `l`'s inputs begin with all of `p`'s. */
  predicate Covers(p: Ligature, l: Ligature)
  {
    |l.ins| >= |p.ins| && l.ins[..|p.ins|] == p.ins
  }

  /** Outer turn i of the redundancy pass: if ligature i is live, every later
    * ligature whose inputs begin with its inputs is removed. */
  function SieveStep(ls: seq<Ligature>, i: nat): (r: seq<Ligature>)
    requires HaveInputs(ls) && i < |ls|
    ensures |r| == |ls| && HaveInputs(r)
  {
    if ls[i].ins[0] < 0 then ls
    else seq(|ls|, j requires 0 <= j < |ls| => if j > i && Covers(ls[i], ls[j]) then Kill(ls[j]) else ls[j])
  }

  /** The redundancy pass from outer turn i on. */
  function Sieve(ls: seq<Ligature>, i: nat): (r: seq<Ligature>)
    requires HaveInputs(ls) && i <= |ls|
    ensures |r| == |ls| && HaveInputs(r)
    decreases |ls| - i
  {
    if i == |ls| then ls else Sieve(SieveStep(ls, i), i + 1)
  }

  /** Ligature j of `ls0` was removed by a live ligature before i. */
  ghost predicate ShadowedBefore(ls0: seq<Ligature>, ls: seq<Ligature>, j: int, i: int)
    requires |ls0| == |ls| && 0 <= j < |ls|
  {
    exists a :: 0 <= a < j && a < i && Live(ls[a]) && Covers(ls[a], ls0[j])
  }

  /** What holds of the tables after outer turns 0 .. i-1. */
  ghost predicate SieveInv(ls0: seq<Ligature>, ls: seq<Ligature>, i: int)
  {
    HaveInputs(ls0) && |ls| == |ls0| &&
    (forall j :: 0 <= j < |ls| ==> ls[j] == ls0[j] || ls[j] == Kill(ls0[j])) &&
    (forall a, b :: 0 <= a < b < |ls| && a < i && Live(ls[a]) && Live(ls[b]) ==> !Covers(ls[a], ls[b])) &&
    (forall j :: 0 <= j < |ls| && ls[j] != ls0[j] ==> ShadowedBefore(ls0, ls, j, i))
  }

  lemma SieveStepInv(ls0: seq<Ligature>, ls: seq<Ligature>, i: nat)
    requires i < |ls| && SieveInv(ls0, ls, i)
    ensures SieveInv(ls0, SieveStep(ls, i), i + 1)
  {
    var r := SieveStep(ls, i);
    assert forall a :: 0 <= a <= i ==> r[a] == ls[a];
    forall j | 0 <= j < |r| && r[j] != ls0[j] ensures ShadowedBefore(ls0, r, j, i + 1) {
      if ls[j] != ls0[j] {
        var a :| 0 <= a < j && a < i && Live(ls[a]) && Covers(ls[a], ls0[j]);
        assert r[a] == ls[a];
      } else {
        assert Live(r[i]) && Covers(r[i], ls0[j]);
      }
    }
  }

  lemma {:induction false} SieveSound(ls0: seq<Ligature>, ls: seq<Ligature>, i: nat)
    requires i <= |ls| && SieveInv(ls0, ls, i)
    ensures SieveInv(ls0, Sieve(ls, i), |ls|)
    decreases |ls| - i
  {
    if i < |ls| {
      SieveStepInv(ls0, ls, i);
      SieveSound(ls0, SieveStep(ls, i), i + 1);
    }
  }

  /** The redundancy pass leaves no live ligature shadowed by an earlier
    * live one, removes only ligatures so shadowed, and changes nothing but
    * the first input of a removed ligature. */
  lemma RemovedRedundant(ls: seq<Ligature>)
    requires HaveInputs(ls)
    ensures forall j :: 0 <= j < |ls| ==> Sieve(ls, 0)[j] == ls[j] || Sieve(ls, 0)[j] == Kill(ls[j])
    ensures forall a, b :: 0 <= a < b < |ls| && Live(Sieve(ls, 0)[a]) && Live(Sieve(ls, 0)[b]) ==>
      !Covers(Sieve(ls, 0)[a], Sieve(ls, 0)[b])
    ensures forall j :: 0 <= j < |ls| && Sieve(ls, 0)[j] != ls[j] ==> ShadowedBefore(ls, Sieve(ls, 0), j, j)
  {
    SieveSound(ls, ls, 0);
    var r := Sieve(ls, 0);
    forall j | 0 <= j < |ls| && r[j] != ls[j] ensures ShadowedBefore(ls, r, j, j) {
      assert ShadowedBefore(ls, r, j, |ls|);
      var a :| 0 <= a < j && a < |ls| && Live(r[a]) && Covers(r[a], ls[j]);
      assert 0 <= a < j && a < j && Live(r[a]) && Covers(r[a], ls[j]);
    }
  }

  // Removing null ligatures.

  /** A ligature that maps a code to itself and has no other effect. */
  predicate IsNull(l: Ligature)
  {
    |l.ins| >= 1 && l.ins[0] >= 0 && l.context >= 0 && |l.ins| == l.context + 1 && l.ins[0] == l.out
  }

  function NullRemoved(ls: seq<Ligature>): (r: seq<Ligature>)
    requires HaveInputs(ls)
    ensures |r| == |ls| && HaveInputs(r)
  {
    seq(|ls|, i requires 0 <= i < |ls| => if IsNull(ls[i]) then Kill(ls[i]) else ls[i])
  }

  /** The null pass leaves no null ligature and removes only null ones. */
  lemma {:induction false} NullsGone(ls: seq<Ligature>)
    requires HaveInputs(ls)
    ensures forall i :: 0 <= i < |ls| ==> !IsNull(NullRemoved(ls)[i])
    ensures forall i :: 0 <= i < |ls| ==> NullRemoved(ls)[i] == ls[i] || (IsNull(ls[i]) && NullRemoved(ls)[i] == Kill(ls[i]))
  {
  }

  /** Removing (setting a first input to -1) keeps every reference in range. */
  lemma KilledIn(ls: seq<Ligature>, r: seq<Ligature>, n: int)
    requires LigaturesIn(ls, n) && HaveInputs(ls) && |r| == |ls|
    requires forall j :: 0 <= j < |ls| ==> r[j] == ls[j] || r[j] == Kill(ls[j])
    ensures LigaturesIn(r, n)
  {
    forall j | 0 <= j < |r| ensures LigatureIn(r[j], n) {
      assert LigatureIn(ls[j], n);
    }
  }

  /** The tables after the marking and shortening passes. */
  function ShortenPass(st: LigState, addFake: bool): (r: LigState)
    requires HaveInputs(st.ligs)
    ensures |r.ligs| == |st.ligs| && HaveInputs(r.ligs)
  {
    ShortenFrom(st.(ligs := MarkedSkippable(st.ligs)), 0, addFake)
  }

  /** The whole of `simplify_ligatures` on the tables it reads. */
  function SimplifiedLigatures(st: LigState, addFake: bool): (r: LigState)
    requires HaveInputs(st.ligs)
  {
    var s := ShortenPass(st, addFake);
    s.(ligs := NullRemoved(Sieve(s.ligs, 0)))
  }

  lemma MarkedIn(ls: seq<Ligature>, n: int)
    requires LigaturesIn(ls, n) && HaveInputs(ls)
    ensures LigaturesIn(MarkedSkippable(ls), n)
  {
    forall i | 0 <= i < |ls| ensures LigatureIn(MarkedSkippable(ls)[i], n) {
      assert LigatureIn(ls[i], n);
    }
  }

  /** After `simplify_ligatures` every ligature has at most two inputs and
    * keeps its output and context; it is left non-skippable exactly when
    * its output started no ligature before the pass or it was not
    * skippable to begin with.  The tables grew by fake codes only, and no
    * reference dangles. */
  lemma SimplifiedLigaturesSound(st: LigState, addFake: bool)
    requires LigValid(st)
    ensures Grown(st, SimplifiedLigatures(st, addFake)) && LigValid(SimplifiedLigatures(st, addFake))
    ensures |SimplifiedLigatures(st, addFake).ligs| == |st.ligs|
    ensures forall i :: 0 <= i < |st.ligs| ==> |SimplifiedLigatures(st, addFake).ligs[i].ins| <= 2
    ensures forall i :: 0 <= i < |st.ligs| ==>
      var l := SimplifiedLigatures(st, addFake).ligs[i];
      l.out == st.ligs[i].out && l.context == st.ligs[i].context &&
      l.skip == (st.ligs[i].skip && StartsSome(st.ligs, st.ligs[i].out))
  {
    var m := st.(ligs := MarkedSkippable(st.ligs));
    MarkedIn(st.ligs, |st.enc|);
    var s := ShortenFrom(m, 0, addFake);
    ShortenFromSound(m, 0, addFake);
    var sv := Sieve(s.ligs, 0);
    RemovedRedundant(s.ligs);
    KilledIn(s.ligs, sv, |s.enc|);
    NullsGone(sv);
    KilledIn(sv, NullRemoved(sv), |s.enc|);
    assert forall i :: 0 <= i < |st.ligs| ==> |NullRemoved(sv)[i].ins| == |sv[i].ins| == |s.ligs[i].ins|;
    forall i | 0 <= i < |st.ligs|
      ensures NullRemoved(sv)[i].out == st.ligs[i].out && NullRemoved(sv)[i].context == st.ligs[i].context &&
        NullRemoved(sv)[i].skip == (st.ligs[i].skip && StartsSome(st.ligs, st.ligs[i].out))
    {
      assert Shortened(m.ligs[i], s.ligs[i]);
    }
  }

  /** The two removal passes of `simplify_ligatures` only remove: each
    * ligature ends as it was after shortening, or removed.  The first
    * input of each ligature after shortening stands, through a chain of
    * two-input ligatures in the tables as they then are, for all but the
    * last of its original inputs. */
  lemma SimplifiedLigaturesChain(st: LigState, addFake: bool)
    requires LigValid(st)
    ensures SimplifiedLigatures(st, addFake).enc == ShortenPass(st, addFake).enc
    ensures SimplifiedLigatures(st, addFake).fakes == ShortenPass(st, addFake).fakes
    ensures forall i :: 0 <= i < |st.ligs| ==>
      SimplifiedLigatures(st, addFake).ligs[i] == ShortenPass(st, addFake).ligs[i] ||
      SimplifiedLigatures(st, addFake).ligs[i] == Kill(ShortenPass(st, addFake).ligs[i])
    ensures forall i :: 0 <= i < |st.ligs| ==>
      ShortenedVia(Pool(ShortenPass(st, addFake)), st.ligs[i].ins, ShortenPass(st, addFake).ligs[i].ins, addFake)
  {
    var m := st.(ligs := MarkedSkippable(st.ligs));
    MarkedIn(st.ligs, |st.enc|);
    var s := ShortenPass(st, addFake);
    ShortenFromChain(m, 0, addFake);
    RemovalsOnly(s.ligs);
    forall i | 0 <= i < |st.ligs|
      ensures ShortenedVia(Pool(s), st.ligs[i].ins, s.ligs[i].ins, addFake)
    {
      assert m.ligs[i].ins == st.ligs[i].ins;
    }
  }

  /** The redundancy and null passes only remove ligatures. */
  lemma RemovalsOnly(ls: seq<Ligature>)
    requires HaveInputs(ls)
    ensures forall i :: 0 <= i < |ls| ==>
      NullRemoved(Sieve(ls, 0))[i] == ls[i] || NullRemoved(Sieve(ls, 0))[i] == Kill(ls[i])
  {
    var sv := Sieve(ls, 0);
    RemovedRedundant(ls);
    NullsGone(sv);
    forall i | 0 <= i < |ls|
      ensures NullRemoved(sv)[i] == ls[i] || NullRemoved(sv)[i] == Kill(ls[i])
    {
      if sv[i] != ls[i] {
        assert sv[i] == Kill(ls[i]);
        assert !IsNull(sv[i]);
      }
    }
  }
}
