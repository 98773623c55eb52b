/**
 * `shrink_encoding` as written, beside the corrected passes the engine
 * model uses.  Two places differ from what the function evidently means:
 * the second placement pass stops avoiding the target encoding's codes
 * only after passing over a code, not after filling one, so a glyph can be
 * dropped while a code below `size` is still empty; and the warning lists
 * the glyph of every slot from the one the pass stopped at, including
 * glyphs the first pass already placed.
 */
module ShrinkFindings {
  import opened Compaction

  /** The first placement pass: each glyph takes the code the target
    * encoding gives it, when that code is empty. */
  function PreferPass(enc: seq<int>, slots: seq<Slot>, ref: Reference, k: nat): (r: (seq<int>, seq<Slot>))
    requires forall g :: g in ref.preferred ==> ref.preferred[g] < |enc|
    ensures |r.0| == |enc| && |r.1| == |slots|
    ensures forall i :: 0 <= i < |slots| ==> r.1[i].position == slots[i].position && r.1[i].value == slots[i].value
    decreases |slots| - k
  {
    if k >= |slots| then (enc, slots)
    else
      var e := PreferredCode(ref, slots[k].value);
      if e >= 0 && enc[e] == 0 then
        PreferPass(enc[e := slots[k].value], slots[k := slots[k].(newPosition := e)], ref, k + 1)
      else PreferPass(enc, slots, ref, k + 1)
  }

  /** Where the second pass stands: the table, the slots, the next slot,
    * the next code and whether codes of the target encoding are avoided. */
  datatype SweepState = SweepState(enc: seq<int>, slots: seq<Slot>, slotnum: int, e: int, avoid: bool)

  /** The second placement pass exactly as written: after filling code e
    * the pass moves to e + 1 without the check, made only after passing a
    * code over, that restarts it from code 0 with avoidance off. */
  function SweepAsWritten(enc: seq<int>, slots: seq<Slot>, size: nat, encoded: set<int>,
                          slotnum: nat, e: nat, avoid: bool): (r: SweepState)
    requires size <= |enc|
    ensures |r.enc| == |enc| && |r.slots| == |slots|
    ensures r.slotnum >= |slots| || r.e >= size
    ensures forall i :: 0 <= i < |slots| ==> r.slots[i].position == slots[i].position && r.slots[i].value == slots[i].value
    decreases if avoid then 1 else 0, size - e + |slots| - slotnum
  {
    if slotnum >= |slots| || e >= size then SweepState(enc, slots, slotnum, e, avoid)
    else if slots[slotnum].newPosition >= 0 then SweepAsWritten(enc, slots, size, encoded, slotnum + 1, e, avoid)
    else if enc[e] == 0 && (!avoid || e !in encoded) then
      SweepAsWritten(enc[e := slots[slotnum].value], slots[slotnum := slots[slotnum].(newPosition := e)],
                     size, encoded, slotnum + 1, e + 1, avoid)
    else if e + 1 >= size && avoid then SweepAsWritten(enc, slots, size, encoded, slotnum, 0, false)
    else SweepAsWritten(enc, slots, size, encoded, slotnum, e + 1, avoid)
  }

  /** The glyphs the warning lists as written: the glyph at the old code of
    * every slot from `slotnum` on, placed or not. */
  function ReportedAsWritten(enc: seq<int>, slots: seq<Slot>, slotnum: nat): (u: seq<int>)
    requires forall i :: 0 <= i < |slots| ==> 0 <= slots[i].position < |enc|
    ensures |u| == if slotnum <= |slots| then |slots| - slotnum else 0
    ensures forall i :: 0 <= i < |u| ==> u[i] == enc[slots[slotnum + i].position]
    decreases |slots| - slotnum
  {
    if slotnum >= |slots| then [] else [enc[slots[slotnum].position]] + ReportedAsWritten(enc, slots, slotnum + 1)
  }

  /** Codes 0 and 1 are empty, the target encoding uses code 0, and glyphs
    * 7 and 9 sit at codes 2 and 3 with no preferred code.  The pass passes
    * code 0 over, puts 7 at code 1, reaches e == size still avoiding, and
    * stops: glyph 9 is left unplaced although code 0 is empty, which the
    * corrected pass (`GsubEncoding.PlaceRemaining`) never does. */
  lemma SweepAsWrittenDropsEarly()
    ensures var r := SweepAsWritten([0, 0, 7, 9], [Slot(2, -1, 7), Slot(3, -1, 9)], 2, {0}, 0, 0, true);
      r.slots[1].newPosition == -1 && r.enc[0] == 0 && r.avoid
  {
    var enc, slots := [0, 0, 7, 9], [Slot(2, -1, 7), Slot(3, -1, 9)];
    var enc1, slots1 := enc[1 := 7], slots[0 := slots[0].(newPosition := 1)];
    assert SweepAsWritten(enc, slots, 2, {0}, 0, 0, true) == SweepAsWritten(enc, slots, 2, {0}, 0, 1, true);
    assert SweepAsWritten(enc, slots, 2, {0}, 0, 1, true) == SweepAsWritten(enc1, slots1, 2, {0}, 1, 2, true);
    assert SweepAsWritten(enc1, slots1, 2, {0}, 1, 2, true) == SweepState(enc1, slots1, 1, 2, true);
  }

  /** Code 0 is empty, glyph 5 sits at code 1 with no preferred code and
    * glyph 7 at code 2 prefers code 0.  The first pass puts 7 at code 0;
    * the second pass finds no empty code and stops at slot 0, so the
    * warning lists 5 and 7, though only 5 is dropped (the corrected list,
    * `GsubEncoding.UnencodableGlyphs`, is `UnplacedValues`). */
  lemma ReportedAsWrittenListsPlaced()
    ensures var ref := Reference(map[7 := 0], {0});
      var p := PreferPass([0, 5, 7], [Slot(1, -1, 5), Slot(2, -1, 7)], ref, 0);
      var r := SweepAsWritten(p.0, p.1, 1, ref.encoded, 0, 0, true);
      r.slots[1].newPosition == 0 &&
      ReportedAsWritten(r.enc, r.slots, r.slotnum) == [5, 7] && UnplacedValues(r.slots) == [5]
  {
    var ref := Reference(map[7 := 0], {0});
    var enc, slots := [0, 5, 7], [Slot(1, -1, 5), Slot(2, -1, 7)];
    var enc1, slots1 := [7, 5, 7], [Slot(1, -1, 5), Slot(2, 0, 7)];
    assert PreferredCode(ref, 5) == -1 && PreferredCode(ref, 7) == 0;
    assert PreferPass(enc, slots, ref, 0) == PreferPass(enc, slots, ref, 1);
    assert enc[0 := 7] == enc1 && slots[1 := slots[1].(newPosition := 0)] == slots1;
    assert PreferPass(enc, slots, ref, 1) == PreferPass(enc1, slots1, ref, 2) == (enc1, slots1);
    assert SweepAsWritten(enc1, slots1, 1, {0}, 0, 0, true) == SweepAsWritten(enc1, slots1, 1, {0}, 0, 0, false);
    assert SweepAsWritten(enc1, slots1, 1, {0}, 0, 0, false) == SweepAsWritten(enc1, slots1, 1, {0}, 0, 1, false);
    assert SweepAsWritten(enc1, slots1, 1, {0}, 0, 1, false) == SweepState(enc1, slots1, 0, 1, false);
    assert ReportedAsWritten(enc1, slots1, 0) == [enc1[1], enc1[2]];
    assert slots1[..1] == [Slot(1, -1, 5)];
    assert UnplacedValues(slots1[..1]) == [5];
  }
}
