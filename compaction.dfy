/**
 * Compaction of the code table to a given size.  A reassignment is indexed
 * by old code + 1, so that entry 0 maps the "no code" value -1.
 * `cut_encoding` keeps the codes below the size and drops the rest;
 * `shrink_encoding` first moves the glyphs of the high codes into empty
 * low codes.  The glyphs to move are "slots", ordered by glyph value.
 */
module Compaction {
  import opened Tables
  import opened Sorting

  /** The reassignment of `cut_encoding`: codes -1 .. size-1 are kept, codes
    * size .. n-1 become -1. */
  function CutMap(n: int, size: int): (r: seq<int>)
    requires 0 <= size <= n
    ensures |r| == n + 1
    ensures MapsInto(r, size)
    ensures forall k :: 0 <= k <= size ==> r[k] == k - 1
    ensures forall k :: size < k <= n ==> r[k] == -1
  {
    seq(n + 1, k => if k - 1 < size then k - 1 else -1)
  }

  /** A glyph found at a high code: where it was, where it goes (-1 while
    * unplaced), and the glyph. */
  datatype Slot = Slot(position: int, newPosition: int, value: int)

  /** Slots are ordered by glyph value only. */
  function SlotKey(s: Slot): (int, int)
  {
    (s.value, 0)
  }

  /** What `shrink_encoding` asks of the target encoding: the code (if any)
    * that the name of each glyph has in it, and the codes it uses. */
  datatype Reference = Reference(preferred: map<int, int>, encoded: set<int>)

  /** The code the target encoding prefers for glyph `g`, or -1. */
  function PreferredCode(ref: Reference, g: int): int
  {
    if g in ref.preferred then ref.preferred[g] else -1
  }

  /** The slots `shrink_encoding` collects from codes size .. k-1, in code
    * order: one per code holding a glyph. */
  function HighSlots(enc: seq<int>, size: int, k: int): (s: seq<Slot>)
    requires 0 <= size && k <= |enc|
    ensures forall i :: 0 <= i < |s| ==>
      size <= s[i].position < k && s[i].newPosition == -1 && s[i].value == enc[s[i].position] && s[i].value != 0
    ensures forall i, j :: 0 <= i < j < |s| ==> s[i].position < s[j].position
    ensures forall c :: size <= c < k && enc[c] != 0 ==> Slot(c, -1, enc[c]) in s
    decreases k
  {
    if k <= size then []
    else HighSlots(enc, size, k - 1) + (if enc[k - 1] != 0 then [Slot(k - 1, -1, enc[k - 1])] else [])
  }

  /** A slot as collected from code table `enc` above `size`: it names a
    * high code and the glyph there. */
  predicate FromHighCode(s: Slot, enc: seq<int>, size: nat)
  {
    size <= s.position < |enc| && s.value == enc[s.position] && s.value != 0
  }

  /** Code c is at or above `size` and holds a glyph. */
  predicate HighGlyph(enc: seq<int>, size: nat, c: int)
  {
    size <= c < |enc| && enc[c] != 0
  }

  /** One slot per high code holding a glyph, and no other. */
  ghost predicate SlotsFrom(slots: seq<Slot>, enc: seq<int>, size: nat)
  {
    (forall i :: 0 <= i < |slots| ==> FromHighCode(slots[i], enc, size)) &&
    (forall i, j :: 0 <= i < j < |slots| ==> slots[i].position != slots[j].position) &&
    (forall c :: HighGlyph(enc, size, c) ==> exists i :: 0 <= i < |slots| && slots[i].position == c)
  }

  ghost predicate Unplaced(slots: seq<Slot>)
  {
    forall i :: 0 <= i < |slots| ==> slots[i].newPosition == -1
  }

  /** The sorted slots are one per high code holding a glyph, none placed
    * yet, ordered by glyph value. */
  lemma SortedSlots(enc: seq<int>, size: nat)
    ensures SlotsFrom(SortBy(HighSlots(enc, size, |enc|), SlotKey), enc, size)
    ensures Unplaced(SortBy(HighSlots(enc, size, |enc|), SlotKey))
    ensures SortedBy(SortBy(HighSlots(enc, size, |enc|), SlotKey), SlotKey)
  {
    var s := HighSlots(enc, size, |enc|);
    var t := SortBy(s, SlotKey);
    SortPermutes(s, SlotKey);
    SortSorted(s, SlotKey);
    forall i | 0 <= i < |t| ensures FromHighCode(t[i], enc, size) && t[i].newPosition == -1 {
      assert t[i] in multiset(s);
    }
    SortDistinct(s, SlotKey);
    forall c | HighGlyph(enc, size, c) ensures exists i :: 0 <= i < |t| && t[i].position == c {
      assert Slot(c, -1, enc[c]) in multiset(t);
    }
  }

  /** Two slot lists name the same glyphs at the same high codes. */
  ghost predicate SameGlyphs(a: seq<Slot>, b: seq<Slot>)
  {
    |a| == |b| && forall i :: 0 <= i < |a| ==> a[i].position == b[i].position && a[i].value == b[i].value
  }

  lemma SameGlyphsFrom(a: seq<Slot>, b: seq<Slot>, enc: seq<int>, size: nat)
    requires SlotsFrom(a, enc, size) && SameGlyphs(a, b)
    ensures SlotsFrom(b, enc, size)
  {
    forall c | HighGlyph(enc, size, c) ensures exists i :: 0 <= i < |b| && b[i].position == c {
      var i :| 0 <= i < |a| && a[i].position == c;
      assert b[i].position == c;
    }
  }

  /** Some slot was placed at code c. */
  ghost predicate PlacedAt(slots: seq<Slot>, c: int)
  {
    exists i :: 0 <= i < |slots| && slots[i].newPosition == c
  }

  /** The placements recorded in `slots` took `enc0` to `enc`: each placed
    * glyph went into a distinct code below `size` that was empty, and
    * every code that changed received a placed glyph. */
  ghost predicate PlacedIn(slots: seq<Slot>, enc0: seq<int>, enc: seq<int>, size: nat)
  {
    |enc| == |enc0| &&
    (forall i :: 0 <= i < |slots| ==> -1 <= slots[i].newPosition < size) &&
    (forall i :: 0 <= i < |slots| && slots[i].newPosition >= 0 ==>
      slots[i].newPosition < |enc| && enc0[slots[i].newPosition] == 0 && enc[slots[i].newPosition] == slots[i].value) &&
    (forall i, j :: 0 <= i < j < |slots| && slots[i].newPosition >= 0 ==> slots[i].newPosition != slots[j].newPosition) &&
    (forall c :: 0 <= c < |enc| && enc[c] != enc0[c] ==> c < size && enc0[c] == 0 && PlacedAt(slots, c))
  }

  /** Nothing has been placed yet. */
  lemma PlacedInNone(slots: seq<Slot>, enc: seq<int>, size: nat)
    requires Unplaced(slots)
    ensures PlacedIn(slots, enc, enc, size)
  {
  }

  /** Placing slot k, still unplaced, into the empty
    * code e below `size` keeps the placements consistent. */
  lemma PlaceOne(slots: seq<Slot>, enc0: seq<int>, enc: seq<int>, size: nat, k: int, e: int)
    requires PlacedIn(slots, enc0, enc, size)
    requires forall i :: 0 <= i < |slots| ==> slots[i].value != 0
    requires 0 <= k < |slots| && slots[k].newPosition == -1
    requires 0 <= e < size && e < |enc| && enc[e] == 0
    ensures PlacedIn(slots[k := slots[k].(newPosition := e)], enc0, enc[e := slots[k].value], size)
  {
    var slots', enc' := slots[k := slots[k].(newPosition := e)], enc[e := slots[k].value];
    assert enc0[e] == 0;
    forall i | 0 <= i < |slots'| && slots'[i].newPosition >= 0 && i != k
      ensures slots'[i].newPosition != e
    {
      assert enc[slots[i].newPosition] != 0;
    }
    forall c | 0 <= c < |enc'| && enc'[c] != enc0[c] ensures c < size && enc0[c] == 0 && PlacedAt(slots', c) {
      if c == e {
        assert slots'[k].newPosition == c;
      } else {
        var i :| 0 <= i < |slots| && slots[i].newPosition == c;
        assert slots'[i].newPosition == c;
      }
    }
  }

  /** The state of the first placement pass of `shrink_encoding` with
    * `slotnum` slots done: the later slots are untouched, every placed
    * slot sits at its glyph's preferred code, every code filled holds a
    * glyph preferring it, and the preferred code of each glyph done is
    * taken. */
  ghost predicate Preferring(slots0: seq<Slot>, slots: seq<Slot>, enc0: seq<int>, enc: seq<int>,
                             size: nat, ref: Reference, slotnum: int)
  {
    0 <= slotnum <= |slots| && size <= |enc| && Unplaced(slots0) &&
    SameGlyphs(slots0, slots) && PlacedIn(slots, enc0, enc, size) &&
    (forall i :: 0 <= i < |slots| ==> slots[i].value != 0) &&
    (forall i :: slotnum <= i < |slots| ==> slots[i] == slots0[i]) &&
    (forall i :: 0 <= i < |slots| && slots[i].newPosition >= 0 ==> slots[i].newPosition == PreferredCode(ref, slots[i].value)) &&
    (forall c :: 0 <= c < |enc| && enc[c] != enc0[c] ==> PreferredCode(ref, enc[c]) == c) &&
    (forall i :: 0 <= i < slotnum ==> PreferredOutcome(ref, slots[i].value, enc0, enc))
  }

  lemma PreferStart(slots0: seq<Slot>, enc: seq<int>, size: nat, ref: Reference)
    requires size <= |enc| && Unplaced(slots0) && forall i :: 0 <= i < |slots0| ==> slots0[i].value != 0
    ensures Preferring(slots0, slots0, enc, enc, size, ref, 0)
  {
  }

  /** The next glyph takes its preferred code, which is empty. */
  lemma PreferPlace(slots0: seq<Slot>, slots: seq<Slot>, enc0: seq<int>, enc: seq<int>,
                    size: nat, ref: Reference, slotnum: int, e: int)
    requires Preferring(slots0, slots, enc0, enc, size, ref, slotnum) && slotnum < |slots|
    requires e == PreferredCode(ref, slots[slotnum].value) && 0 <= e < size && enc[e] == 0
    ensures Preferring(slots0, slots[slotnum := slots[slotnum].(newPosition := e)], enc0,
                       enc[e := slots[slotnum].value], size, ref, slotnum + 1)
  {
    PlaceOne(slots, enc0, enc, size, slotnum, e);
    var slots', enc' := slots[slotnum := slots[slotnum].(newPosition := e)], enc[e := slots[slotnum].value];
    forall i | 0 <= i < slotnum + 1 ensures PreferredOutcome(ref, slots'[i].value, enc0, enc') {
      if i < slotnum {
        assert PreferredOutcome(ref, slots[i].value, enc0, enc);
      }
    }
  }

  /** The next glyph has no preferred code, or it is taken. */
  lemma PreferSkip(slots0: seq<Slot>, slots: seq<Slot>, enc0: seq<int>, enc: seq<int>,
                   size: nat, ref: Reference, slotnum: int)
    requires Preferring(slots0, slots, enc0, enc, size, ref, slotnum) && slotnum < |slots|
    requires var e := PreferredCode(ref, slots[slotnum].value); e < 0 || (e < |enc| && enc[e] != 0)
    ensures Preferring(slots0, slots, enc0, enc, size, ref, slotnum + 1)
  {
  }

  /** Where the second placement pass of `shrink_encoding` looks after code
    * e, and whether it still avoids the codes the target encoding uses:
    * past the last code of the avoiding sweep it starts over at code 0,
    * no longer avoiding. */
  function NextCode(e: int, avoid: bool, size: int): (next: (int, bool))
    ensures next.0 == e + 1 || next == (0, false)
    ensures !avoid ==> next == (e + 1, false)
  {
    if e + 1 >= size && avoid then (0, false) else (e + 1, avoid)
  }

  /** The state of the second placement pass, with `slotnum` slots done and
    * code e next: the slots before `slotnum` are placed, the later ones
    * untouched, the first pass's placements kept, glyphs already in the
    * table stay, and once no longer avoiding, every code before e is
    * taken.  enc1 is the table when the pass began. */
  ghost predicate Sweeping(slots0: seq<Slot>, slots: seq<Slot>, enc0: seq<int>, enc1: seq<int>, enc: seq<int>,
                           size: nat, slotnum: int, e: int, avoid: bool)
  {
    0 <= slotnum <= |slots| && 0 <= e <= size && size <= |enc| == |enc1| &&
    SameGlyphs(slots0, slots) && PlacedIn(slots, enc0, enc, size) &&
    (forall i :: 0 <= i < |slots| ==> slots[i].value != 0) &&
    (forall i :: slotnum <= i < |slots| ==> slots[i] == slots0[i]) &&
    (forall i :: 0 <= i < slotnum ==> slots[i].newPosition >= 0) &&
    (forall i :: 0 <= i < |slots| && slots0[i].newPosition >= 0 ==> slots[i] == slots0[i]) &&
    (forall c :: 0 <= c < |enc| && enc1[c] != 0 ==> enc[c] == enc1[c]) &&
    (!avoid ==> forall c :: 0 <= c < e ==> enc[c] != 0) &&
    (avoid ==> e < size || size == 0)
  }

  lemma SweepStart(slots0: seq<Slot>, enc0: seq<int>, enc: seq<int>, size: nat)
    requires size <= |enc| && PlacedIn(slots0, enc0, enc, size)
    requires forall i :: 0 <= i < |slots0| ==> slots0[i].value != 0
    ensures Sweeping(slots0, slots0, enc0, enc, enc, size, 0, 0, true)
  {
  }

  /** A slot the first pass placed is passed over. */
  lemma SweepSkip(slots0: seq<Slot>, slots: seq<Slot>, enc0: seq<int>, enc1: seq<int>, enc: seq<int>,
                  size: nat, slotnum: int, e: int, avoid: bool)
    requires Sweeping(slots0, slots, enc0, enc1, enc, size, slotnum, e, avoid)
    requires slotnum < |slots| && slots[slotnum].newPosition >= 0
    ensures Sweeping(slots0, slots, enc0, enc1, enc, size, slotnum + 1, e, avoid)
  {
  }

  /** An unplaced slot goes into the empty code e. */
  lemma SweepPlace(slots0: seq<Slot>, slots: seq<Slot>, enc0: seq<int>, enc1: seq<int>, enc: seq<int>,
                   size: nat, slotnum: int, e: int, avoid: bool)
    requires Sweeping(slots0, slots, enc0, enc1, enc, size, slotnum, e, avoid)
    requires slotnum < |slots| && e < size && slots[slotnum].newPosition < 0 && enc[e] == 0
    ensures Sweeping(slots0, slots[slotnum := slots[slotnum].(newPosition := e)], enc0, enc1,
                     enc[e := slots[slotnum].value], size, slotnum + 1, NextCode(e, avoid, size).0, NextCode(e, avoid, size).1)
  {
    PlaceOne(slots, enc0, enc, size, slotnum, e);
  }

  /** Code e is passed over: taken, or (while avoiding) used by the target
    * encoding. */
  lemma SweepPass(slots0: seq<Slot>, slots: seq<Slot>, enc0: seq<int>, enc1: seq<int>, enc: seq<int>,
                  size: nat, slotnum: int, e: int, avoid: bool)
    requires Sweeping(slots0, slots, enc0, enc1, enc, size, slotnum, e, avoid)
    requires e < size && (enc[e] != 0 || avoid)
    ensures Sweeping(slots0, slots, enc0, enc1, enc, size, slotnum, NextCode(e, avoid, size).0, NextCode(e, avoid, size).1)
  {
  }

  /** When the pass stops, a glyph is left unplaced only if every code
    * below `size` is taken. */
  lemma SweepDone(slots0: seq<Slot>, slots: seq<Slot>, enc0: seq<int>, enc1: seq<int>, enc: seq<int>,
                  size: nat, slotnum: int, e: int, avoid: bool)
    requires Sweeping(slots0, slots, enc0, enc1, enc, size, slotnum, e, avoid)
    requires slotnum >= |slots| || e >= size
    ensures (exists i :: 0 <= i < |slots| && slots[i].newPosition < 0) ==> forall c :: 0 <= c < size ==> enc[c] != 0
  {
  }

  /** The glyphs of the slots left unplaced, in slot order: the glyphs
    * `shrink_encoding` reports as unencodable. */
  function UnplacedValues(slots: seq<Slot>): (r: seq<int>)
    ensures forall g :: g in r <==> exists i :: 0 <= i < |slots| && slots[i].newPosition < 0 && slots[i].value == g
  {
    if slots == [] then []
    else
      var init := slots[..|slots| - 1];
      var last := slots[|slots| - 1];
      assert forall i :: 0 <= i < |init| ==> init[i] == slots[i];
      UnplacedValues(init) + (if last.newPosition < 0 then [last.value] else [])
  }

  /** Builds the reassignment of `cut_encoding` the way the source does:
    * a table of -1 whose entries for codes -1 .. size-1 are then set. */
  method CutReassignment(n: int, size: int) returns (r: seq<int>)
    requires 0 <= size <= n
    ensures r == CutMap(n, size)
  {
    r := seq(n + 1, _ => -1);
    var i := -1;
    while i < size
      invariant -1 <= i <= size && |r| == n + 1
      invariant forall k :: 0 <= k <= i ==> r[k] == k - 1
      invariant forall k :: i < k <= n ==> r[k] == -1
    {
      r := r[i + 1 := i];
      i := i + 1;
    }
    while i < n
      invariant size <= i <= n && |r| == n + 1
      invariant forall k :: 0 <= k <= size ==> r[k] == k - 1
      invariant forall k :: size < k <= n ==> r[k] == -1
    {
      r := r[i + 1 := -1];
      i := i + 1;
    }
  }

  /** Builds the reassignment of `shrink_encoding` the way the source
    * does: codes -1 .. size-1 are set to themselves, then each slot's
    * entry is set to where the slot was placed. */
  method ShrinkReassignment(n: int, size: int, slots: seq<Slot>) returns (r: seq<int>)
    requires 0 <= size <= n
    requires forall k :: 0 <= k < |slots| ==> size <= slots[k].position < n
    ensures r == ShrinkMap(n, size, slots)
  {
    r := seq(n + 1, _ => -1);
    var i := -1;
    while i < size
      invariant -1 <= i <= size && |r| == n + 1
      invariant forall k :: 0 <= k <= i ==> r[k] == k - 1
      invariant forall k :: i < k <= n ==> r[k] == -1
    {
      r := r[i + 1 := i];
      i := i + 1;
    }
    assert r == ShrinkMap(n, size, slots[..0]);
    var s := 0;
    while s < |slots|
      invariant 0 <= s <= |slots| && r == ShrinkMap(n, size, slots[..s])
    {
      assert slots[..s + 1][..s] == slots[..s];
      r := r[slots[s].position + 1 := slots[s].newPosition];
      s := s + 1;
    }
    assert slots[..s] == slots;
  }

  /** After the preferred-code pass, a glyph's preferred code (when it has
    * one) is taken, and if it was free it went to a glyph preferring it. */
  ghost predicate PreferredOutcome(ref: Reference, g: int, enc0: seq<int>, enc: seq<int>)
  {
    var p := PreferredCode(ref, g);
    0 <= p < |enc| && p < |enc0| ==> enc[p] != 0 && (enc0[p] == 0 ==> PreferredCode(ref, enc[p]) == p)
  }

  /** Later placements, which only fill empty codes, keep that outcome. */
  lemma PreferredKept(slots: seq<Slot>, ref: Reference, enc0: seq<int>, enc1: seq<int>, enc2: seq<int>)
    requires |enc1| == |enc2|
    requires forall i :: 0 <= i < |slots| ==> PreferredOutcome(ref, slots[i].value, enc0, enc1)
    requires forall c :: 0 <= c < |enc1| && enc1[c] != 0 ==> enc2[c] == enc1[c]
    ensures forall i :: 0 <= i < |slots| ==> PreferredOutcome(ref, slots[i].value, enc0, enc2)
  {
  }

  /** The codes below `size` keep their numbers, and their glyphs. */
  ghost predicate KeepsLowCodes(E: seq<int>, N: seq<int>, r: seq<int>, size: nat)
  {
    size < |E| && |N| == size && |r| == |E| + 1 && MapsInto(r, size) &&
    (forall k :: 0 <= k <= size ==> r[k] == k - 1) &&
    (forall c :: 0 <= c < size && E[c] != 0 ==> N[c] == E[c])
  }

  /** An empty high code is dropped; a moved glyph lands in a distinct code
    * that was empty; every code that changed received a moved glyph. */
  ghost predicate MovesIntoHoles(E: seq<int>, N: seq<int>, r: seq<int>, size: nat)
    requires KeepsLowCodes(E, N, r, size)
  {
    (forall k :: size < k <= |E| && r[k] >= 0 ==> E[k - 1] != 0 && E[r[k]] == 0 && N[r[k]] == E[k - 1]) &&
    (forall k1, k2 :: size < k1 < k2 <= |E| && r[k1] >= 0 ==> r[k1] != r[k2]) &&
    (forall c :: 0 <= c < size && N[c] != E[c] ==> E[c] == 0 && exists k :: size < k <= |E| && r[k] == c)
  }

  /** A free code that a moved glyph prefers goes to a glyph preferring it. */
  ghost predicate HonorsPreferred(E: seq<int>, N: seq<int>, size: nat, ref: Reference)
    requires size < |E| && |N| == size
  {
    forall c :: size <= c < |E| && E[c] != 0 ==>
      var p := PreferredCode(ref, E[c]);
      0 <= p < size && E[p] == 0 ==> PreferredCode(ref, N[p]) == p
  }

  /** A glyph is dropped only when every code below `size` is taken, and
    * the report names exactly the dropped glyphs. */
  ghost predicate DropsOnlyWhenFull(E: seq<int>, N: seq<int>, r: seq<int>, size: nat, dropped: seq<int>)
    requires KeepsLowCodes(E, N, r, size)
  {
    ((exists k :: size < k <= |E| && E[k - 1] != 0 && r[k] == -1) ==> forall c :: 0 <= c < size ==> N[c] != 0) &&
    (forall g :: g in dropped <==> exists k :: size < k <= |E| && E[k - 1] == g && g != 0 && r[k] == -1)
  }

  /** What `shrink_encoding` promises, in terms of the old code table E, the
    * new one N of `size` codes, the reassignment r (indexed by old code
    * + 1) and the glyphs it reports as unencodable. */
  ghost predicate Shrunk(E: seq<int>, N: seq<int>, r: seq<int>, size: nat, ref: Reference, dropped: seq<int>)
  {
    KeepsLowCodes(E, N, r, size) && MovesIntoHoles(E, N, r, size) &&
    HonorsPreferred(E, N, size, ref) && DropsOnlyWhenFull(E, N, r, size, dropped)
  }

  /** The reassignment of `shrink_encoding`, indexed by old code + 1: it
    * starts as the reassignment of `cut_encoding`, then each slot in turn
    * sends its code where the slot was placed (-1 if nowhere). */
  function ShrinkMap(n: int, size: int, slots: seq<Slot>): (r: seq<int>)
    requires 0 <= size <= n
    ensures |r| == n + 1
  {
    if slots == [] then CutMap(n, size)
    else
      var m := ShrinkMap(n, size, slots[..|slots| - 1]);
      var last := slots[|slots| - 1];
      if 0 <= last.position + 1 <= n then m[last.position + 1 := last.newPosition] else m
  }

  /** The codes below `size` keep their numbers. */
  lemma {:induction false} ShrinkMapLow(n: int, size: int, slots: seq<Slot>)
    requires 0 <= size <= n
    requires forall j :: 0 <= j < |slots| ==> size <= slots[j].position
    ensures forall k :: 0 <= k <= size ==> ShrinkMap(n, size, slots)[k] == k - 1
  {
    if slots != [] {
      ShrinkMapLow(n, size, slots[..|slots| - 1]);
    }
  }

  /** With distinct positions, a slot's entry is where it was placed. */
  lemma {:induction false} ShrinkMapAt(n: int, size: int, slots: seq<Slot>, j: int)
    requires 0 <= size <= n && 0 <= j < |slots| && 0 <= slots[j].position < n
    requires forall i, i' :: 0 <= i < i' < |slots| ==> slots[i].position != slots[i'].position
    ensures ShrinkMap(n, size, slots)[slots[j].position + 1] == slots[j].newPosition
  {
    if j < |slots| - 1 {
      ShrinkMapAt(n, size, slots[..|slots| - 1], j);
    }
  }

  /** A high code no slot names is dropped. */
  lemma {:induction false} ShrinkMapElse(n: int, size: int, slots: seq<Slot>, k: int)
    requires 0 <= size < k <= n
    requires forall j :: 0 <= j < |slots| ==> slots[j].position + 1 != k
    ensures ShrinkMap(n, size, slots)[k] == -1
  {
    if slots != [] {
      ShrinkMapElse(n, size, slots[..|slots| - 1], k);
    }
  }

  /** What the lemmas below use of the reassignment r built from `slots`:
    * low codes keep their numbers, each slot's code goes where the slot was
    * placed, and a high code not dropped belongs to some slot. */
  ghost predicate MapOfSlots(E: seq<int>, size: nat, slots: seq<Slot>, r: seq<int>)
  {
    |r| == |E| + 1 && size < |E| &&
    (forall k :: 0 <= k <= size ==> r[k] == k - 1) &&
    (forall j :: 0 <= j < |slots| ==> 0 <= slots[j].position + 1 < |r| && r[slots[j].position + 1] == slots[j].newPosition) &&
    (forall k :: KeptHigh(r, size, k) ==> exists j :: 0 <= j < |slots| && slots[j].position == k - 1)
  }

  /** Entry k of reassignment r is for a high code, and not -1. */
  predicate KeptHigh(r: seq<int>, size: nat, k: int)
  {
    size < k < |r| && r[k] != -1
  }

  lemma ShrinkMapOfSlots(E: seq<int>, size: nat, slots: seq<Slot>)
    requires size < |E| && SlotsFrom(slots, E, size)
    ensures MapOfSlots(E, size, slots, ShrinkMap(|E|, size, slots))
  {
    var r := ShrinkMap(|E|, size, slots);
    assert forall j :: 0 <= j < |slots| ==> FromHighCode(slots[j], E, size);
    ShrinkMapLow(|E|, size, slots);
    forall j | 0 <= j < |slots| ensures r[slots[j].position + 1] == slots[j].newPosition {
      ShrinkMapAt(|E|, size, slots, j);
    }
    forall k | KeptHigh(r, size, k) ensures exists j :: 0 <= j < |slots| && slots[j].position == k - 1 {
      if forall j :: 0 <= j < |slots| ==> slots[j].position + 1 != k {
        ShrinkMapElse(|E|, size, slots, k);
        assert false;
      }
      var j :| 0 <= j < |slots| && slots[j].position + 1 == k;
    }
  }

  /** A high code that the reassignment keeps belongs to a slot, placed
    * there. */
  lemma SlotAt(slots: seq<Slot>, E: seq<int>, size: nat, r: seq<int>, k: int) returns (j: int)
    requires MapOfSlots(E, size, slots, r)
    requires size < k <= |E| && r[k] != -1
    ensures 0 <= j < |slots| && slots[j].position == k - 1 && slots[j].newPosition == r[k]
  {
    assert KeptHigh(r, size, k);
    j :| 0 <= j < |slots| && slots[j].position == k - 1;
  }

  lemma ShrinkKeepsLow(E: seq<int>, F: seq<int>, slots: seq<Slot>, r: seq<int>, size: nat)
    requires size < |E| == |F|
    requires PlacedIn(slots, E, F, size) && MapOfSlots(E, size, slots, r)
    ensures KeepsLowCodes(E, F[..size], r, size)
  {
    forall k | 0 <= k < |r| ensures CodeIn(r[k], size) {
      if k > size && r[k] != -1 {
        var j := SlotAt(slots, E, size, r, k);
      }
    }
  }

  lemma ShrinkMovesTo(E: seq<int>, F: seq<int>, slots: seq<Slot>, size: nat, j: int)
    requires size < |E| == |F|
    requires SlotsFrom(slots, E, size) && PlacedIn(slots, E, F, size)
    requires 0 <= j < |slots| && slots[j].newPosition >= 0
    ensures slots[j].newPosition < size && E[slots[j].position] != 0
    ensures E[slots[j].newPosition] == 0 && F[slots[j].newPosition] == E[slots[j].position]
  {
    assert FromHighCode(slots[j], E, size);
  }

  lemma ShrinkMovesApart(E: seq<int>, F: seq<int>, slots: seq<Slot>, r: seq<int>, size: nat, k1: int, k2: int)
    requires size < |E| == |F|
    requires SlotsFrom(slots, E, size) && PlacedIn(slots, E, F, size) && MapOfSlots(E, size, slots, r)
    requires size < k1 < k2 <= |E| && r[k1] >= 0
    ensures r[k1] != r[k2]
  {
    var j1 := SlotAt(slots, E, size, r, k1);
    if r[k2] >= 0 {
      var j2 := SlotAt(slots, E, size, r, k2);
      assert j1 != j2;
    }
  }

  lemma ShrinkChanged(E: seq<int>, F: seq<int>, slots: seq<Slot>, r: seq<int>, size: nat, c: int)
    requires size < |E| == |F|
    requires SlotsFrom(slots, E, size) && PlacedIn(slots, E, F, size) && MapOfSlots(E, size, slots, r)
    requires 0 <= c < size && F[c] != E[c]
    ensures E[c] == 0 && exists k :: size < k <= |E| && r[k] == c
  {
    var j :| 0 <= j < |slots| && slots[j].newPosition == c;
    assert FromHighCode(slots[j], E, size);
    assert r[slots[j].position + 1] == c;
  }

  lemma ShrinkMovesAll(E: seq<int>, F: seq<int>, slots: seq<Slot>, r: seq<int>, size: nat)
    requires size < |E| == |F|
    requires SlotsFrom(slots, E, size) && PlacedIn(slots, E, F, size) && MapOfSlots(E, size, slots, r)
    ensures forall k :: size < k <= |E| && r[k] >= 0 ==> r[k] < size && E[k - 1] != 0 && E[r[k]] == 0 && F[r[k]] == E[k - 1]
  {
    forall k | size < k <= |E| && r[k] >= 0 ensures r[k] < size && E[k - 1] != 0 && E[r[k]] == 0 && F[r[k]] == E[k - 1] {
      var j := SlotAt(slots, E, size, r, k);
      ShrinkMovesTo(E, F, slots, size, j);
    }
  }

  lemma ShrinkApartAll(E: seq<int>, F: seq<int>, slots: seq<Slot>, r: seq<int>, size: nat)
    requires size < |E| == |F|
    requires SlotsFrom(slots, E, size) && PlacedIn(slots, E, F, size) && MapOfSlots(E, size, slots, r)
    ensures forall k1, k2 :: size < k1 < k2 <= |E| && r[k1] >= 0 ==> r[k1] != r[k2]
  {
    forall k1, k2 | size < k1 < k2 <= |E| && r[k1] >= 0 ensures r[k1] != r[k2] {
      ShrinkMovesApart(E, F, slots, r, size, k1, k2);
    }
  }

  lemma ShrinkChangedAll(E: seq<int>, F: seq<int>, slots: seq<Slot>, r: seq<int>, size: nat)
    requires size < |E| == |F|
    requires SlotsFrom(slots, E, size) && PlacedIn(slots, E, F, size) && MapOfSlots(E, size, slots, r)
    ensures forall c :: 0 <= c < size && F[c] != E[c] ==> E[c] == 0 && exists k :: size < k <= |E| && r[k] == c
  {
    forall c | 0 <= c < size && F[c] != E[c] ensures E[c] == 0 && exists k :: size < k <= |E| && r[k] == c {
      ShrinkChanged(E, F, slots, r, size, c);
    }
  }

  lemma ShrinkMoves(E: seq<int>, F: seq<int>, slots: seq<Slot>, r: seq<int>, size: nat)
    requires size < |E| == |F|
    requires SlotsFrom(slots, E, size) && PlacedIn(slots, E, F, size) && MapOfSlots(E, size, slots, r)
    ensures KeepsLowCodes(E, F[..size], r, size) && MovesIntoHoles(E, F[..size], r, size)
  {
    ShrinkKeepsLow(E, F, slots, r, size);
    ShrinkMovesAll(E, F, slots, r, size);
    ShrinkApartAll(E, F, slots, r, size);
    ShrinkChangedAll(E, F, slots, r, size);
  }

  lemma ShrinkPreferred(E: seq<int>, F: seq<int>, slots: seq<Slot>, size: nat, ref: Reference)
    requires size < |E| == |F|
    requires SlotsFrom(slots, E, size)
    requires forall i :: 0 <= i < |slots| ==> PreferredOutcome(ref, slots[i].value, E, F)
    ensures HonorsPreferred(E, F[..size], size, ref)
  {
    var N := F[..size];
    forall c | size <= c < |E| && E[c] != 0
      ensures var p := PreferredCode(ref, E[c]); 0 <= p < size && E[p] == 0 ==> PreferredCode(ref, N[p]) == p
    {
      assert HighGlyph(E, size, c);
      var j :| 0 <= j < |slots| && slots[j].position == c;
      assert PreferredOutcome(ref, slots[j].value, E, F);
    }
  }

  lemma ShrinkDropFull(E: seq<int>, F: seq<int>, slots: seq<Slot>, r: seq<int>, size: nat, k: int)
    requires size < |E| == |F|
    requires SlotsFrom(slots, E, size) && MapOfSlots(E, size, slots, r)
    requires (exists i :: 0 <= i < |slots| && slots[i].newPosition < 0) ==> forall c :: 0 <= c < size ==> F[c] != 0
    requires size < k <= |E| && E[k - 1] != 0 && r[k] == -1
    ensures forall c :: 0 <= c < size ==> F[c] != 0
  {
    assert HighGlyph(E, size, k - 1);
    var j :| 0 <= j < |slots| && slots[j].position == k - 1;
  }

  lemma ShrinkReportedDropped(E: seq<int>, slots: seq<Slot>, r: seq<int>, size: nat, j: int)
    requires size < |E|
    requires SlotsFrom(slots, E, size) && MapOfSlots(E, size, slots, r)
    requires 0 <= j < |slots| && slots[j].newPosition == -1
    ensures size < slots[j].position + 1 <= |E| && E[slots[j].position] == slots[j].value != 0
    ensures r[slots[j].position + 1] == -1
  {
    assert FromHighCode(slots[j], E, size);
  }

  lemma ShrinkDroppedReported(E: seq<int>, slots: seq<Slot>, r: seq<int>, size: nat, k: int)
    requires size < |E|
    requires SlotsFrom(slots, E, size) && MapOfSlots(E, size, slots, r)
    requires size < k <= |E| && E[k - 1] != 0 && r[k] == -1
    ensures E[k - 1] in UnplacedValues(slots)
  {
    assert HighGlyph(E, size, k - 1);
    var j :| 0 <= j < |slots| && slots[j].position == k - 1;
    assert FromHighCode(slots[j], E, size);
    assert slots[j].newPosition < 0 && slots[j].value == E[k - 1];
  }

  /** The slot a reported glyph comes from. */
  lemma UnplacedSlot(slots: seq<Slot>, g: int) returns (j: int)
    requires g in UnplacedValues(slots)
    ensures 0 <= j < |slots| && slots[j].newPosition < 0 && slots[j].value == g
  {
    j :| 0 <= j < |slots| && slots[j].newPosition < 0 && slots[j].value == g;
  }

  /** A glyph reported was dropped. */
  lemma ReportedWereDropped(E: seq<int>, slots: seq<Slot>, r: seq<int>, size: nat, g: int)
    requires size < |E|
    requires SlotsFrom(slots, E, size) && MapOfSlots(E, size, slots, r)
    requires forall i :: 0 <= i < |slots| ==> slots[i].newPosition >= -1
    requires g in UnplacedValues(slots)
    ensures exists k :: size < k <= |E| && E[k - 1] == g && g != 0 && r[k] == -1
  {
    var j := UnplacedSlot(slots, g);
    assert slots[j].newPosition == -1;
    ShrinkReportedDropped(E, slots, r, size, j);
    var k := slots[j].position + 1;
    assert size < k <= |E| && E[k - 1] == g && g != 0 && r[k] == -1;
  }

  /** A glyph dropped is reported. */
  lemma DroppedAreReported(E: seq<int>, slots: seq<Slot>, r: seq<int>, size: nat, g: int)
    requires size < |E|
    requires SlotsFrom(slots, E, size) && MapOfSlots(E, size, slots, r)
    requires exists k :: size < k <= |E| && E[k - 1] == g && g != 0 && r[k] == -1
    ensures g in UnplacedValues(slots)
  {
    var k :| size < k <= |E| && E[k - 1] == g && g != 0 && r[k] == -1;
    ShrinkDroppedReported(E, slots, r, size, k);
  }

  lemma ShrinkDrops(E: seq<int>, F: seq<int>, slots: seq<Slot>, r: seq<int>, size: nat)
    requires size < |E| == |F|
    requires forall i :: 0 <= i < |slots| ==> slots[i].newPosition >= -1
    requires SlotsFrom(slots, E, size) && MapOfSlots(E, size, slots, r) && KeepsLowCodes(E, F[..size], r, size)
    requires (exists i :: 0 <= i < |slots| && slots[i].newPosition < 0) ==> forall c :: 0 <= c < size ==> F[c] != 0
    ensures DropsOnlyWhenFull(E, F[..size], r, size, UnplacedValues(slots))
  {
    if exists k :: size < k <= |E| && E[k - 1] != 0 && r[k] == -1 {
      var k :| size < k <= |E| && E[k - 1] != 0 && r[k] == -1;
      ShrinkDropFull(E, F, slots, r, size, k);
    }
    forall g ensures g in UnplacedValues(slots) <==> exists k :: size < k <= |E| && E[k - 1] == g && g != 0 && r[k] == -1 {
      if g in UnplacedValues(slots) {
        ReportedWereDropped(E, slots, r, size, g);
      }
      if exists k :: size < k <= |E| && E[k - 1] == g && g != 0 && r[k] == -1 {
        DroppedAreReported(E, slots, r, size, g);
      }
    }
  }

  /** The slot-level outcome of the two placement passes and the
    * reassignment built from it give the code-level promise. */
  lemma ShrinkOutcome(E: seq<int>, F: seq<int>, slots: seq<Slot>, r: seq<int>, size: nat, ref: Reference)
    requires size < |E| == |F|
    requires SlotsFrom(slots, E, size) && PlacedIn(slots, E, F, size) && r == ShrinkMap(|E|, size, slots)
    requires forall i :: 0 <= i < |slots| ==> PreferredOutcome(ref, slots[i].value, E, F)
    requires (exists i :: 0 <= i < |slots| && slots[i].newPosition < 0) ==> forall c :: 0 <= c < size ==> F[c] != 0
    ensures Shrunk(E, F[..size], r, size, ref, UnplacedValues(slots))
  {
    ShrinkMapOfSlots(E, size, slots);
    ShrinkMoves(E, F, slots, r, size);
    ShrinkPreferred(E, F, slots, size, ref);
    ShrinkDrops(E, F, slots, r, size);
  }

  /** Cutting to `size` keeps every entry whose codes are all below
    * `size` and removes the others: a kern or positioning naming a higher
    * code gets -1 there. */
  lemma CutRemap(ks: seq<Kern>, vs: seq<Vfpos>, n: int, size: int)
    requires 0 <= size <= n && KernsIn(ks, n) && VfposIn(vs, n)
    ensures forall i :: 0 <= i < |ks| && ks[i].left < size && ks[i].right < size ==>
      RemapKerns(ks, CutMap(n, size))[i] == ks[i]
    ensures forall i :: 0 <= i < |ks| && (ks[i].left >= size || ks[i].right >= size) ==>
      RemapKerns(ks, CutMap(n, size))[i].left == -1 || RemapKerns(ks, CutMap(n, size))[i].right == -1
    ensures forall i :: 0 <= i < |vs| ==>
      RemapVfpos(vs, CutMap(n, size))[i] == if vs[i].code < size then vs[i] else vs[i].(code := -1)
  {
  }

  /** The same for ligatures: one whose codes are all below `size` is
    * unchanged, and a code at or above `size` becomes -1. */
  lemma CutRemapLigature(l: Ligature, n: int, size: int)
    requires 0 <= size <= n && LigatureIn(l, n)
    ensures forall j :: 0 <= j < |l.ins| ==>
      RemapLigature(l, CutMap(n, size)).ins[j] == if l.ins[j] < size then l.ins[j] else -1
    ensures RemapLigature(l, CutMap(n, size)).out == if l.out < size then l.out else -1
  {
  }
}
