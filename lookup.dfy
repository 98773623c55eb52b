/**
 * Glyph-to-code lookup.  The encoding table maps codes to glyphs (0 is "no
 * glyph"); `_emap` is a best-effort reverse cache indexed by glyph, with -2
 * for "unknown".  The inline helpers `encoding(g)` and `assign_emap` are
 * declared in gsubencoding.hh, which is not part of this model: a cached
 * code is used only while its slot still holds `g`; any other lookup scans.
 */
module GlyphLookup {

  /** The smallest code holding `g`, or -1. */
  function FirstIndex(s: seq<int>, g: int): (r: int)
    ensures -1 <= r < |s|
    ensures r == -1 <==> g !in s
    ensures r >= 0 ==> s[r] == g && g !in s[..r]
  {
    if s == [] then -1
    else if s[0] == g then 0
    else
      var k := FirstIndex(s[1..], g);
      assert s[1..][..if k < 0 then 0 else k] == s[1..1 + (if k < 0 then 0 else k)];
      if k < 0 then -1 else k + 1
  }

  /** The cache after recording `code` for glyph `g`, padding with -2. */
  function CacheWrite(emap: seq<int>, g: int, code: int): (m: seq<int>)
    requires g >= 0
    ensures |m| == if g < |emap| then |emap| else g + 1
    ensures m[g] == code
    ensures forall h :: 0 <= h < |m| && h != g ==> m[h] == if h < |emap| then emap[h] else -2
  {
    (if g < |emap| then emap else emap + seq(g + 1 - |emap|, _ => -2))[g := code]
  }

  predicate CacheHolds(enc: seq<int>, emap: seq<int>, g: int)
  {
    0 <= g < |emap| && 0 <= emap[g] < |enc| && enc[emap[g]] == g
  }

  /** What `encoding(g)` answers: a code holding `g`, or -1 exactly when no
    * code holds it. */
  function Lookup(enc: seq<int>, emap: seq<int>, g: int): (r: int)
    ensures -1 <= r < |enc|
    ensures r >= 0 ==> enc[r] == g
    ensures r == -1 <==> g < 0 || g !in enc
  {
    if g < 0 then -1
    else if CacheHolds(enc, emap, g) then emap[g]
    else FirstIndex(enc, g)
  }

  /** The code `force_encoding(g)` returns: the looked-up code, or a new
    * code at the end of the table. */
  function ForcedCode(enc: seq<int>, emap: seq<int>, g: int): (c: int)
    ensures 0 <= c <= |enc|
    ensures c < |enc| ==> enc[c] == g
  {
    var e := Lookup(enc, emap, g);
    if e >= 0 then e else |enc|
  }

  /** The table after `force_encoding(g)`. */
  function ForcedTable(enc: seq<int>, emap: seq<int>, g: int): (t: seq<int>)
    ensures t == enc || t == enc + [g]
    ensures 0 <= ForcedCode(enc, emap, g) < |t| && t[ForcedCode(enc, emap, g)] == g
  {
    if Lookup(enc, emap, g) >= 0 then enc else enc + [g]
  }

  /** Two positions holding the same value occur twice in the multiset. */
  lemma TwoOccurrences<T>(s: seq<T>, i: int, j: int)
    requires 0 <= i < j < |s| && s[i] == s[j]
    ensures multiset(s)[s[i]] >= 2
  {
    assert s == s[..j] + s[j..];
    assert s[i] in s[..j];
    assert s[j..][0] == s[j];
    assert multiset(s) == multiset(s[..j]) + multiset(s[j..]);
  }

  /** Caching the scan result of a glyph that occurs at most once, as
    * `hard_encoding` does, changes the answer of no later lookup. */
  lemma {:induction false} CachingKeepsLookup(enc: seq<int>, emap: seq<int>, g: int)
    requires g >= 0 && multiset(enc)[g] < 2
    ensures forall h :: Lookup(enc, CacheWrite(emap, g, FirstIndex(enc, g)), h) == Lookup(enc, emap, h)
  {
    var m := CacheWrite(emap, g, FirstIndex(enc, g));
    forall h ensures Lookup(enc, m, h) == Lookup(enc, emap, h) {
      if h == g && CacheHolds(enc, emap, g) {
        var a, b := emap[g], FirstIndex(enc, g);
        if a < b {
          TwoOccurrences(enc, a, b);
        } else if b < a {
          TwoOccurrences(enc, b, a);
        }
      }
    }
  }

  /** The cache after `assign_emap(g, code)`, which ignores negative glyphs. */
  function CacheAssign(emap: seq<int>, g: int, code: int): (m: seq<int>)
    ensures g < 0 ==> m == emap
    ensures g >= 0 ==> m == CacheWrite(emap, g, code)
  {
    if g >= 0 then CacheWrite(emap, g, code) else emap
  }

  /** The cache after `encoding(g)`: a scan records its answer when `g`
    * occurs at most once, as `hard_encoding` does. */
  function LookupCache(enc: seq<int>, emap: seq<int>, g: int): (m: seq<int>)
    ensures forall h :: Lookup(enc, m, h) == Lookup(enc, emap, h)
  {
    if g < 0 || CacheHolds(enc, emap, g) then emap
    else if multiset(enc)[g] < 2 then
      CachingKeepsLookup(enc, emap, g);
      CacheWrite(emap, g, FirstIndex(enc, g))
    else emap
  }

  /** The cache after `force_encoding(g)`. */
  function ForcedEmap(enc: seq<int>, emap: seq<int>, g: int): seq<int>
  {
    var m := LookupCache(enc, emap, g);
    if Lookup(enc, emap, g) >= 0 then m else CacheAssign(m, g, |enc|)
  }

  /** After `force_encoding(g)` of a glyph, looking it up finds the code
    * returned, and every other glyph's lookup is unchanged. */
  lemma ForcedLookup(enc: seq<int>, emap: seq<int>, g: int, h: int)
    requires g >= 0
    ensures Lookup(ForcedTable(enc, emap, g), ForcedEmap(enc, emap, g), h) ==
      if h == g then ForcedCode(enc, emap, g) else Lookup(enc, emap, h)
  {
    var m := LookupCache(enc, emap, g);
    if Lookup(enc, emap, g) < 0 {
      var t := enc + [g];
      var m' := CacheAssign(m, g, |enc|);
      if h == g {
        assert CacheHolds(t, m', g);
      } else if h >= 0 {
        if CacheHolds(enc, m, h) {
          assert CacheHolds(t, m', h);
        } else {
          assert !CacheHolds(t, m', h);
          FirstIndexAppend(enc, g, h);
        }
      }
    }
  }

  lemma {:induction false} FirstIndexAppend(s: seq<int>, g: int, h: int)
    requires h != g
    ensures FirstIndex(s + [g], h) == FirstIndex(s, h)
  {
    if s != [] {
      assert (s + [g])[1..] == s[1..] + [g];
      FirstIndexAppend(s[1..], g, h);
    }
  }
}
