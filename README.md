# GsubEncoding: the encoding transform engine of otftotfm

This project models the part of lcdf-typetools' `otftotfm` that turns OpenType
GSUB and GPOS rules into a TeX-style font encoding, and it proves properties of
that model. The modelled code is `GsubEncoding` in `otftotfm/gsubencoding.cc`
and the growable array `Vector<T>` in `include/lcdf/vector.cc`.

The engine holds a code-to-glyph table (`_encoding`, where 0 means "no glyph")
and a reverse cache (`_emap`, where -2 means "unknown"). Beside them are four
tables whose entries refer to codes:

- ligatures;
- fake ligatures, the placeholders invented when a longer ligature is shortened;
- kerns;
- virtual-font positionings.

Its operations are applied in place:

- the substitution pass and the positioning pass, each with a per-pass tracker
  of the codes already rewritten;
- ligature simplification: marking ligatures skippable, shortening them to two
  inputs, removing shadowed ligatures and removing null ones;
- merging of duplicate kerns and positionings;
- table edits and queries;
- compaction of the table to a budget (`cut_encoding`, `shrink_encoding`).
  Compaction rewrites every table under one reassignment, indexed by old code
  plus one.

The invariant across all of this is "no dangling code": every code that a table
entry holds is -1 or an index into the current table. This invariant is
`GsubEncoding.Valid()`.

The Dafny takes the program's own shape:

- `GsubEncoding` (module `GsubEncodingEngine`, gsub.dfy) is a class with the
  engine's fields. Its methods change those fields with loops, and their
  contracts tie the new state to specification functions.
- The specification functions are in the other modules:
  - `GlyphLookup`: the reverse cache;
  - `Tracker`: per-pass bookkeeping;
  - `Substitutions` and `Positionings`: the two passes, as functions;
  - `LigatureSimplify`;
  - `Merge` and `Sorting`;
  - `Compaction`;
  - `Queries` and `Edits`;
  - `Tables`: the records and the reassignment.

  Lemmas about those functions state what the source promises.
- `Vector<T>` (module `LcdfVector`) is a class over an array with a length and
  a capacity.
- Module `ShrinkFindings` models two places in `shrink_encoding` as written,
  beside the corrected versions that the engine uses (see Findings).

The second placement pass of `shrink_encoding` is meant to be one sweep that
avoids the codes of the target encoding, followed by a sweep that accepts any
free code. The code as written does not always make the second sweep. The
engine model uses the two-sweep behaviour. The code as written is modelled
separately, and the difference is shown under Findings.

## Model

| member | source | states |
|---|---|---|
| GsubEncodingEngine.GsubEncoding.constructor | otftotfm/gsubencoding.cc:24-28 | A new engine has 256 empty codes, no cache entries and empty tables, and it satisfies the no-dangling invariant. |
| GsubEncodingEngine.GsubEncoding.Setting | otftotfm/gsubencoding.cc:31-60 | True exactly when the code is in range and holds a glyph. When false, there are no steps. When true, the steps set that glyph at the offsets of the first positioning entry for the code. |
| Queries.FirstVfposIndex | otftotfm/gsubencoding.cc:38-43 | Finds the first positioning entry whose code is the given one, or -1 when there is none. |
| Queries.SettingShown | otftotfm/gsubencoding.cc:50-58 | The steps of a setting show exactly one glyph, the encoded one. |
| Queries.SettingBeforeShow | otftotfm/gsubencoding.cc:50-58 | Before the glyph is shown, the pen has moved by (pdx, pdy). |
| Queries.SettingMovement | otftotfm/gsubencoding.cc:50-58 | In total, the pen moves by adx horizontally and returns to its vertical position. |
| Queries.SettingNoNull | otftotfm/gsubencoding.cc:50-58 | No step of a setting is a zero move. |
| Queries.SettingMoves | otftotfm/gsubencoding.cc:50-58 | The four setting properties together. |
| GsubEncodingEngine.GsubEncoding.HardEncoding | otftotfm/gsubencoding.cc:63-77 | Returns -1 for a negative glyph, and otherwise the smallest code holding the glyph (-1 if none). The answer is cached only when at most one code holds the glyph; otherwise the cache is unchanged. |
| GlyphLookup.FirstIndex | otftotfm/gsubencoding.cc:67-70 | Finds the smallest index holding the value, and is -1 exactly when no index holds it. |
| GlyphLookup.CachingKeepsLookup | otftotfm/gsubencoding.cc:71-75 | Caching the scan result for a glyph held at most once changes no later lookup of any glyph. |
| GlyphLookup.CacheWrite | otftotfm/gsubencoding.cc:72-74 | The cache grows with "unknown" entries up to the glyph, and only the glyph's entry changes. |
| GlyphLookup.Lookup | otftotfm/gsubencoding.cc:63-77 | Gives a code that holds the glyph, or -1 exactly when the glyph is negative or not encoded. |
| GlyphLookup.LookupCache | otftotfm/gsubencoding.cc:63-77 | The cache after a lookup answers every later lookup as the old cache did. |
| GsubEncodingEngine.GsubEncoding.Encoding | otftotfm/gsubencoding.cc:63-77 | The lookup used by every rule: its result and the updated cache are those of `Lookup`/`LookupCache`. |
| GsubEncodingEngine.GsubEncoding.AssignEmap | otftotfm/gsubencoding.cc:167-168 | Records a code for a non-negative glyph in the cache, and ignores a negative glyph. |
| GlyphLookup.CacheAssign | otftotfm/gsubencoding.cc:167-168 | A negative glyph leaves the cache alone. Otherwise the cache is written at the glyph. |
| GsubEncodingEngine.GsubEncoding.ForceEncoding | otftotfm/gsubencoding.cc:80-90 | Returns the code holding the glyph, appending the glyph at a new last code when it is not encoded. |
| GlyphLookup.ForcedTable | otftotfm/gsubencoding.cc:80-90 | The table is unchanged or has one more code holding the glyph, and the returned code holds the glyph. |
| GlyphLookup.ForcedCode | otftotfm/gsubencoding.cc:80-90 | The code is an existing code holding the glyph, or the one just past the end. |
| GlyphLookup.ForcedLookup | otftotfm/gsubencoding.cc:80-90 | After forcing, the glyph is found at the forced code, and every other glyph is looked up as in the extended table. |
| GsubEncodingEngine.GsubEncoding.Encode | otftotfm/gsubencoding.cc:93-100 | The table grows with empty codes to reach the code, only that code changes to the glyph, and the cache records it. |
| Tracker.AssignChangedContext | otftotfm/gsubencoding.cc:106-119 | For an in-range pair, it adds exactly that pair to the changed contexts and marks the first code CH_SOME, leaving the other codes alone. Out of range, nothing changes. |
| Tracker.NewTracker | otftotfm/gsubencoding.cc:152-153 | Every code of the pass starts CH_NO with no changed contexts. |
| GsubEncodingEngine.GsubEncoding.AddSingleContextSubstitution | otftotfm/gsubencoding.cc:135-146 | Appends the two-code context ligature, tagged 1 for a right context and -1 for a left one, unless the output code equals the context code. |
| GsubEncodingEngine.GsubEncoding.ApplySubstitutions | otftotfm/gsubencoding.cc:149-226 | Returns the number of handled rules. The new table, cache and ligatures are those of the pass function `ApplyAll`, run with a tracker sized to the table at the start. Valid tables with ligature rules of at least one input stay valid. `ChAllStays` gives the pass-level CH_ALL precedence of `ApplyAll`. |
| Substitutions.CountHandled | otftotfm/gsubencoding.cc:159-221 | The count is at most the number of rules, and it is zero exactly when no rule is of a handled kind. |
| Substitutions.ApplyAllKeepsLigs | otftotfm/gsubencoding.cc:159-221 | A pass only appends ligatures: earlier ones are untouched, and every ligature keeps its codes in the grown table. |
| GsubEncodingEngine.PassKeepsValid | otftotfm/gsubencoding.cc:149-226 | A substitution pass preserves the no-dangling invariant of all four tables. |
| GsubEncodingEngine.GsubEncoding.ApplyRule | otftotfm/gsubencoding.cc:160-220 | One iteration equals the step function `Step`, and it reports whether the rule counts. |
| Substitutions.Step | otftotfm/gsubencoding.cc:160-220 | A rule of an unhandled kind, or a single rule when singles are disallowed, changes nothing. |
| GsubEncodingEngine.GsubEncoding.ApplySingle | otftotfm/gsubencoding.cc:161-181 | An iteration of a single or alternate rule equals `SingleStep`. |
| Substitutions.ChAllStays | otftotfm/gsubencoding.cc:159-221 | Once a code is CH_ALL after some prefix of the rules, it is still CH_ALL after the whole pass, and its glyph is the one it had then. Unconditional substitutions take precedence over every later rule. |
| Substitutions.StepKeepsChAll | otftotfm/gsubencoding.cc:161-219 | No single rule changes a CH_ALL code's state or glyph. |
| Substitutions.SingleStep | otftotfm/gsubencoding.cc:161-181 | An input outside the pass or already CH_ALL changes nothing. At CH_NO, only the input's code is rewritten to the output glyph. At CH_SOME, the output is forced and context ligatures are added for the remaining right neighbours. Either way the code becomes CH_ALL. |
| GsubEncodingEngine.GsubEncoding.AddRemainingContexts | otftotfm/gsubencoding.cc:176-178 | Appends exactly the context ligatures of `ContextFill` for the codes below the pass size. |
| Tracker.ContextFillExactly | otftotfm/gsubencoding.cc:176-178 | The added ligatures are right-context ligatures from the code. One exists for a neighbour exactly when that neighbour is below the pass size, holds a glyph, is not yet covered, and is not the output code. |
| Tracker.ContextFillIn | otftotfm/gsubencoding.cc:176-178 | The added ligatures refer only to codes in the table and have inputs. |
| GsubEncodingEngine.GsubEncoding.LigatureInputs | otftotfm/gsubencoding.cc:184-193 | Looks the inputs up in order and stops at the first blocked one. Codes, cache and success equal `LigatureCodes`. |
| Substitutions.LigatureCodes | otftotfm/gsubencoding.cc:188-193 | Succeeds exactly when no input code is blocked (unencoded, outside the pass, or CH_ALL), and then the codes are the lookups of the inputs. The cache changes no lookup. |
| GsubEncodingEngine.GsubEncoding.ApplyLigature | otftotfm/gsubencoding.cc:183-199 | An iteration of a ligature rule equals `LigatureStep`. |
| Substitutions.LigatureStep | otftotfm/gsubencoding.cc:183-199 | When an input is blocked, the tables are unchanged. Otherwise exactly one skippable plain ligature is appended; its inputs are the input codes and its output is a code holding the output glyph. |
| GsubEncodingEngine.GsubEncoding.ApplyContext | otftotfm/gsubencoding.cc:201-219 | An iteration of a right- or left-context rule equals `ContextStep`. |
| Substitutions.ContextStep | otftotfm/gsubencoding.cc:201-219 | For a new in-range pair, it records exactly that pair, marks the code CH_SOME and adds the context ligature to a code holding the output. Otherwise nothing changes. |
| Tracker.AssignBitvec | otftotfm/gsubencoding.cc:229-241 | Returns the old bit, and the new set is the old one plus the code when the code is in range. |
| GsubEncodingEngine.GsubEncoding.ApplyPositionings | otftotfm/gsubencoding.cc:253-284 | Returns the number of pair and single rules. The cache, kerns and positionings are those of `ApplyPos`, and validity is kept. |
| GsubEncodingEngine.GsubEncoding.ApplyPosRule | otftotfm/gsubencoding.cc:264-277 | One iteration equals `PosStep`, and it counts exactly the pair and single rules. |
| GsubEncodingEngine.GsubEncoding.ApplyPairKern | otftotfm/gsubencoding.cc:265-271 | A pair-kern iteration equals `PosStep` on a pair rule. |
| GsubEncodingEngine.GsubEncoding.ApplySinglePos | otftotfm/gsubencoding.cc:272-276 | A single-positioning iteration equals `PosStep` on a single rule. |
| Positionings.PosStep | otftotfm/gsubencoding.cc:264-277 | A kern is added only for an encoded pair not yet seen, and a positioning only for an encoded code not yet seen; anything else is unchanged. Lookups are unaffected. |
| Positionings.CountPositionings | otftotfm/gsubencoding.cc:263-278 | At most the number of rules, and zero exactly when every rule is of another kind. |
| Positionings.PairsFirstWriterWins | otftotfm/gsubencoding.cc:265-271 | The pass keeps the old kerns and adds kerns with pairwise distinct code pairs, each the kern of the first rule to reach that pair. |
| Positionings.PairsCovered | otftotfm/gsubencoding.cc:265-271 | Every pair rule whose two glyphs are encoded is represented by an added kern for its code pair. |
| Positionings.SinglesFirstWriterWins | otftotfm/gsubencoding.cc:272-276 | The same holds for positionings: distinct codes, the first rule for each wins, and every encoded rule is represented. |
| Positionings.InvariantsHold | otftotfm/gsubencoding.cc:263-278 | After any prefix of the rules, the first-writer invariants hold, the old tables are kept and lookups are unchanged. |
| GsubEncodingEngine.GsubEncoding.FindSkippableTwoligature | otftotfm/gsubencoding.cc:287-307 | Returns the output of the first non-skip plain two-input ligature on (a, b), changing nothing. With none and no fakes, it returns -1. With fakes, it appends a FAKE_LIGATURE code and a fake ligature to it, and returns that code. |
| LigatureSimplify.FirstSkippable | otftotfm/gsubencoding.cc:289-294 | Finds the index of the first such ligature, or -1 exactly when there is none. |
| GsubEncodingEngine.GsubEncoding.MarkSkippable | otftotfm/gsubencoding.cc:312-320 | The ligature table becomes `MarkedSkippable`: skip is cleared exactly for ligatures whose output starts no ligature. |
| GsubEncodingEngine.GsubEncoding.ShortenOne | otftotfm/gsubencoding.cc:324-331 | Shortens one ligature as `Shorten` does, replacing its first two inputs by a two-input ligature's output until two inputs remain. |
| LigatureSimplify.ShortenStepSound | otftotfm/gsubencoding.cc:324-330 | One step replaces the first two inputs (a, b) by one code and keeps every two-input ligature. That code is produced by a ligature or fake ligature on exactly [a, b] with no skip and no context. Otherwise it is -1, which happens only without fakes and when no such ligature exists. A new fake is [a, b] to the new code. |
| LigatureSimplify.ShortenSound | otftotfm/gsubencoding.cc:324-331 | Shortening keeps the tables valid (they only grow), touches no other ligature, and leaves at most two inputs. The output is kept, the last input is the old last one, and the first input stands for the other old inputs through a chain of two-input ligatures (`ShortenedVia`). |
| GsubEncodingEngine.GsubEncoding.ShortenLigatures | otftotfm/gsubencoding.cc:322-332 | The tables become `ShortenFrom` of the old ones. |
| LigatureSimplify.ShortenFromSound | otftotfm/gsubencoding.cc:322-332 | After the whole shortening pass, every ligature has at most two inputs, its old output and its old last input. Its first input x stands for the old inputs before the last: x1 is produced by a two-input ligature on (in[0], in[1]), each next x by one on (the previous x, the next input), and a missing pair gives -1 only without fakes. The chain's ligatures are all in the resulting tables, every two-input ligature is kept, and the tables stay valid and grow by fakes only. |
| LigatureSimplify.ShortenFromChain | otftotfm/gsubencoding.cc:322-332 | The chain half of `ShortenFromSound`, by induction on the pass. |
| GsubEncodingEngine.GsubEncoding.RemoveCovered | otftotfm/gsubencoding.cc:336-344 | One outer iteration equals `SieveStep`. |
| GsubEncodingEngine.GsubEncoding.RemoveRedundantLigatures | otftotfm/gsubencoding.cc:334-345 | The ligature table becomes `Sieve` of the old one. |
| LigatureSimplify.RemovedRedundant | otftotfm/gsubencoding.cc:334-345 | Each ligature is kept or removed. No two live ligatures remain where the earlier one's inputs are a prefix of the later one's. A removed ligature was shadowed by an earlier live one. |
| GsubEncodingEngine.GsubEncoding.RemoveNullLigatures | otftotfm/gsubencoding.cc:347-354 | The ligature table becomes `NullRemoved` of the old one. |
| LigatureSimplify.NullsGone | otftotfm/gsubencoding.cc:347-354 | No null ligature remains, and only null ligatures are removed. |
| GsubEncodingEngine.GsubEncoding.SimplifyLigatures | otftotfm/gsubencoding.cc:310-355 | The tables become `SimplifiedLigatures` of the old ones. Valid tables stay valid, and every ligature then has at most two inputs. |
| LigatureSimplify.SimplifiedLigaturesSound | otftotfm/gsubencoding.cc:310-355 | The four passes keep the tables valid and the ligature count fixed, and leave at most two inputs per ligature. Each ligature keeps its output and context. It ends non-skippable exactly when its output started no ligature before the pass or it was not skippable to begin with. |
| LigatureSimplify.SimplifiedLigaturesChain | otftotfm/gsubencoding.cc:322-355 | The removal passes only remove: each ligature is as it was after shortening, or removed, and codes and fakes are those after shortening. After shortening, each ligature's first input stands for all but the last of its original inputs through a chain of two-input ligatures of those tables. |
| LigatureSimplify.RemovalsOnly | otftotfm/gsubencoding.cc:334-354 | After the redundancy and null passes, each ligature is unchanged or removed. |
| GsubEncodingEngine.GsubEncoding.SimplifyPositionings | otftotfm/gsubencoding.cc:358-393 | Kerns and positionings become merged sorted tables. Afterwards, the kern query for any pair returns the sum of all old kerns on that pair. Validity is kept. |
| GsubEncodingEngine.GsubEncoding.SimplifyKernTable | otftotfm/gsubencoding.cc:360-374 | The kern table becomes `MergeKerns` of the sorted old table. |
| GsubEncodingEngine.GsubEncoding.MergeKernTable | otftotfm/gsubencoding.cc:364-373 | The run-folding loop computes `MergeKerns`. |
| GsubEncodingEngine.GsubEncoding.MergeKernRun | otftotfm/gsubencoding.cc:365-372 | The inner loop stops at the end of the run with the same pair, and folds it into its first entry. |
| Merge.KernRunEnd | otftotfm/gsubencoding.cc:366-369 | The run end is the first index whose pair differs from the run's first pair. |
| Merge.MergeKernsKeepsSums | otftotfm/gsubencoding.cc:364-373 | Folding keeps, for every live pair, the total amount of the kerns on it. |
| Merge.MergeKernsUnique | otftotfm/gsubencoding.cc:364-373 | On a grouped table, folding leaves at most one kern per live pair. |
| Merge.MergeKernsCodes | otftotfm/gsubencoding.cc:364-373 | Folding changes no pair, except that it marks an entry removed (left = -1). |
| Merge.SimplifiedKerns | otftotfm/gsubencoding.cc:360-374 | After sort and fold, each live pair has its old total amount in at most one kern. |
| Queries.KernsAfterSimplify | otftotfm/gsubencoding.cc:360-374 | After simplification, `kern(c1, c2)` for any live pair is the sum of the old kerns on it. |
| GsubEncodingEngine.GsubEncoding.SimplifyVfposTable | otftotfm/gsubencoding.cc:376-392 | The positioning table becomes `MergeVfpos` of the sorted old table. |
| GsubEncodingEngine.GsubEncoding.MergeVfposTable | otftotfm/gsubencoding.cc:380-391 | The run-folding loop computes `MergeVfpos`. |
| GsubEncodingEngine.GsubEncoding.MergeVfposRun | otftotfm/gsubencoding.cc:381-390 | The inner loop stops at the end of the run with the same code, and folds pdx, pdy and adx into its first entry. |
| Merge.VfposRunEnd | otftotfm/gsubencoding.cc:382-385 | The run end is the first index whose code differs from the run's first code. |
| Merge.MergeVfposKeepsSums | otftotfm/gsubencoding.cc:380-391 | Folding keeps the totals of pdx, pdy and adx for every live code. |
| Merge.MergeVfposUnique | otftotfm/gsubencoding.cc:380-391 | On a grouped table, folding leaves at most one entry per live code. |
| Merge.MergeVfposCodes | otftotfm/gsubencoding.cc:380-391 | Folding changes no code, except that it marks an entry removed (-1). |
| Merge.SimplifiedVfpos | otftotfm/gsubencoding.cc:376-392 | After sort and fold, each live code has its old totals in at most one entry. |
| Merge.SimplifiedTablesIn | otftotfm/gsubencoding.cc:358-393 | Simplifying positionings keeps the no-dangling invariant. |
| Sorting.SortPermutes | otftotfm/gsubencoding.cc:362 | Sorting is a permutation. |
| Sorting.SortSorted | otftotfm/gsubencoding.cc:362 | A sorted table is ordered by key. |
| Sorting.SortedIsGrouped | otftotfm/gsubencoding.cc:362 | In a sorted table, entries with equal keys are adjacent. |
| Sorting.SortSum | otftotfm/gsubencoding.cc:362 | Sorting keeps every weighted sum over the table. |
| GsubEncodingEngine.GsubEncoding.ReassignLigature | otftotfm/gsubencoding.cc:406-411 | Every input and the output are sent through the reassignment (indexed by code + 1). |
| GsubEncodingEngine.GsubEncoding.ReassignCodes | otftotfm/gsubencoding.cc:414-434 | Every code of all four tables is sent through the reassignment, and the cache is cleared. |
| GsubEncodingEngine.GsubEncoding.ReassignLigatureTable | otftotfm/gsubencoding.cc:417-418 | The ligature table is remapped entry by entry. |
| GsubEncodingEngine.GsubEncoding.ReassignFakeTable | otftotfm/gsubencoding.cc:419-420 | The fake-ligature table is remapped entry by entry. |
| GsubEncodingEngine.GsubEncoding.ReassignKernTable | otftotfm/gsubencoding.cc:423-426 | The left and right codes of every kern are remapped. |
| GsubEncodingEngine.GsubEncoding.ReassignVfposTable | otftotfm/gsubencoding.cc:429-430 | The code of every positioning is remapped. |
| Tables.RemapLeavesNoDangling | otftotfm/gsubencoding.cc:414-434 | A reassignment into the codes below m leaves no dangling code below m. |
| GsubEncodingEngine.GsubEncoding.CutEncoding | otftotfm/gsubencoding.cc:437-453 | A table no larger than the size is padded with empty codes. A larger one is truncated, every table is remapped by `CutMap` and the cache is cleared. Validity is kept either way. |
| Compaction.CutMap | otftotfm/gsubencoding.cc:443-447 | Codes below the size and "no code" map to themselves; all higher codes map to -1. |
| Compaction.CutReassignment | otftotfm/gsubencoding.cc:443-447 | The loops build exactly `CutMap`. |
| Compaction.CutRemap | otftotfm/gsubencoding.cc:437-453 | A kern survives a cut unchanged when both its codes are below the size; otherwise one of its codes becomes -1. A positioning survives exactly when its code is below the size. |
| Compaction.CutRemapLigature | otftotfm/gsubencoding.cc:443-448 | A ligature's codes below the size are kept and the others become -1. |
| GsubEncodingEngine.GsubEncoding.ShrinkEncoding | otftotfm/gsubencoding.cc:456-528 | A table no larger than the size is padded. A larger one meets `Shrunk`, in terms of the old table, the new one, the reassignment and the reported glyphs. All four tables are remapped by that reassignment, the cache is cleared and validity is kept. |
| Compaction.ShrinkOutcome | otftotfm/gsubencoding.cc:456-528 | The placements give `Shrunk`. Low codes are kept. Moved glyphs go to distinct codes that were empty. A free preferred code goes to a glyph preferring it. Glyphs are dropped only when every low code is full, and the report names exactly the dropped glyphs. |
| GsubEncodingEngine.GsubEncoding.CollectSlots | otftotfm/gsubencoding.cc:463-469 | Returns `HighSlots`, one unplaced slot per high code holding a glyph, in code order. |
| Compaction.HighSlots | otftotfm/gsubencoding.cc:463-469 | Every slot comes from a non-empty code at or above the size. Slots are in increasing code order, and every such code has its slot. |
| Compaction.SortedSlots | otftotfm/gsubencoding.cc:471 | After sorting by glyph, the slots still come from the high codes, are unplaced, and are ordered by glyph. |
| GsubEncodingEngine.GsubEncoding.PlacePreferred | otftotfm/gsubencoding.cc:475-483 | Places glyphs only into empty low codes. Every placed slot sits at its preferred code, and every glyph's free preferred code ends up with a glyph preferring it. |
| Compaction.PreferredKept | otftotfm/gsubencoding.cc:486-501 | Later placements, which fill only empty codes, keep the preferred-code outcome. |
| GsubEncodingEngine.GsubEncoding.PlaceRemaining | otftotfm/gsubencoding.cc:486-501 | The corrected second pass places glyphs only into empty low codes and keeps earlier placements. If any glyph is left unplaced, every code below the size is full. |
| Compaction.SweepDone | otftotfm/gsubencoding.cc:486-501 | When the corrected sweep ends, a glyph is unplaced only if every low code is full. |
| Compaction.NextCode | otftotfm/gsubencoding.cc:497-500 | After passing a code, the sweep moves to the next one, or restarts at 0 without avoidance. |
| GsubEncodingEngine.GsubEncoding.UnencodableGlyphs | otftotfm/gsubencoding.cc:503-508 | The corrected warning lists exactly the glyphs of unplaced slots. |
| Compaction.UnplacedValues | otftotfm/gsubencoding.cc:503-508 | A glyph is listed exactly when some unplaced slot has it. |
| Compaction.ReportedWereDropped | otftotfm/gsubencoding.cc:503-508 | Every reported glyph was at a high code that the reassignment drops. |
| Compaction.DroppedAreReported | otftotfm/gsubencoding.cc:503-508 | Every glyph at a dropped high code is reported. |
| Compaction.ShrinkDrops | otftotfm/gsubencoding.cc:503-508 | Together: glyphs are dropped only when the low codes are full, and exactly the dropped glyphs are reported. |
| GsubEncodingEngine.GsubEncoding.PlaceHighGlyphs | otftotfm/gsubencoding.cc:463-501 | Collect, sort and the two placement passes: slots from the high codes, placed only into empty low codes, with the preferred-code outcome, and unplaced slots only when the low codes are full. |
| Compaction.ShrinkReassignment | otftotfm/gsubencoding.cc:520-524 | The loops build exactly `ShrinkMap`. |
| Compaction.ShrinkMapAt | otftotfm/gsubencoding.cc:523-524 | A slot's old code is reassigned to where the slot was placed. |
| Compaction.ShrinkMapLow | otftotfm/gsubencoding.cc:521-522 | Codes below the size keep their numbers. |
| Compaction.ShrinkMoves | otftotfm/gsubencoding.cc:456-528 | Low codes are kept, a moved glyph lands in a distinct code that was empty, and every changed low code received a moved glyph. |
| Compaction.ShrinkPreferred | otftotfm/gsubencoding.cc:475-483 | A free code preferred by a moved glyph goes to a glyph preferring it. |
| GsubEncodingEngine.GsubEncoding.AddTwoligature | otftotfm/gsubencoding.cc:532-541 | Appends a plain, non-skip two-input ligature, keeping validity for in-range codes. |
| GsubEncodingEngine.GsubEncoding.AddKern | otftotfm/gsubencoding.cc:544-551 | Appends the kern, keeping validity for in-range codes. |
| GsubEncodingEngine.GsubEncoding.AddSinglePositioning | otftotfm/gsubencoding.cc:554-562 | Appends the positioning, keeping validity for an in-range code. |
| GsubEncodingEngine.GsubEncoding.RemoveLigatures | otftotfm/gsubencoding.cc:565-574 | The ligature table becomes `RemovedLigatures` (CODE_ALL matches any code), and validity is kept. |
| Edits.RemovedLigaturesGone | otftotfm/gsubencoding.cc:565-574 | Afterwards, no two-ligature query returns a matching ligature, and every non-matching one is still returned. |
| Edits.RemovedLigaturesValid | otftotfm/gsubencoding.cc:565-574 | Removal keeps ligatures within the table and with inputs. |
| GsubEncodingEngine.GsubEncoding.RemoveKerns | otftotfm/gsubencoding.cc:577-583 | The kern table becomes `RemovedKerns`, and validity is kept. |
| Edits.RemovedKernsGone | otftotfm/gsubencoding.cc:577-583 | A matching pair has kern amount 0 afterwards, and no kern query returns a matching kern. |
| GsubEncodingEngine.GsubEncoding.ReencodeRightLigkern | otftotfm/gsubencoding.cc:586-599 | Every non-first ligature input and every kern's right code equal to the old code become the new code. Validity is kept for an in-range new code. |
| Edits.ReencodedRight | otftotfm/gsubencoding.cc:586-599 | When the two codes differ, the old code afterwards occurs in no non-first input and no right code. Left codes and amounts are unchanged, and validity is kept for an in-range new code. |
| GsubEncodingEngine.GsubEncoding.Twoligatures | otftotfm/gsubencoding.cc:602-618 | Returns, in table order, the second input, output and context of every live two-input ligature starting with the code, and their number. |
| Queries.TwoligaturesOf | otftotfm/gsubencoding.cc:608-616 | Holds exactly the ligatures of the table that are live two-input ligatures starting with the code. |
| GsubEncodingEngine.GsubEncoding.KernsOf | otftotfm/gsubencoding.cc:621-635 | Returns, in table order, the right code and amount of every kern from the code with a live right code, and their number. |
| Queries.KernsFrom | otftotfm/gsubencoding.cc:626-633 | Holds exactly the kerns of the table from the code with a live right code. |
| GsubEncodingEngine.GsubEncoding.KernBetween | otftotfm/gsubencoding.cc:638-646 | Returns the amount of the first kern on the pair, or 0. |
| Queries.FirstKernAmount | otftotfm/gsubencoding.cc:640-645 | 0 when no kern is on the pair; otherwise the amount of the earliest kern on it. |
| Queries.UniqueKernAmount | otftotfm/gsubencoding.cc:638-646 | When at most one kern is on the pair, the query returns the pair's total amount. |
| ShrinkFindings.PreferPass | otftotfm/gsubencoding.cc:475-483 | The first placement pass as written: it keeps the table size and the slots' codes and glyphs. |
| ShrinkFindings.SweepAsWritten | otftotfm/gsubencoding.cc:486-501 | The second placement pass as written: it stops when slots or codes run out, and keeps the slots' codes and glyphs. |
| ShrinkFindings.ReportedAsWritten | otftotfm/gsubencoding.cc:504-508 | The warning list as written lists the glyph at the old code of every slot from the stopping slot on. |
| ShrinkFindings.SweepAsWrittenDropsEarly | otftotfm/gsubencoding.cc:489-500 | On a concrete table, the pass as written leaves a glyph unplaced while code 0 is still empty and avoidance is still on. |
| ShrinkFindings.ReportedAsWrittenListsPlaced | otftotfm/gsubencoding.cc:504-508 | On a concrete table, the warning as written lists a glyph the first pass placed, while only one glyph is unplaced. |
| LcdfVector.Vector.Copy | include/lcdf/vector.cc:24-28 | The copy holds the same elements when the copy's allocation succeeds (or there is nothing to copy), and is empty otherwise. The source is unchanged. |
| LcdfVector.Vector.CopyAssign | include/lcdf/vector.cc:39-52 | Self-assignment changes nothing. Otherwise the vector takes the other's elements when the capacity suffices or the allocation succeeds, and is left empty otherwise. The other vector is unchanged. |
| LcdfVector.Vector.Assign | include/lcdf/vector.cc:55-60 | The vector becomes count copies of the element, or empty when the needed allocation fails. |
| LcdfVector.Vector.Reserve | include/lcdf/vector.cc:63-82 | A negative request means double the capacity (4 when it is 0). Success exactly when the request fits or the allocation succeeds, and then the capacity reaches the request. The elements are unchanged, and a new buffer is made only when the capacity grows. |
| LcdfVector.Vector.Shrink | include/lcdf/vector.cc:85-92 | Truncates to the first nn elements when nn is smaller than the length, and otherwise changes nothing. The buffer is the same. |
| LcdfVector.Vector.Resize | include/lcdf/vector.cc:95-104 | On success, the length is nn, old elements below nn are kept and new ones are the fill element. When the allocation fails, nothing changes. |
| LcdfVector.Vector.Swap | include/lcdf/vector.cc:107-118 | The two vectors exchange buffer, length and capacity. |

## Left out

- `unparse` and `unparse_glyphid` (otftotfm/gsubencoding.cc:649-687) only print the tables for debugging. They are not modelled.
- The text of the overflow warning is not modelled: the name lookup through `glyph_names`, the sort of the names, the line filling and the `ErrorHandler` calls (otftotfm/gsubencoding.cc:505-515). The model returns the list of unplaced glyph values instead.
- Glyph names and the `DvipsEncoding` are abstracted as a `Reference`. It carries the code the target encoding gives each glyph's name (no entry when the glyph has no name or the name is not encoded) and the set of codes the target encoding uses.
- `ShrinkEncoding` returns the reassignment as a second output so that its contract can speak about it. The source keeps the reassignment local.
- GsubEncodingEngine.GsubEncoding.ShrinkEncoding: requires every preferred code to be below `size`. This excludes a case where the source breaks the no-dangling invariant. Take a preferred code e with `size` <= e < the table's size and an empty code e. The first pass stores the glyph at e (otftotfm/gsubencoding.cc:478-481). Line 524 then maps the glyph's old code to e, and after the resize at line 527 every reference to it dangles. The glyph also leaves the table without being reported, since its new position is set. Example: table [0,0,5], size 1, glyph 5 preferring code 1; references to code 2 become 1 in a table of one code. A preferred code at or past the table's end makes line 479 read outside `_encoding`. The model does not capture either case. The callers that choose `size` and the target encoding are not part of this model; the case cannot arise when the target encoding has no more codes than `size`.
- GsubEncodingEngine.GsubEncoding.ShrinkEncoding: also requires the no-dangling invariant. The reassignment has one entry per old code plus one, so without the invariant `reassign_codes` (otftotfm/gsubencoding.cc:414-434) indexes it out of bounds.
- GsubEncodingEngine.GsubEncoding.PlacePreferred: requires preferred codes below `size`, for the reason given for `ShrinkEncoding`.
- GsubEncodingEngine.GsubEncoding.PlaceHighGlyphs: requires preferred codes below `size`, for the reason given for `ShrinkEncoding`.
- LigatureSimplify.SimplifiedLigaturesChain: states the chain in the tables as they stand after shortening. The later removal passes may remove some of the chain's ligatures, as the source does.
- GsubEncodingEngine.GsubEncoding.CutEncoding: requires the no-dangling invariant. Without it, the source indexes the reassignment out of bounds.
- GsubEncodingEngine.GsubEncoding.ReassignCodes: requires every code to be within the reassignment, for the same reason.
- `std::sort` with the comparison operators of gsubencoding.hh, which is not part of this model, is modelled as a stable insertion sort by key. Kerns sort by (left, right) and positionings by code. Slots sort by glyph value alone, as the source's `operator<` says; for equal values the model keeps code order, where `std::sort` leaves the order unspecified.
- The inline helpers `encoding(g)` and `assign_emap` and the constants `FAKE_LIGATURE` and `CODE_ALL` are defined in gsubencoding.hh, which is not part of this model. `Lookup` trusts a cached code only while that code still holds the glyph, and otherwise scans. The constants are positive placeholders, and only that property is used.
- The heap bitvectors (`changed_context`, `pair_changed`, `single_changed`: one word per 32 codes, allocated on first use, freed at the end) are modelled as sets of codes. Their allocation and release are not modelled.
- C++ `int` is 32 bits, so summed kern amounts and offsets can overflow in the source. The model uses unbounded integers.
- The `Substitution` and `Positioning` classes of the OpenType library are not part of this model. Rules are datatypes carrying the glyphs and values the engine reads, and an alternate substitution carries its first alternative.
- `Vector<T>`: placement `new`, the destructor (include/lcdf/vector.cc:31-36) and element destructors have no counterpart in Dafny.
  - Whether `new` succeeds is a parameter (`memoryAvailable`).
  - The inline members in vector.hh (`push_back`, `clear`, indexing), which are not part of this model, appear only as sequence operations in the engine.
- LcdfVector.Vector.Shrink: requires a non-negative length. The source would run element destructors at negative indexes.
- LcdfVector.Vector.Resize: requires a non-negative length, for the same reason.
- LcdfVector.Vector.Assign: requires a non-negative count, for the same reason.
- include/efont/t1item.hh and include/efont/t1csgen.hh declare Type 1 font types that the engine does not use. They are not modelled.
- The boundary glyph is stored but no modelled operation reads it.

## Findings

| source | as written | input that shows it | evidently intended | confidence | as-written member | corrected member |
|---|---|---|---|---|---|---|
| otftotfm/gsubencoding.cc:489-500 | Avoidance of target-encoding codes is turned off, and the sweep restarted at code 0, only after passing over the last code. When the last code is filled by a placement, the loop ends with avoidance still on. | Table [0, 0, 7, 9], size 2, target encoding uses code 0, no preferred codes: glyph 7 goes to code 1, and glyph 9 is dropped although code 0 is empty. | A second sweep that accepts any free code whenever glyphs remain, so that a glyph is dropped only when every low code is full. | medium; not executed | ShrinkFindings.SweepAsWrittenDropsEarly | GsubEncodingEngine.GsubEncoding.PlaceRemaining |
| otftotfm/gsubencoding.cc:504-508 | The warning lists the glyph of every slot from the stopping slot on, including slots the first pass already placed. | Table [0, 5, 7], size 1, glyph 7 prefers code 0: 7 takes code 0 in the first pass, and the warning names 5 and 7 while only 5 is dropped. | List only the glyphs of unplaced slots. | high; not executed | ShrinkFindings.ReportedAsWrittenListsPlaced | GsubEncodingEngine.GsubEncoding.UnencodableGlyphs |
