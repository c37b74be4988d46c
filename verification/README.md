# eepp document view, selector rules and action manager in Dafny

This project models three pieces of the eepp UI library:

- The **document view** (`DocumentView`). It turns the lines of a text document into *visible lines*, the rows a code editor draws:
  - soft line wrapping, letter-wise or word-wise, with an optional kept indentation;
  - folded regions, which hide whole lines;
  - the two caches that map between document lines and rows: the row list and the line-to-row table;
  - incremental cache update after an edit, fold and unfold, the visibility change that backs them, and the configuration setters.
- The **selector rule** of the CSS engine (`StyleSheetSelectorRule`):
  - parsing one compound selector fragment (`tag.class#id:pseudo`) into a rule with specificity and requirement flags;
  - matching that rule against an element.
- The **action manager** (`ActionManager`): the list of running actions. This covers adding, looking up by tag or target, deferred removal while an update pass runs, and the update pass itself.

Modules:

- `Common`: positions, ranges, `Option`.
- `LineWrap`: wrap tokens, indentation offsets, line breaking.
- `WrapRows`: the rule that places the breaks, stated without the scan.
- `WrapExamples`: word wrapping on small lines.
- `Folding`: fold-region bookkeeping.
- `DocView`: view state, the reference layout, cache rebuild, lookups and setters.
- `ViewFolding`: showing and hiding lines, fold and unfold.
- `ViewUpdate`: the incremental update after an edit.
- `UpdateCounterexamples`: concrete inputs for two update findings.
- `HideAsWritten`: the hide step on the source's integer line table.
- `SelectorRule`.
- `ActionManager`.

The reference meaning of a view's caches is the *layout*:

- Every document line has a shape: folded, or a list of break columns plus a padding.
- `DocView.RowsBetween` concatenates the rows of the unfolded lines.
- `DocView.Consistent` says that the rows, paddings and line table agree with that layout.

Most view theorems say that an operation keeps a consistent view consistent, or that it produces exactly the caches a full rebuild would.

Glyph widths come from a `Metrics` value: a table of integer advances plus a fallback. Text shaping is outside the model.

The source uses a signed integer sentinel for a hidden line. The table here uses a tagged slot instead: `Hidden | At(index)`. `HideAsWritten` keeps the integer form to show where the two differ.

The view's layout breaks lines with `LineWrap.ComputeLineBreaksAsWritten`, which keeps the source's arithmetic after a word break. `LineWrap.ComputeLineBreaks` is the corrected calculator of the Findings row for that arithmetic. The two differ only in word mode.

## Model

| member | source | states |
|---|---|---|
| LineWrap.ToLineWrapMode | src/eepp/ui/doc/documentview.cpp:8-15 | "word" and "letter" are recognised case-insensitively, and every other token means no wrapping |
| LineWrap.ToLineWrapType | src/eepp/ui/doc/documentview.cpp:29-34 | only "line_breaking_column" selects the breaking-column type, case-insensitively |
| LineWrap.WrapTokensRoundTrip | src/eepp/ui/doc/documentview.cpp:8-44 | parsing the printed name of a wrap mode or wrap type gives back the same value |
| LineWrap.LowerCaseFixed | src/eepp/ui/doc/documentview.cpp:8-15 | lower-casing a string with no upper-case letter leaves it unchanged |
| LineWrap.IndentLength | src/eepp/ui/doc/documentview.cpp:46-54 | the indentation is the longest prefix of spaces, tabs, newlines, vertical tabs, form feeds and carriage returns |
| LineWrap.ComputeOffsets | src/eepp/ui/doc/documentview.cpp:46-54 | the padding is 0 without a font or for an all-blank line; otherwise it is the width of the leading indentation |
| LineWrap.Scan | src/eepp/ui/doc/documentview.cpp:78-119 | the break scan only appends to the breaks found so far; breaks stay ordered and inside the line |
| LineWrap.ComputeLineBreaksAsWritten | src/eepp/ui/doc/documentview.cpp:56-122 | the source's calculator, used by the view: breaks start at 0, strictly increase after the first and stay below the line length. An empty line, a missing font or no-wrap mode give the single break 0. The padding is 0 unless indentation is kept, and then it is the indentation width of a non-empty line |
| LineWrap.AsWrittenDiffersOnlyInWordMode | src/eepp/ui/doc/documentview.cpp:104-111 | outside word mode the source's calculator and the corrected one give the same breaks and padding, because the double charge sits in the word-break branch |
| LineWrap.ComputeLineBreaks | src/eepp/ui/doc/documentview.cpp:56-122 | the corrected calculator (see Findings): breaks start at 0, strictly increase after the first and stay below the line length. An empty line, a missing font or no-wrap mode give the single break 0. The padding is the indentation width only when indentation is kept |
| LineWrap.LetterWrapIsGreedy | src/eepp/ui/doc/documentview.cpp:92-111 | in letter mode the rows are greedy. Every row but the last would overflow the width, padding included, if it took the next glyph. Every row fits the width, except a row that is only a glyph too wide to fit alone. The source's calculator gives the same breaks in letter mode |
| WrapRows.LastOpportunity | src/eepp/ui/doc/documentview.cpp:112-115 | the remembered column is the last space, dot, dash or comma among the row's accepted columns, with 0 meaning none |
| WrapRows.BreakAt | src/eepp/ui/doc/documentview.cpp:104-111 | an overflow opens a row no later than the overflowing column and no earlier than the first column the row checked; outside word mode it is the overflowing column |
| WrapRows.LineBreaksFollowRule | src/eepp/ui/doc/documentview.cpp:92-116 | in word and letter mode, with either charge after a word break, every break is the one the rule places: each row fits up to its overflow, the overflowing glyph does not fit, and a word break goes just after the last accepted opportunity |
| WrapRows.ComputeLineBreaksAsWrittenFollowsRule | src/eepp/ui/doc/documentview.cpp:92-116 | the source's calculator, used by the view, follows the rule with the glyph after a word break charged twice |
| WrapRows.ComputeLineBreaksFollowsRule | src/eepp/ui/doc/documentview.cpp:92-116 | the corrected calculator follows the rule, charging each continuation row its padding and its text only |
| WrapRows.RuleDeterminesBreaks | src/eepp/ui/doc/documentview.cpp:92-116 | the rule leaves no choice: two explained break lists for the same line are equal |
| WrapExamples.WordBreakAfterSpace | src/eepp/ui/doc/documentview.cpp:104-116 | "ab cd" at width 3 with unit glyphs breaks after the space, giving rows at 0 and 3 |
| WrapExamples.DoubleChargeBreaksFittingWord | src/eepp/ui/doc/documentview.cpp:104-107 | on "ab cde" at width 3 the corrected calculator gives rows at 0 and 3, and "cde" fits; the source's arithmetic gives 0, 3 and 5 |
| WrapExamples.AsWrittenBreaksBreakTheRule | src/eepp/ui/doc/documentview.cpp:104-107 | the source's breaks for "ab cde" are not explained by the rule for any overflow columns |
| LineWrap.WordWithoutOpportunitiesIsLetter | src/eepp/ui/doc/documentview.cpp:104-116 | on a line with no space, dot, dash or comma after its first character, word wrapping breaks exactly where letter wrapping does, with either calculator |
| Folding.IsFolded | src/eepp/ui/doc/documentview.cpp:532-536 | a line is folded exactly when some folded region's line span contains it |
| Folding.IsFoldedOnlyNeedsElements | src/eepp/ui/doc/documentview.cpp:532-536 | whether a line is folded depends only on the folded regions, not on their order |
| Folding.AddFoldRegion | src/eepp/ui/doc/documentview.cpp:456-459 | the normalized region is stored under its start line; the other declared regions are unchanged |
| Folding.InsertSorted | src/eepp/ui/doc/documentview.cpp:466-477 | inserting into a sorted region list keeps it sorted and adds exactly that region |
| Folding.AddFoldedRegion | src/eepp/ui/doc/documentview.cpp:466-477 | the folded list becomes sorted and holds the old regions plus the new one |
| Folding.RemoveFoldedRegion | src/eepp/ui/doc/documentview.cpp:526-530 | the first occurrence of the region is removed and the rest keep their order; a missing region changes nothing |
| Folding.AddThenRemoveRegion | src/eepp/ui/doc/documentview.cpp:466-530 | folding a region and then removing it gives back the same regions |
| Folding.IsFoldedAfterAdd | src/eepp/ui/doc/documentview.cpp:466-477 | after a fold, a line is folded exactly when it was folded before or lies in the new region |
| Folding.IsFoldedAfterRemove | src/eepp/ui/doc/documentview.cpp:526-530 | removing a region folds no new line and keeps folded every line outside the removed region |
| Folding.ShiftFoldingRegions | src/eepp/ui/doc/documentview.cpp:538-551 | regions starting at or after the edit line move by delta lines with their columns unchanged; earlier regions and the map keys stay as they were |
| Folding.ShiftedFoldedLines | src/eepp/ui/doc/documentview.cpp:538-551 | after shifting, a line before the edit keeps its fold state, edited lines are unfolded, and later lines take the fold state of their old position |
| DocView.Shapes | src/eepp/ui/doc/documentview.cpp:196-243 | the layout has one shape per document line |
| DocView.ShapesAt | src/eepp/ui/doc/documentview.cpp:206-236 | each line's shape is its own: folded, or its wrap breaks and padding |
| DocView.RowsBetweenSplit | src/eepp/ui/doc/documentview.cpp:206-236 | the rows of a line range are the rows of any two adjacent sub-ranges concatenated |
| DocView.RowsBetweenSorted | src/eepp/ui/doc/documentview.cpp:206-236 | the rows of a layout are in document order |
| DocView.LineBlock | src/eepp/ui/doc/documentview.cpp:206-236 | an unfolded line's rows form one contiguous block that starts at column 0; earlier lines come before it and later lines after it |
| DocView.FoldedLineHasNoRows | src/eepp/ui/doc/documentview.cpp:213-215 | no row belongs to a folded line |
| DocView.Rebuild | src/eepp/ui/doc/documentview.cpp:196-243 | without a width or document nothing changes; a loading document only marks the cache pending; otherwise the caches become consistent with the layout and every line's padding is recorded |
| DocView.InvalidateCache | src/eepp/ui/doc/documentview.cpp:196-243 | the line-by-line loop builds exactly the caches of the reference rebuild, with the source's line breaks |
| DocView.ConsistentShape | src/eepp/ui/doc/documentview.cpp:206-236 | in a consistent view a line is folded exactly when its table entry is hidden. An unfolded line's entry points at its first row, at column 0, and the rows of that line are exactly its block |
| DocView.RunEnd | src/eepp/ui/doc/documentview.cpp:252-259 | the scan from a row stops at the last row of the same line |
| DocView.ToVisibleIndex | src/eepp/ui/doc/documentview.cpp:245-262 | in one-to-one mode the line is its own index; otherwise the table entry is returned, or with retLast the last row of the same line |
| DocView.VisibleIndexOfLine | src/eepp/ui/doc/documentview.cpp:245-262 | the first and last rows of an unfolded line are its table entry and that entry plus the break count minus one; all rows in between belong to the line |
| DocView.GetVisibleIndexPosition | src/eepp/ui/doc/documentview.cpp:175-180 | in one-to-one mode the index is the line at column 0; otherwise it is the stored row |
| DocView.GetVisibleIndexRange | src/eepp/ui/doc/documentview.cpp:320-333 | a row's range starts at the row's position and stays on that line |
| DocView.RowRangesTileLine | src/eepp/ui/doc/documentview.cpp:320-333 | the ranges of an unfolded line's rows run from each break to the next, and the last one runs to the end of the line |
| DocView.IsWrappedLine | src/eepp/ui/doc/documentview.cpp:264-271 | only a view with wrapping on can report a wrapped line |
| DocView.WrappedLineIffSeveralBreaks | src/eepp/ui/doc/documentview.cpp:264-271 | an unfolded line counts as wrapped exactly when it has more than one break |
| DocView.GetLinePadding | src/eepp/ui/doc/documentview.cpp:182-187 | the padding is 0 in one-to-one mode or with an empty padding cache |
| DocView.OneToOneCacheIsIdentity | src/eepp/ui/doc/documentview.cpp:490-492 | a consistent one-to-one view maps every line to itself at column 0 |
| DocView.VisibleLinesCountWithoutWrap | src/eepp/ui/doc/documentview.cpp:452-454 | without wrapping, the visible line count is the number of unfolded lines |
| DocView.UnfoldedCountWithoutFolds | src/eepp/ui/doc/documentview.cpp:452-454 | with no fold, every line is visible |
| DocView.SetMaxWidth | src/eepp/ui/doc/documentview.cpp:152-159 | the width is stored. The caches are rebuilt, and so consistent, when the width changes, when forced or when pending; otherwise nothing changes |
| DocView.SetLineWrapMode | src/eepp/ui/doc/documentview.cpp:168-173 | setting the same mode changes nothing; a new mode leaves the view consistent and not pending |
| DocView.SetConfig | src/eepp/ui/doc/documentview.cpp:189-194 | setting the same configuration changes nothing; a new one leaves the view consistent and not pending |
| DocView.GetVisibleLinesCount | src/eepp/ui/doc/documentview.cpp:452-454 | one row per line in one-to-one mode, else the number of cached rows |
| DocView.VisibleLinesCountIsUnfoldedBreaks | src/eepp/ui/doc/documentview.cpp:452-454 | on a consistent cache the count is the sum of the break counts of the lines that are not folded |
| DocView.IsLineVisible | src/eepp/ui/doc/documentview.cpp:375-377 | a line is visible when its table entry points at a row |
| ViewFolding.LineVisibleIffUnfolded | src/eepp/ui/doc/documentview.cpp:375-377 | on a consistent cache a line is visible exactly when no folded region hides it |
| DocView.SetDocument | src/eepp/ui/doc/documentview.cpp:339-344 | setting the same document changes nothing; a new one leaves the view consistent and not pending |
| DocView.ClearCache | src/eepp/ui/doc/documentview.cpp:354-358 | the three caches are emptied and nothing else changes |
| DocView.Clear | src/eepp/ui/doc/documentview.cpp:360-364 | the caches and all fold regions are dropped; the view is one-to-one exactly when wrapping is off |
| ViewFolding.HideTable | src/eepp/ui/doc/documentview.cpp:510-523 | lines before the span keep their entries, the span's lines become hidden, and later lines keep whether they were hidden (corrected: the source's subtraction also moves the sentinel, see Findings) |
| HideAsWritten.HideTableAsWritten | src/eepp/ui/doc/documentview.cpp:515-521 | the source's hide on 64-bit entries: the span becomes the sentinel and every later entry, the sentinel included, loses the erased row count with wrap-around |
| HideAsWritten.AsWrittenAgreesElsewhere | src/eepp/ui/doc/documentview.cpp:515-521 | the integer table agrees with the slot table on every line except a later line that was already hidden |
| HideAsWritten.AsWrittenShowsHiddenLine | src/eepp/ui/doc/documentview.cpp:519-521 | such a line reads as visible in the integer table once rows were erased, while the slot table keeps it hidden |
| HideAsWritten.FoldAboveFoldShowsIt | src/eepp/ui/doc/documentview.cpp:515-521 | folding line 0 of three one-row lines with line 2 folded turns line 2's sentinel -1 into -2 |
| ViewFolding.HideLines | src/eepp/ui/doc/documentview.cpp:510-523 | the rows of the hidden lines are cut out, and the entries of later visible lines move down by the number of removed rows |
| ViewFolding.LowerBound | src/eepp/ui/doc/documentview.cpp:496-498 | the lower bound is the first row not before the given position |
| ViewFolding.LowerBoundSearch | src/eepp/ui/doc/documentview.cpp:496-498 | binary search over sorted rows finds that lower bound |
| ViewFolding.ShowLines | src/eepp/ui/doc/documentview.cpp:495-509 | the shown lines' rows are inserted at the lower bound of their first line; the rows around them and the line table are unchanged |
| ViewFolding.ShowLinesLoop | src/eepp/ui/doc/documentview.cpp:499-508 | the insertion loop builds exactly those rows and paddings |
| ViewFolding.ChangeVisibility | src/eepp/ui/doc/documentview.cpp:494-524 | showing inserts the lines' rows and hiding cuts them out |
| ViewFolding.FoldRegion | src/eepp/ui/doc/documentview.cpp:466-477 | folding an undeclared key changes nothing; a declared region joins the sorted folded list and the view stops being one-to-one |
| ViewFolding.FoldOneToOneIsConsistent | src/eepp/ui/doc/documentview.cpp:466-477 | folding a region of a ready one-to-one view gives a consistent view that is not one-to-one and hides exactly the region's lines, whatever the cache held before, because the rebuild that follows the first fold in no-wrap mode replaces it |
| ViewFolding.RefoldHidesOutOfRange | src/eepp/ui/doc/documentview.cpp:511-521 | after an unfold that leaves the view one-to-one, the rows and the line table are empty, so the span the source's hide erases and the entries it writes lie past their ends |
| ViewFolding.RefoldAfterUnfoldIsConsistent | src/eepp/ui/doc/documentview.cpp:466-488 | folding a region again after its unfold left the view one-to-one is allowed, and gives a consistent view hiding exactly the region's lines |
| ViewFolding.UnfoldRegion | src/eepp/ui/doc/documentview.cpp:479-488 | the region leaves the folded list. A view that becomes one-to-one drops its caches; otherwise the line table is left as it was |
| ViewFolding.FoldKeepsConsistent | src/eepp/ui/doc/documentview.cpp:466-477 | folding a declared region of a consistent view keeps it consistent, and exactly the old folds and the region's lines are folded. This holds for the corrected hide, which keeps earlier folds hidden; the source's integer table does not (see Findings) |
| ViewFolding.FoldedLineIsHidden | src/eepp/ui/doc/documentview.cpp:375-377 | a folded line's table entry is hidden |
| ViewFolding.VisibleLineIsPlaced | src/eepp/ui/doc/documentview.cpp:375-377 | an unfolded line's table entry points at a row |
| ViewFolding.RebuildKeepsConsistent | src/eepp/ui/doc/documentview.cpp:196-243 | rebuilding a consistent view keeps it consistent |
| ViewFolding.MatchingCachesAgree | src/eepp/ui/doc/documentview.cpp:196-243 | two caches that agree with the same layout have the same rows and table |
| ViewFolding.SameFoldsSameCache | src/eepp/ui/doc/documentview.cpp:196-243 | two consistent views with the same document, settings and folded lines have the same rows and table |
| ViewFolding.UnfoldLeavesTableStale | src/eepp/ui/doc/documentview.cpp:479-509 | folding a region and unfolding it again leaves its first line hidden in the table, so the view is no longer consistent |
| ViewFolding.StaleAfterUnfold | src/eepp/ui/doc/documentview.cpp:479-509 | unfolding any folded region of a consistent view that stays wrapped or folded leaves the region's first line hidden, and the view inconsistent |
| ViewFolding.ShowLinesFixed | src/eepp/ui/doc/documentview.cpp:495-509 | the corrected show inserts the same rows and paddings as the original, and also rewrites the line table |
| ViewFolding.UnfoldRegionFixed | src/eepp/ui/doc/documentview.cpp:479-488 | the corrected unfold removes the region and keeps the document, settings and declared regions |
| ViewFolding.UnfoldFixedKeepsConsistent | src/eepp/ui/doc/documentview.cpp:479-509 | the corrected unfold keeps a consistent view consistent, and exactly the region's lines stop being folded |
| ViewFolding.FoldThenUnfoldFixedRestores | src/eepp/ui/doc/documentview.cpp:466-509 | folding and then unfolding with the correction gives back the original rows and table |
| ViewUpdate.ShiftRows | src/eepp/ui/doc/documentview.cpp:393-400 | each row after the edit moves by the line delta and keeps its column |
| ViewUpdate.EditedRows | src/eepp/ui/doc/documentview.cpp:402-420 | the recomputed rows of the edited lines are exactly their layout rows |
| ViewUpdate.EditedPads | src/eepp/ui/doc/documentview.cpp:402-420 | one recomputed padding per edited line |
| ViewUpdate.HideFoldedLines | src/eepp/ui/doc/documentview.cpp:405-409 | only entries of edited lines can change |
| ViewUpdate.Resize | src/eepp/ui/doc/documentview.cpp:424 | resizing keeps the old entries and pads with entries pointing at row 0 |
| ViewUpdate.SpliceRows | src/eepp/ui/doc/documentview.cpp:383-420 | the rows before the edit are kept, the edited rows are inserted, and the later rows are shifted |
| ViewUpdate.SpliceOffsets | src/eepp/ui/doc/documentview.cpp:383-420 | the paddings before and after the edit are kept around the recomputed ones |
| ViewUpdate.Spliced | src/eepp/ui/doc/documentview.cpp:379-420 | after the splice the table has one entry per new line, the new document is recorded, and the folds are shifted |
| ViewUpdate.SplicedRows | src/eepp/ui/doc/documentview.cpp:383-420 | for an edit that touches no fold, the spliced rows equal the rows of the new layout |
| ViewUpdate.UpdateCacheAsWritten | src/eepp/ui/doc/documentview.cpp:379-437 | the source's update: the new document is recorded, a one-to-one view only takes the document, and the table has one entry per line |
| ViewUpdate.UpdateCache | src/eepp/ui/doc/documentview.cpp:379-437 | the corrected update: the same frame, and settings and declared regions are kept |
| ViewUpdate.UpdateCacheIsRebuild | src/eepp/ui/doc/documentview.cpp:379-437 | after an edit that touches no fold, the corrected update leaves a consistent view whose rows and table equal a full rebuild's |
| UpdateCounterexamples.WideGlyphBreaks | src/eepp/ui/doc/documentview.cpp:104-111 | a one-glyph line whose glyph is wider than the width gets the breaks 0, 0 from the source's calculator |
| UpdateCounterexamples.WideGlyphUpdateIsStale | src/eepp/ui/doc/documentview.cpp:422-437 | on that line the source's update points the line at its second row, so the view is inconsistent, while the corrected update points it at row 0 |
| UpdateCounterexamples.FoldedTailUpdateIsStale | src/eepp/ui/doc/documentview.cpp:422-437 | inserting a line above a folded last line leaves that line's entry pointing at row 0 instead of hidden |
| UpdateCounterexamples.FoldedTailUpdateFixed | src/eepp/ui/doc/documentview.cpp:422-437 | for the same edit the corrected update hides the folded last line |
| SelectorRule.Listed | src/eepp/ui/css/stylesheetselectorrule.cpp:18-25 | the linear scan finds a name exactly when it occurs in the list |
| SelectorRule.IsPseudoClassState | src/eepp/ui/css/stylesheetselectorrule.cpp:7-25 | a pseudo-class is a state exactly when it is one of the eight state names |
| SelectorRule.IsStructuralPseudoClass | src/eepp/ui/css/stylesheetselectorrule.cpp:27-49 | a pseudo-class is structural when it is a prefix of one of the listed structural names |
| SelectorRule.StructuralPrefixDirection | src/eepp/ui/css/stylesheetselectorrule.cpp:43-49 | "first" counts as structural and "nth-child(2)" does not |
| SelectorRule.LastIndexOf | src/eepp/ui/css/stylesheetselectorrule.cpp:51-84 | finds the last occurrence of the mark, or -1 |
| SelectorRule.SplitPseudoClass | src/eepp/ui/css/stylesheetselectorrule.cpp:51-84 | a split selector is the base, the mark and a mark-free pseudo-class; a selector without the mark is not split |
| SelectorRule.SplitJoin | src/eepp/ui/css/stylesheetselectorrule.cpp:51-84 | joining a base and a pseudo-class and splitting again gives both back |
| SelectorRule.DoubledMarkKeepsSelector | src/eepp/ui/css/stylesheetselectorrule.cpp:58-61 | a doubled mark, as in a pseudo-element, is not split |
| SelectorRule.SplitSelectorPseudoClass | src/eepp/ui/css/stylesheetselectorrule.cpp:51-84 | the character loop computes that split |
| SelectorRule.StripPseudoClasses | src/eepp/ui/css/stylesheetselectorrule.cpp:122-137 | the stripped base rejoined with the stripped pseudo-classes gives back the fragment; the base has no pseudo-class left |
| SelectorRule.StripRejoin | src/eepp/ui/css/stylesheetselectorrule.cpp:122-137 | stripping a base joined with pseudo-classes gives back that base and list |
| SelectorRule.GlobalFallsThroughToTag | src/eepp/ui/css/stylesheetselectorrule.cpp:95-115 | the global tag earns the global weight and then everything a tag does |
| SelectorRule.Tokenize | src/eepp/ui/css/stylesheetselectorrule.cpp:139-181 | tokenizing leaves pseudo-classes and requirement flags alone |
| SelectorRule.StatesOf | src/eepp/ui/css/stylesheetselectorrule.cpp:122-137 | keeps exactly the state pseudo-classes |
| SelectorRule.StructuralOf | src/eepp/ui/css/stylesheetselectorrule.cpp:122-137 | keeps exactly the structural pseudo-classes that are not states |
| SelectorRule.ParseFragment | src/eepp/ui/css/stylesheetselectorrule.cpp:117-199 | the flags agree with the parsed parts; state and structural pseudo-classes come from the fragment's trailing pseudo-classes; the specificity includes the pseudo-class weight per state |
| SelectorRule.ParseComposed | src/eepp/ui/css/stylesheetselectorrule.cpp:117-199 | parsing a fragment composed from a plain tag, classes, an id and pseudo-classes gives back each part, with the specificity of its parts; the global tag and repeated ids have their own lemmas below |
| SelectorRule.TokenizeGlobal | src/eepp/ui/css/stylesheetselectorrule.cpp:96-103 | a fragment that is only the global mark sets the tag to that mark and earns the global weight plus the tag weight |
| SelectorRule.ParseGlobal | src/eepp/ui/css/stylesheetselectorrule.cpp:96-103 | parsing the global mark followed by pseudo-classes gives the global mark as the tag, no class, no id, the state pseudo-classes, and the global, tag and state weights |
| SelectorRule.ParseGlobalBeforeSegments | src/eepp/ui/css/stylesheetselectorrule.cpp:142-181 | a global mark followed by classes or an id is an ordinary tag: only the last buffer is tested for `*`, so the global weight is not earned |
| SelectorRule.ParseRepeatedIds | src/eepp/ui/css/stylesheetselectorrule.cpp:108-111 | with several ids the last one is kept, and every id adds the id weight |
| SelectorRule.TwoIdsKeepTheLast | src/eepp/ui/css/stylesheetselectorrule.cpp:108-111 | `#x#y` parses to the id `y` with twice the id weight |
| SelectorRule.ComposedStrips | src/eepp/ui/css/stylesheetselectorrule.cpp:122-137 | stripping a composed fragment separates its pseudo-classes from the rest |
| SelectorRule.ParseOfStripped | src/eepp/ui/css/stylesheetselectorrule.cpp:117-199 | parsing is tokenizing the stripped base and adding the state weight and flags |
| SelectorRule.ParsedRulesAgree | src/eepp/ui/css/stylesheetselectorrule.cpp:183-198 | every parsed rule's requirement flags match its non-empty parts |
| SelectorRule.HasClass | src/eepp/ui/css/stylesheetselectorrule.cpp:201-203 | true exactly for a class of the rule |
| SelectorRule.HasPseudoClass | src/eepp/ui/css/stylesheetselectorrule.cpp:209-211 | true exactly for a state pseudo-class of the rule |
| SelectorRule.HasStructuralPseudoClass | src/eepp/ui/css/stylesheetselectorrule.cpp:225-227 | true exactly for a structural pseudo-class of the rule |
| SelectorRule.DecideMeaning | src/eepp/ui/css/stylesheetselectorrule.cpp:229-280 | given the flags, a rule matches exactly when tag and id agree, its classes are satisfied, and with pseudo-classes applied those agree too |
| SelectorRule.MatchesMeaning | src/eepp/ui/css/stylesheetselectorrule.cpp:229-280 | the source's match needs every element class to be a rule class |
| SelectorRule.MatchesFixedMeaning | src/eepp/ui/css/stylesheetselectorrule.cpp:229-280 | the corrected match needs every rule class to be an element class |
| SelectorRule.GlobalTagMatchesAll | src/eepp/ui/css/stylesheetselectorrule.cpp:231-233 | a rule with the global tag matches every element |
| SelectorRule.ExtraElementClassDefeatsMatch | src/eepp/ui/css/stylesheetselectorrule.cpp:243-255 | the rule `.a` does not match an element with classes a and b, and the corrected match accepts it |
| ActionManager.AddAction | src/eepp/scene/actionmanager.cpp:19-25 | a new action is appended, an existing one changes nothing, and the list stays free of duplicates |
| ActionManager.IsEmpty | src/eepp/scene/actionmanager.cpp:118-120 | empty exactly when the count is 0 |
| ActionManager.Clear | src/eepp/scene/actionmanager.cpp:122-130 | the manager becomes empty |
| ActionManager.CountAfterAdd | src/eepp/scene/actionmanager.cpp:19-25 | adding raises the count by one unless the action was present; the manager is then not empty |
| ActionManager.FirstWithTag | src/eepp/scene/actionmanager.cpp:27-36 | finds the first action with the tag |
| ActionManager.GetActionByTag | src/eepp/scene/actionmanager.cpp:27-36 | nothing exactly when no action has the tag; otherwise the first action that has it |
| ActionManager.GetActions | src/eepp/scene/actionmanager.cpp:38-62 | the loop collects exactly the selected actions, in order |
| ActionManager.GetActionsFromTarget | src/eepp/scene/actionmanager.cpp:38-49 | exactly the actions on the target |
| ActionManager.GetActionsByTagFromTarget | src/eepp/scene/actionmanager.cpp:51-62 | exactly the actions on the target with the tag |
| ActionManager.RemoveAction | src/eepp/scene/actionmanager.cpp:132-146 | during an update the removal is queued; otherwise the action leaves the list |
| ActionManager.RemoveLowersCount | src/eepp/scene/actionmanager.cpp:132-146 | removing a present action lowers the count by one and keeps the list duplicate-free |
| ActionManager.RemoveActions | src/eepp/scene/actionmanager.cpp:148-152 | during an update all are queued; otherwise every listed action leaves the list |
| ActionManager.RemoveActionByTag | src/eepp/scene/actionmanager.cpp:132-146 | removes the first action with the tag, if any, leaving the removal queue alone; during an update pass the action stays and is only appended to the removal queue; with no such action nothing changes |
| ActionManager.RemoveEach | src/eepp/scene/actionmanager.cpp:148-152 | the loop removes the listed actions one by one, with the same result |
| ActionManager.RemoveSelected | src/eepp/scene/actionmanager.cpp:68-81 | all selected actions are removed, or queued during an update |
| ActionManager.RemoveAllActionsFromTarget | src/eepp/scene/actionmanager.cpp:154-167 | every action on the target is removed, or queued during an update; the update flag is unchanged |
| ActionManager.RemoveActionsByTagFromTarget | src/eepp/scene/actionmanager.cpp:68-81 | every action on the target with the tag is removed, or queued during an update; outside an update the list is the old list without exactly those actions, and the update flag is unchanged |
| ActionManager.Update | src/eepp/scene/actionmanager.cpp:83-112 | after a pass, the queued, requested and finished actions are gone, the queue is empty and the manager is not updating |
| ActionManager.UpdateRemovesDone | src/eepp/scene/actionmanager.cpp:91-111 | removing the finished actions after the queued ones is one removal of both sets |
| ActionManager.UpdateKeepsNoDuplicates | src/eepp/scene/actionmanager.cpp:83-112 | an update pass keeps the list free of duplicates |

## Left out

- Text shaping, kerning, floating-point widths and the monospace fast path of `computeLineBreaks`. Widths are natural numbers from a glyph table, because shaping lives in the font code.
- The `TextDocument` internals. A document is a list of lines plus a loading flag.
- The clamps on indices in lookups. They are preconditions instead, because out-of-range lookups are clamped silently in the source.
- `setFontStyle`, `getLineYOffset`, `getVisibleLineInfo` and `getVisibleLineRange`. They depend on font metrics or sit outside this part of the view.
- The debug re-check block at the end of `updateCache`. It only compares against a rebuild under a debug build.
- Out-of-range writes. Where the source could write past the line table, the model drops the write.
- ViewFolding.FoldRegion: in one-to-one mode, after an unfold or a clear dropped the cache, the source's hide erases rows past the end of the empty row list and writes line-table entries that do not exist. The model skips that hide, leaving the cache as it was. The rebuild that follows replaces the whole cache when the view has a width and a loaded document, so only the undefined writes are left out (see Findings).
- ViewUpdate.UpdateCache: in one-to-one mode it only records the new document, as the source does.
- ViewUpdate.UpdateCacheIsRebuild: it assumes the edit replaces lines `from..to` with lines `from..to+n`, with `from <= to+n`, and touches no folded line. For edits that cross a fold, the source's fold shifting does not define a layout to compare with.
- ViewUpdate.Resize: it pads with entries pointing at row 0, as the source's `resize` does. The corrected update then rewrites them.
- ViewUpdate.EditedPad: for a folded edited line, the update records the indentation width even in no-wrap mode, as the source does, while a rebuild records 0. The consistency relation does not constrain a folded line's padding, so the update theorem says nothing about it.
- ViewFolding.HideTable: the source marks hidden lines with an integer sentinel and shifts every later entry by subtraction, sentinels included. The model keeps a hidden line `Hidden`. This is the corrected behaviour; `HideAsWritten` models the subtraction and shows the difference.
- ViewFolding.FoldKeepsConsistent: it holds for the corrected hide only. With the source's subtraction, folding above an earlier fold makes the earlier fold's lines read as visible (`HideAsWritten.AsWrittenShowsHiddenLine`).
- The value of the sentinel (`VisibleIndex::invalid`) is defined outside the view file, so `HideAsWritten` takes it as a parameter.
- DocView.SetDocument: it compares documents by value, while the source compares object identity. Two distinct but equal documents count as the same document here, so no rebuild happens.
- ViewUpdate.UpdateCacheAsWritten: when no row is left at the start of the edit, the model reads the row before it. The source reads past the end of its rows there (documentview.cpp:425), which has no defined result.
- DocView.IsWrappedLine: it states only that wrapping must be on. The two-break meaning is in `DocView.WrappedLineIffSeveralBreaks`.
- DocView.GetLinePadding: it states only the zero cases. The stored paddings are described by `DocView.Rebuild`.
- SelectorRule.Matches and SelectorRule.MatchesFixed carry no contract of their own. Their meaning is stated by `SelectorRule.MatchesMeaning`, `SelectorRule.MatchesFixedMeaning` and `SelectorRule.DecideMeaning`.
- SelectorRule.IsStructuralPseudoClass: it follows the coded prefix test, so `first` is structural and `nth-child(2)` is not.
- The delimiter characters and specificity weights are parameters (`Marks`, `Weights`), because their values are defined outside the selector file.
- The pattern-match flag of selector rules. It belongs to the cascade, not to fragment parsing.
- Requirement flags are a set rather than a bit mask.
- Running an action (`update`, `isDone`, event dispatch, deletion). The pass takes the set of finished actions as a parameter.
- Actions added while an update pass runs. The pass is one step.

## Findings

| source | as written | input that shows it | evidently intended | confidence | as-written member | corrected member |
|---|---|---|---|---|---|---|
| src/eepp/ui/doc/documentview.cpp:479-509 | unfolding shows the region's rows again but never rewrites the line table | any consistent wrapped view: fold a declared region, then unfold it | the unfolded lines get entries pointing at their rows again | not executed | ViewFolding.UnfoldLeavesTableStale | ViewFolding.FoldThenUnfoldFixedRestores |
| src/eepp/ui/css/stylesheetselectorrule.cpp:243-255 | the class test asks that every element class be a rule class | rule `.a` against an element with classes `a` and `b` | every rule class must be an element class, as in CSS | not executed | SelectorRule.ExtraElementClassDefeatsMatch | SelectorRule.MatchesFixedMeaning |
| src/eepp/ui/doc/documentview.cpp:422-437 | the table scan stops at the last row, so folded lines after it keep the padding entry 0 from `resize` | document `a`, `b` with line 1 folded; insert one line above line 0 | trailing folded lines are marked hidden | not executed | UpdateCounterexamples.FoldedTailUpdateIsStale | UpdateCounterexamples.FoldedTailUpdateFixed |
| src/eepp/ui/doc/documentview.cpp:104-107 | after a word break the new row's width is the glyph's width plus the padding plus the width since the opportunity, and that last part already holds the glyph | unit glyphs, width 3, word mode: `ab cde` | the glyph is counted once, so `cde` (width 3) fits and the breaks are 0 and 3 rather than 0, 3 and 5 | not executed | WrapExamples.AsWrittenBreaksBreakTheRule | WrapRows.ComputeLineBreaksFollowsRule |
| src/eepp/ui/doc/documentview.cpp:519-521 | every entry after the hidden span loses the erased row count, including the sentinel of a line an earlier fold hid | three lines, one row each, line 2 folded; fold line 0 | lines that were hidden stay hidden, as the slot table keeps them | not executed | HideAsWritten.AsWrittenShowsHiddenLine | ViewFolding.FoldKeepsConsistent |
| src/eepp/ui/doc/documentview.cpp:426-436 | every column-0 row of a line overwrites its entry, and a glyph wider than the width gives two column-0 breaks | a one-character line whose glyph is wider than the width, re-laid out in place | each line points at its first row, as a rebuild records | not executed | UpdateCounterexamples.WideGlyphUpdateIsStale | ViewUpdate.UpdateCacheIsRebuild |
| src/eepp/ui/doc/documentview.cpp:511-521 | after an unfold leaves a no-wrap view one-to-one, the cache is cleared (486-487), yet folding a region again hides its lines in that empty cache: the erase runs past the end of the row list and the sentinel writes land past the end of the line table | no-wrap view, one declared region: fold it, unfold it, fold it again | the empty cache is left alone, since the rebuild at 475-476 recomputes all of it | not executed | ViewFolding.RefoldHidesOutOfRange | ViewFolding.RefoldAfterUnfoldIsConsistent |
