# tategakifont in Dafny

This project models how tategakifont decides the orientation of each glyph when it converts a
font for vertical (tategaki) text. The tool has two halves that share one text format.

- **The orientation-table generator** (`vort/src/main.rs`) reads the Unicode
  `VerticalOrientation.txt` file. That file holds the Vertical_Orientation property of Unicode
  Standard Annex #50. The generator lays the file's ranges over a built-in list of default
  ranges, with the later range winning. It then prints the resulting table as `lo hi value`
  lines in lower-case hex.
- **The converter** (`main.py`) does the rest:
  - reads the table back;
  - looks code points up in it by binary search;
  - indexes the font's lookups by feature tag;
  - applies each glyph's first `vert` substitution or positioning row;
  - chooses the glyphs to rotate (U and Tu code points, the unencoded glyphs their substitutions
    reach, and the glyphs `vert` changed);
  - strips `palt`, `kern` and `dist` positioning that no longer fits;
  - optionally replaces the printable ASCII glyphs by their fullwidth forms.

The font is modelled as a `Fonts.Font` object. Its glyph list and its selection change in place.
Each glyph is a record with:

- a code point (`-1` when unencoded);
- advances;
- an opaque outline with an offset;
- its positioning/substitution rows, each tagged with its subtable.

Rules name other glyphs by index.

Modules, in dependency order:

| file | module | models |
|---|---|---|
| wrappers.dfy | Wrappers | `Option` / `Result` |
| text.dfy | Text | Rust and Python whitespace, `trim`, `split`, hex digits and `{:x}` |
| vort.dfy | Vort | `vort/src/main.rs`: `Orient`, the line parser, the default ranges, the overlay, the output |
| table.dfy | OrientationTable | `get_table`, `line_to_range_type`, `table_at` (main.py:17-24, 74-85) |
| interchange.dfy | Interchange | the generator's output read back by the converter |
| font.dfy | Fonts | glyphs, rows, `getPosSub`, `removePosSub`, copy/paste, the `Font` class |
| layout.dfy | Layout | `fill_tagmap` (main.py:32-44) |
| vertsub.dfy | VertSub | `apply_sub` (main.py:46-71) |
| selection.dfy | Selection | the three selection passes (main.py:120-140) |
| repair.dfy | Repair | the positioning repair (main.py:142-160) |
| widths.dfy | Widths | `--half-to-full` (main.py:182-191) |
| pipeline.dfy | Pipeline | the order of the steps in `main` (main.py:111-191) |

Stateful code is modelled with methods and loops that mutate the `Font` object. Each method is
proved against a pure function, such as `TableAt` against `Lookup`, `ApplySub` against `SubUpTo`,
or `FollowSubstitutions` against an ordered list of add/remove events. What the code promises is
then proved about those functions.

`fill_tagmap` (main.py:41-44) appends every subtable of every lookup that carries a tag, so a
subtable shared by two lookups appears twice.

## Model

| member | source | states |
|---|---|---|
| Text.SplitOn | vort/src/main.rs:43 | `split(sep)` gives at least one part. The parts joined by `sep` give the input back, and no part contains `sep`. Every cut is at the leftmost occurrence of `sep`, which fixes the parts when occurrences overlap. |
| Text.OverlappingSeparator | vort/src/main.rs:51 | With the self-overlapping `..`, `A...B` splits into `A` and `.B`. |
| Text.TrimPadded | vort/src/main.rs:41 | `trim` removes exactly the whitespace around a word. |
| Text.Hex | vort/src/main.rs:129 | `{:x}` prints non-empty lower-case hex digits whose value is the number, with no leading zero. |
| Vort.Display | vort/src/main.rs:8-17 | Every value prints as a non-empty token made of the letters U, R, T, u, r. |
| Vort.OrientRoundTrip | vort/src/main.rs:44-50 | The token `match` accepts exactly the four printed forms: a token parses to `o` if and only if it is the text `o` prints as. |
| Vort.FromStrRadix16 | vort/src/main.rs:53-57 | `u32::from_str_radix(_, 16)`: hex digits (after an optional `+`) whose value fits in 32 bits give that value; an empty field, a non-digit anywhere after an optional leading `+`, and a value above `u32::MAX` are rejected; no result exceeds `u32::MAX`. |
| Vort.ParseLine | vort/src/main.rs:36-66 | A line gives no entry exactly when the text before its first `#`, trimmed, is empty; any entry it gives has both ends within 32 bits. |
| Vort.BlankAndCommentLinesSkipped | vort/src/main.rs:37-42 | A blank line and a comment line, even one with leading whitespace, give no entry. |
| Vort.DataLineParses | vort/src/main.rs:43-62 | A data line's result is decided by its code field and its value token, whatever the whitespace around them or the comment after them. |
| Vort.RangeLineParses | vort/src/main.rs:51-58 | `A..B ; V` gives the entry `(A, B) -> V`, with the fields trimmed before the hex parse. |
| Vort.SingleLineParses | vort/src/main.rs:51-54 | `A ; V` gives the entry `(A, A) -> V`. |
| Vort.MissingValuePanics | vort/src/main.rs:43-44 | A non-empty line with no `;` panics on `row[1]`. |
| Vort.UnknownValuePanics | vort/src/main.rs:44-50 | A value token other than U, R, Tu, Tr panics. |
| Vort.TooManyDotsPanics | vort/src/main.rs:51-61 | A code field with two `..` separators panics. |
| Vort.BadHexPanics | vort/src/main.rs:52-54 | A code field that is not valid hex panics. |
| Vort.ParseLinesAppend | vort/src/main.rs:35-68 | Parsing two blocks of lines gives the first block's entries followed by the second's, in line order; the first panic decides the error. |
| Vort.DefaultRanges | vort/src/main.rs:73-113 | There are 37 default ranges; the first is `(0x0, 0x10FFFF) -> R`; each has `lo <= hi <= 0x10FFFF`; all the others are U. |
| Vort.GetRanges | vort/src/main.rs:115-120 | The ranges start with the defaults, and the file's ranges come after them. The result is an error exactly when the file's parse panics. |
| Vort.InsertSpec | vort/src/main.rs:126 | Inserting a range into a sorted disjoint table keeps it sorted and disjoint; the range's points take its value, and every other point keeps its value. |
| Vort.LastValueIsLast | vort/src/main.rs:125-127 | The reference value a sequence of inserts gives a code point is the value of the last range containing it. |
| Vort.RangesCoverAllCodes | vort/src/main.rs:115-127 | Every code point from 0 to 0x10FFFF gets a value; a file range overrides the defaults; where no file range applies, the defaults decide. |
| Vort.BuildTable | vort/src/main.rs:122-127 | The overlay loop panics exactly when some range runs backwards; otherwise the map is sorted and disjoint and gives each code point the value of the last range containing it. |
| Vort.Generate | vort/src/main.rs:122-131 | `main` with the file passed in: the parse error when the parse panics; otherwise the range map's panic exactly when some range runs backwards, and else the printed lines of a sorted, disjoint table that gives each code point the last containing range's value and covers every code point. |
| OrientationTable.PyHexInt | main.py:20 | `int(s, 16)` on hex digits gives their value; an empty string is rejected. |
| OrientationTable.PyHexIntOfHex | main.py:20 | `int(s, 16)` reads back every number printed with `{:x}`. |
| OrientationTable.PyHexIntRejects | main.py:20 | `int(s, 16)` rejects a bare `0x` and an underscore at either end of the digits. |
| OrientationTable.LineToRangeType | main.py:18-20 | A line parses exactly when it has at least three words and the first two are hex integers; the class is the third word. |
| OrientationTable.LineErrors | main.py:18-20 | A blank line, or a line with a single hex word, is an `IndexError`; a first word that is not hex is a `ValueError`. |
| OrientationTable.LineReads | main.py:18-20 | Words joined by single spaces, the first two hex, parse to `[[lo, hi], cls]`; words after the third are ignored. |
| OrientationTable.SplitLines | main.py:23 | `splitlines()` produces lines that contain no line break. |
| OrientationTable.ParseRowsError | main.py:23 | Reading the lines fails exactly when some line fails, and then with the first failing line's error. |
| OrientationTable.ParseRowsValue | main.py:23 | When every line parses, the table is those rows, in line order. |
| OrientationTable.LookupAt | main.py:83-84 | In a sorted table, the lookup of a code point inside a range is that range's class. |
| OrientationTable.LookupNone | main.py:85 | The lookup of a code point that no range contains is `"None"`. |
| OrientationTable.TableAt | main.py:74-85 | The binary search fails with `IndexError` exactly when the table is empty. On a sorted non-empty table it gives the linear-scan result. A code point below every range, reached through `table[-1]`, gives `"None"`. Any other result is the class of a range containing the code point. |
| Interchange.LineReadsBack | main.py:18-20 | The converter reads each printed line back as the range and value it was printed from. |
| Interchange.ReadBack | main.py:17-24 | The converter reads the generator's whole output back as its table, row by row. |
| Interchange.RowsSorted | main.py:74-85 | The generated table meets the ordering the binary search needs. |
| Interchange.LookupMatches | main.py:74-85 | Looking a code point up in the read-back table gives the generator's value for it, or `"None"` where the generator has none. |
| Interchange.GeneratedTableServesLookup | vort/src/main.rs:128-130 | A table written by `Generate` reads back unchanged, is sorted and non-empty, and every lookup gives the last containing range's value. The unencoded code point -1 gives `"None"`. |
| Interchange.NoValueBelowZero | main.py:121-122 | No generated table gives the code point -1 a value, so unencoded glyphs look up as `"None"`. |
| Fonts.GetPosSub | main.py:51 | `getPosSub(st)` gives exactly the glyph's rows under subtable `st`. |
| Fonts.RemoveSubtables | main.py:147-160 | `removePosSub` keeps exactly the rows whose subtable is not removed. |
| Fonts.RemoveTwice | main.py:146-148 | Removing one set of subtables and then another is the same as removing their union. |
| Fonts.FindCode | main.py:186-189 | Selecting by code point finds the first glyph with that code point, or none when no glyph has it. |
| Fonts.Paste | main.py:56-61 | Copy/paste gives the target the source's outline and advances; the target keeps its code point and rows, and no other glyph changes. |
| Fonts.Font.constructor | main.py:101 | An opened font has the given glyphs and lookups and nothing selected. |
| Layout.TagSubtablesMember | main.py:32-44 | A subtable is listed under a tag exactly when some lookup carries both the tag and the subtable. |
| Layout.UnknownTagEmpty | main.py:41-42 | A tag no lookup carries has no subtables. |
| Layout.AppendTables | main.py:41-44 | The tag's list becomes its old list, or the empty list for a new tag, followed by the tables in order. Every other tag is untouched. |
| Layout.AddLookup | main.py:35-44 | The loop over one lookup's tags performs `AppendTables` for each tag in turn. |
| Layout.AddAllAt | main.py:37-44 | After one lookup, a tag is a key exactly when it was one before or the lookup carries it. Its list is the old list, or empty, followed by the lookup's subtables once for each time the lookup carries the tag. |
| Layout.TagSubtablesAppend | main.py:33 | With GPOS lookups listed before GSUB lookups, a tag's GPOS subtables come before its GSUB subtables. |
| Layout.FillTagmap | main.py:32-44 | The keys are exactly the tags of some lookup. Each tag lists, in lookup order (GPOS before GSUB), the subtables of every lookup that carries it. |
| VertSub.RowsInEmpty | main.py:51-52 | The glyph has no row under the tag exactly when none of its rows is in one of the tag's subtables. |
| VertSub.SubGlyph | main.py:51-71 | One iteration does what its glyph's first row says: skip, move, or paste. It reports whether the glyph goes into `subbed`. The selection ends empty after a paste. |
| VertSub.ApplySub | main.py:46-71 | An unknown tag changes nothing. Otherwise the glyphs are processed in order, and every row and code point is kept. The selection ends empty when some glyph was pasted over. |
| VertSub.SubbedIffActs | main.py:63-69 | A glyph enters `subbed` exactly when its first row is a positioning row or a substitution with a target. |
| VertSub.ClearedIffPasted | main.py:56-62 | The selection is cleared exactly when some glyph was pasted over. |
| VertSub.GlyphOutcome | main.py:50-71 | For each glyph: a glyph not acted on is unchanged. A positioned glyph has its advances and outline offset moved by the row's four values. A substituted glyph takes its target's outline and advances, as already updated when the target came earlier in the loop. The glyph is in `subbed` exactly when it was acted on. |
| VertSub.NoRowsNoChange | main.py:52-53 | With no subtables under the tag, no glyph changes and `subbed` stays empty. |
| Selection.ApplyMember | main.py:121-140 | After a sequence of `more`/`less` selections, a glyph is selected exactly when the last one about it is `more`, or there is none and it was selected before. |
| Selection.SeedUpTo | main.py:121-123 | After the first pass over `n` glyphs, a glyph is selected exactly when it was before or is among them and classed U or Tu. |
| Selection.SeedRotated | main.py:121-123 | The first loop leaves the glyphs alone and adds every glyph classed U or Tu. |
| Selection.ReferredByRow | main.py:129-131 | A glyph is referred to exactly when one of the rows is a single, multiple or alternate substitution that names it. |
| Selection.MarkOperand | main.py:132-136 | An unencoded operand is added when the referring glyph is U or Tu and removed otherwise; an encoded one is left alone. |
| Selection.FollowRow | main.py:131-136 | The operands of one row act on the selection in order. |
| Selection.FollowSubstitutions | main.py:126-136 | The second loop applies, in glyph and row order, the events of every encoded glyph's substitution rows. |
| Selection.SelectSubbed | main.py:139-140 | The third loop adds every glyph in `subbed`. |
| Selection.LastReferrerIsLast | main.py:126-136 | The referrer found refers to the glyph and no later glyph does; none is found exactly when no glyph refers to it. |
| Selection.LastReferrerDecides | main.py:126-136 | The second pass leaves an unencoded glyph as the class of its last encoded referrer says. |
| Selection.RotationOutcome | main.py:120-140 | Every glyph in `subbed` is rotated. An encoded glyph is rotated exactly when it was selected, is U or Tu, or is in `subbed`. An unencoded glyph outside `subbed` is rotated exactly when its last encoded referrer is U or Tu. |
| Selection.SelectForRotation | main.py:120-140 | The three loops leave exactly the selection `Rotated` describes. |
| Selection.RotationInRange | main.py:120-140 | Every rotated glyph is a glyph of the font. |
| Repair.TagTablesLiteral | main.py:146-151 | The tables considered are those under `palt`, `kern` and `dist` for rotated glyphs, and under `kern` and `dist` for the others. Absent tags contribute none. |
| Repair.RepairOutcome | main.py:142-160 | A rotated glyph keeps a row exactly when its subtable is not under `palt`, `kern` or `dist`. Another glyph keeps it unless its subtable is under `kern` or `dist` and some row of that subtable pairs with a rotated glyph. No row is added. |
| Repair.DropTables | main.py:146-148 | Removing a tag's subtables from one glyph changes nothing else. |
| Repair.FindSelectedPartner | main.py:153-158 | The `delete` flag is set exactly when some row of the subtable pairs with a selected glyph. |
| Repair.DropPaired | main.py:152-160 | Over a tag's subtables, exactly those that pair with a selected glyph are removed. |
| Repair.RepairRotated | main.py:145-148 | A selected glyph loses its `palt`, `kern` and `dist` subtables. |
| Repair.RepairUpright | main.py:149-160 | An unselected glyph loses each `kern` or `dist` subtable that pairs with a selected glyph. |
| Repair.RepairGlyph | main.py:144-160 | One glyph is repaired according to whether it is selected. |
| Repair.RepairPositioning | main.py:142-160 | Each glyph ends up with its repaired rows. Nothing else about any glyph changes, and the selection is kept. |
| Repair.RotatedClean | main.py:145-148 | After the repair, no selected glyph has a row under `palt`, `kern` or `dist`. |
| Widths.PasteWidth | main.py:184-190 | One pass keeps every glyph's code point and rows. |
| Widths.WidthsOutcome | main.py:183-190 | After the passes, each glyph found for an ASCII code point from 0x21 to 0x7E holds its fullwidth form's original outline and advances, when the font has that form. Every other glyph is unchanged. |
| Widths.WidthsIdempotent | main.py:183-190 | Running the whole pass a second time changes nothing. |
| Widths.HalfToFull | main.py:182-191 | The loop performs the passes for 0x21 to 0x7E in order and leaves the selection empty. |
| Pipeline.Convert | main.py:111-191 | The whole conversion keeps every glyph and code point and indexes every tag with its subtables. `vert` acts as `SubUpTo` says, and the rotated set is exactly what the three selection passes give on the font `vert` left. It includes every glyph `vert` changed and every encoded glyph classed U or Tu, and holds only glyphs of the font. Every glyph ends as `vert` left it (widened under `--half-to-full`) with its rows repaired, so no rotated glyph keeps a `palt`, `kern` or `dist` row. The selection ends empty. |
| Pipeline.AfterVert | main.py:114-115 | `apply_sub(font, "vert", ...)` keeps every glyph's rows and code point, and lists only glyphs of the font in `subbed`. |
| Pipeline.SubbedRotated | main.py:138-140 | Every glyph `vert` changed is selected for rotation. |

## Left out

- Network and file I/O are not modelled: fetching `VerticalOrientation.txt` and the out-of-date warning (vort/src/main.rs:21-32), reading `table.txt`, opening and generating fonts, `cidFlatten` and the name edits. The file contents are parameters instead.
- `argparse`, `eprint`, the unused `has_vert_sub` and the `ttlook` index (main.py:27-31, 38-40) are not modelled.
- The rotation about the chosen centre (main.py:163-180) and `font.round()` (main.py:193-196) use floating-point matrices and are not modelled. `Pipeline.Convert` returns the set of glyphs the rotation acts on. The `bb` centre is taken from the last bounding box rather than the accumulated one; it is part of that floating-point code.
- The `rangemap` crate's merging of adjacent ranges with equal values is not modelled. The map is a sorted list of disjoint ranges, and the properties are stated pointwise: the value at each code point.
- Python's `int(_, 16)` accepts non-ASCII digits; the model accepts ASCII hex digits only.
- Fonts are the abstract records described above, not fontforge objects. Glyphs are identified by index, and rules name glyphs by index.
- Copy/paste transfers only the outline and the two advances.
- `Paste` covers only the case where both glyphs exist: what fontforge does with a missing source is not modelled, and `--half-to-full` skips a code point when either glyph is missing.
- `Repair.Partner` gives no partner for a positioning row. The source indexes the font by the row's third field, which for a positioning row is a number rather than a glyph name.
- `VertSub.StepGlyphs` treats a paste from a glyph index outside the font as no change. With well-formed rules (`Fonts.RefsOk`) this does not arise.
- `OrientationTable.TableAt` requires nothing, but the substitution (`VertSub.SubGlyph`, `VertSub.ApplySub`), selection and pipeline methods require a sorted, non-empty table (the form the generator produces, `Interchange.GeneratedTableServesLookup`). On other tables, `table_at` can disagree with the linear scan used to specify them.
