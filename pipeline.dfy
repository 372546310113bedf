/**
 * The decision steps of `main` (main.py:111-191) in their order: index the
 * lookups, apply `vert`, choose the glyphs to rotate, repair horizontal
 * positioning, clear the selection, and optionally widen ASCII glyphs.
 * The rotation itself (main.py:163-180) and the rounding (main.py:193-196)
 * change outlines by floating-point matrices and are not part of this
 * model; `Convert` returns the set of glyphs the rotation acts on.
 */
module Pipeline {
  import opened Fonts
  import opened OrientationTable
  import opened Layout
  import opened VertSub
  import opened Selection
  import opened Repair
  import opened Widths

  /** What `apply_sub(font, "vert", ...)` leaves: the glyphs, the `subbed`
      list and whether the selection was cleared. With no `vert` feature
      nothing changes. */
  function AfterVert(glyphs: seq<Glyph>, tagmap: map<string, seq<string>>, onlySubTable: bool, table: seq<Row>)
    : (v: SubState)
    ensures SameRows(glyphs, v.glyphs) && SameCodes(glyphs, v.glyphs)
    ensures forall k :: 0 <= k < |v.subbed| ==> v.subbed[k] < |glyphs|
  {
    if "vert" in tagmap then
      var plan := Plan(glyphs, tagmap["vert"], onlySubTable, table);
      SubUpToFacts(glyphs, plan, |glyphs|);
      SubUpTo(glyphs, plan, |glyphs|)
    else SubState(glyphs, [], false)
  }

  /** Each glyph as the conversion leaves it: as `vert` left it, widened
      when `--half-to-full` is given, and with its positioning rows
      repaired against the rotated glyphs. */
  function Finished(glyphs: seq<Glyph>, halfToFull: bool, tagmap: map<string, seq<string>>, rotated: set<GlyphId>)
    : (r: seq<Glyph>)
    ensures |r| == |glyphs|
  {
    seq(|glyphs|, i requires 0 <= i < |glyphs| =>
      (if halfToFull then Widened(glyphs, i, EndHalf) else glyphs[i])
        .(rows := RepairedRows(glyphs[i].rows, i in rotated, tagmap, rotated)))
  }

  method Convert(font: Font, table: seq<Row>, onlySubTable: bool, halfToFull: bool)
    returns (tagmap: map<string, seq<string>>, rotated: set<GlyphId>, ghost vert: SubState)
    requires font.Valid() && SortedTable(table) && table != []
    modifies font
    ensures font.Valid() && font.selection == {}
    ensures SameCodes(old(font.glyphs), font.glyphs)
    ensures tagmap.Keys == AllTags(font.gposLookups + font.gsubLookups)
    ensures forall t :: t in tagmap ==> tagmap[t] == TagSubtables(font.gposLookups + font.gsubLookups, t)
    ensures vert == AfterVert(old(font.glyphs), tagmap, onlySubTable, table) && RefsOk(vert.glyphs)
    // The three selection passes, run on the font `vert` left.
    ensures rotated == Rotated(vert.glyphs, table, if vert.cleared then {} else old(font.selection), vert.subbed)
    ensures forall i :: i in rotated ==> i < |font.glyphs|
    // Every glyph `vert` changed is rotated.
    ensures forall k :: 0 <= k < |vert.subbed| ==> vert.subbed[k] in rotated
    // Every encoded glyph the table classes U or Tu is rotated.
    ensures forall i ::
      (0 <= i < |font.glyphs| && old(font.glyphs)[i].unicode != -1 && Upright(table, old(font.glyphs)[i].unicode))
      ==> i in rotated
    // A rotated glyph keeps no row under `palt`, `kern` or `dist`.
    ensures forall i, p :: i in rotated && i < |font.glyphs| && p in font.glyphs[i].rows ==>
      p.subtable !in TagTables(tagmap, RotatedTags)
    // Every glyph's outline, advances and rows.
    ensures font.glyphs == Finished(vert.glyphs, halfToFull, tagmap, rotated)
  {
    ghost var glyphs0 := font.glyphs;
    ghost var sel0 := font.selection;
    tagmap := FillTagmap(font);
    var subbed := ApplySub(font, tagmap, "vert", onlySubTable, table);
    vert := AfterVert(glyphs0, tagmap, onlySubTable, table);
    ghost var subGlyphs := font.glyphs;
    assert subGlyphs == vert.glyphs && subbed == vert.subbed;
    assert SameCodes(glyphs0, subGlyphs);
    ghost var sel1 := font.selection;
    assert sel1 == if vert.cleared then {} else sel0;
    SelectForRotation(font, table, subbed);
    rotated := font.selection;
    UprightRotated(glyphs0, subGlyphs, table, sel1, subbed);
    SubbedRotated(subGlyphs, table, sel1, subbed);
    RepairPositioning(font, tagmap);
    ghost var repaired := font.glyphs;
    RepairedCodes(glyphs0, subGlyphs, repaired);
    RotatedClean(subGlyphs, repaired, tagmap, rotated);
    font.selection := {};
    if halfToFull {
      HalfToFull(font);
      WidthsKeep(repaired, EndHalf);
      WidthsOutcome(repaired, EndHalf);
      CodesKept(glyphs0, repaired, font.glyphs);
      CleanKept(repaired, font.glyphs, tagmap, rotated);
      FinishedWide(subGlyphs, repaired, font.glyphs, tagmap, rotated);
    } else {
      FinishedPlain(subGlyphs, repaired, tagmap, rotated);
    }
  }

  /** Every encoded glyph the table classes U or Tu, by its code point
      before `vert` was applied, is selected for rotation. */
  lemma UprightRotated(glyphs0: seq<Glyph>, subGlyphs: seq<Glyph>, table: seq<Row>, sel1: set<GlyphId>,
                       subbed: seq<GlyphId>)
    requires RefsOk(subGlyphs) && |subGlyphs| == |glyphs0|
    requires forall i :: 0 <= i < |subGlyphs| ==> subGlyphs[i].unicode == glyphs0[i].unicode
    ensures forall i ::
      (0 <= i < |glyphs0| && glyphs0[i].unicode != -1 && Upright(table, glyphs0[i].unicode))
      ==> i in Rotated(subGlyphs, table, sel1, subbed)
  {
    forall i | 0 <= i < |glyphs0| && glyphs0[i].unicode != -1 && Upright(table, glyphs0[i].unicode)
      ensures i in Rotated(subGlyphs, table, sel1, subbed)
    {
      RotationOutcome(subGlyphs, table, sel1, subbed, i);
    }
  }

  /** Every glyph in `subbed` is selected for rotation. */
  lemma SubbedRotated(glyphs: seq<Glyph>, table: seq<Row>, sel1: set<GlyphId>, subbed: seq<GlyphId>)
    requires RefsOk(glyphs) && forall k :: 0 <= k < |subbed| ==> subbed[k] < |glyphs|
    ensures forall k :: 0 <= k < |subbed| ==> subbed[k] in Rotated(glyphs, table, sel1, subbed)
  {
    forall k | 0 <= k < |subbed| ensures subbed[k] in Rotated(glyphs, table, sel1, subbed) {
      RotationOutcome(glyphs, table, sel1, subbed, subbed[k]);
    }
  }

  /** Proof step: with no widening, the repaired glyphs are `Finished`. */
  lemma FinishedPlain(subGlyphs: seq<Glyph>, repaired: seq<Glyph>, tagmap: map<string, seq<string>>,
                      rotated: set<GlyphId>)
    requires |repaired| == |subGlyphs|
    requires forall i :: 0 <= i < |repaired| ==>
      repaired[i] == subGlyphs[i].(rows := RepairedRows(subGlyphs[i].rows, i in rotated, tagmap, rotated))
    ensures repaired == Finished(subGlyphs, false, tagmap, rotated)
  {
  }

  /** Proof step: widening the repaired glyphs gives `Finished`, since
      widening does not read rows. */
  lemma FinishedWide(subGlyphs: seq<Glyph>, repaired: seq<Glyph>, wide: seq<Glyph>,
                     tagmap: map<string, seq<string>>, rotated: set<GlyphId>)
    requires |repaired| == |subGlyphs| && |wide| == |repaired|
    requires forall i :: 0 <= i < |repaired| ==>
      repaired[i] == subGlyphs[i].(rows := RepairedRows(subGlyphs[i].rows, i in rotated, tagmap, rotated))
    requires forall j :: 0 <= j < |repaired| ==> wide[j] == Widened(repaired, j, EndHalf)
    ensures wide == Finished(subGlyphs, true, tagmap, rotated)
  {
    forall j | 0 <= j < |wide| ensures wide[j] == Finished(subGlyphs, true, tagmap, rotated)[j] {
      WidenedRowsOnly(subGlyphs, repaired, j, EndHalf);
    }
  }

  /** Proof step: rows rewritten glyph by glyph leave the code points as
      they were. */
  lemma RepairedCodes(glyphs0: seq<Glyph>, before: seq<Glyph>, after: seq<Glyph>)
    requires SameCodes(glyphs0, before) && |after| == |before|
    requires forall i :: 0 <= i < |after| ==> after[i] == before[i].(rows := after[i].rows)
    ensures SameCodes(glyphs0, after)
  {
  }

  /** Proof step: keeping the code points twice keeps them. */
  lemma CodesKept(glyphs0: seq<Glyph>, a: seq<Glyph>, b: seq<Glyph>)
    requires SameCodes(glyphs0, a) && SameCodes(a, b)
    ensures SameCodes(glyphs0, b)
  {
  }

  /** Glyphs with the same rows stay free of the rotated glyphs' tags. */
  lemma CleanKept(a: seq<Glyph>, b: seq<Glyph>, tagmap: map<string, seq<string>>, rotated: set<GlyphId>)
    requires SameRows(a, b)
    requires forall i, p :: i in rotated && i < |a| && p in a[i].rows ==> p.subtable !in TagTables(tagmap, RotatedTags)
    ensures forall i, p :: i in rotated && i < |b| && p in b[i].rows ==> p.subtable !in TagTables(tagmap, RotatedTags)
  {
    forall i, p | i in rotated && i < |b| && p in b[i].rows
      ensures p.subtable !in TagTables(tagmap, RotatedTags)
    {
      assert p in a[i].rows;
    }
  }
}
