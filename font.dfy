/**
 * The font the script works on, reduced to what its decisions read and
 * write. A glyph is named by its index in the font; it has a code point
 * (-1 when unencoded), a horizontal and a vertical advance, an outline, and
 * the positioning/substitution rows the font's lookups give it, each row
 * filed under the subtable it belongs to. The outline is opaque: a shape
 * and the offset it has been translated by.
 */
module Fonts {
  import opened Wrappers

  type GlyphId = nat

  /** An outline: which drawing, and how far it has been moved. */
  datatype Outline = Outline(shape: nat, dx: int, dy: int)

  /** The kind of a row and the operands the script reads from it. */
  datatype Rule =
    | Position(dx: int, dy: int, dWidth: int, dVWidth: int)  // ("Position", x, y, h-adv, v-adv)
    | Pair(second: GlyphId)                                  // ("Pair", second glyph, ...)
    | Substitution(target: GlyphId)                          // ("Substitution", glyph)
    | AltSubs(alternates: seq<GlyphId>)                      // ("AltSubs", glyph, glyph, ...)
    | MultiSubs(parts: seq<GlyphId>)                         // ("MultiSubs", glyph, glyph, ...)
    | Ligature(components: seq<GlyphId>)                     // ("Ligature", glyph, glyph, ...)

  /** One row of `getPosSub`: the subtable it is filed under and its rule. */
  datatype PosSub = PosSub(subtable: string, rule: Rule)

  datatype Glyph = Glyph(unicode: int, width: int, vwidth: int, outline: Outline, rows: seq<PosSub>)

  /** A lookup: the feature tags it is registered under and its subtables. */
  datatype LookupInfo = LookupInfo(tags: seq<string>, subtables: seq<string>)

  /** The glyphs a rule names, from the third element of its tuple on. */
  function Operands(r: Rule): seq<GlyphId> {
    match r
    case Position(_, _, _, _) => []
    case Pair(g) => [g]
    case Substitution(g) => [g]
    case AltSubs(gs) => gs
    case MultiSubs(gs) => gs
    case Ligature(gs) => gs
  }

  /** Every rule names glyphs of the font, and a list-valued rule names at
      least one. */
  predicate RefsOk(glyphs: seq<Glyph>) {
    forall i, k :: 0 <= i < |glyphs| && 0 <= k < |glyphs[i].rows| ==>
      var r := glyphs[i].rows[k].rule;
      (!r.Position? ==> |Operands(r)| > 0)
      && forall j :: 0 <= j < |Operands(r)| ==> Operands(r)[j] < |glyphs|
  }

  /** Two glyph lists with the same rows, glyph by glyph. */
  predicate SameRows(a: seq<Glyph>, b: seq<Glyph>) {
    |a| == |b| && forall i :: 0 <= i < |a| ==> a[i].rows == b[i].rows
  }

  /** Two glyph lists with the same code points, glyph by glyph. */
  predicate SameCodes(a: seq<Glyph>, b: seq<Glyph>) {
    |a| == |b| && forall i :: 0 <= i < |a| ==> a[i].unicode == b[i].unicode
  }

  lemma SameRowsRefsOk(a: seq<Glyph>, b: seq<Glyph>)
    requires SameRows(a, b) && RefsOk(a)
    ensures RefsOk(b)
  {
    forall i, k | 0 <= i < |b| && 0 <= k < |b[i].rows|
      ensures var r := b[i].rows[k].rule;
              (!r.Position? ==> |Operands(r)| > 0)
              && forall j :: 0 <= j < |Operands(r)| ==> Operands(r)[j] < |b|
    {
      assert b[i].rows[k] == a[i].rows[k];
    }
  }

  /** Glyphs that keep a subset of their rows still refer only to glyphs of
      the font. */
  lemma FewerRowsRefsOk(a: seq<Glyph>, b: seq<Glyph>)
    requires RefsOk(a) && |a| == |b|
    requires forall i, p :: 0 <= i < |b| && p in b[i].rows ==> p in a[i].rows
    ensures RefsOk(b)
  {
    forall i, k | 0 <= i < |b| && 0 <= k < |b[i].rows|
      ensures var r := b[i].rows[k].rule;
              (!r.Position? ==> |Operands(r)| > 0)
              && forall j :: 0 <= j < |Operands(r)| ==> Operands(r)[j] < |b|
    {
      assert b[i].rows[k] in a[i].rows;
      var m :| 0 <= m < |a[i].rows| && a[i].rows[m] == b[i].rows[k];
    }
  }

  /** The elements of a list. */
  function Members<T>(xs: seq<T>): set<T> {
    set x | x in xs
  }

  /** `g.getPosSub(st)`: the glyph's rows filed under subtable `st`. */
  function GetPosSub(rows: seq<PosSub>, st: string): (r: seq<PosSub>)
    ensures forall k :: 0 <= k < |r| ==> r[k].subtable == st && r[k] in rows
    ensures forall p :: p in rows && p.subtable == st ==> p in r
  {
    if rows == [] then []
    else (if rows[0].subtable == st then [rows[0]] else []) + GetPosSub(rows[1..], st)
  }

  /** The rows whose subtable is not in `gone`, in their order. */
  function RemoveSubtables(rows: seq<PosSub>, gone: set<string>): (r: seq<PosSub>)
    ensures forall k :: 0 <= k < |r| ==> r[k].subtable !in gone && r[k] in rows
    ensures forall p :: p in rows && p.subtable !in gone ==> p in r
  {
    if rows == [] then []
    else (if rows[0].subtable in gone then [] else [rows[0]]) + RemoveSubtables(rows[1..], gone)
  }

  /** Removing one set of subtables and then another removes both. */
  lemma {:induction false} RemoveTwice(rows: seq<PosSub>, a: set<string>, b: set<string>)
    ensures RemoveSubtables(RemoveSubtables(rows, a), b) == RemoveSubtables(rows, a + b)
  {
    if rows != [] {
      RemoveTwice(rows[1..], a, b);
      var h := if rows[0].subtable in a then [] else [rows[0]];
      RemoveAppend(h, RemoveSubtables(rows[1..], a), b);
    }
  }

  lemma {:induction false} RemoveAppend(x: seq<PosSub>, y: seq<PosSub>, gone: set<string>)
    ensures RemoveSubtables(x + y, gone) == RemoveSubtables(x, gone) + RemoveSubtables(y, gone)
  {
    if x == [] {
      assert x + y == y;
    } else {
      assert (x + y)[1..] == x[1..] + y;
      RemoveAppend(x[1..], y, gone);
    }
  }

  /** Removing subtables the rows do not use changes nothing. */
  lemma {:induction false} RemoveUnused(rows: seq<PosSub>, gone: set<string>)
    requires forall k :: 0 <= k < |rows| ==> rows[k].subtable !in gone
    ensures RemoveSubtables(rows, gone) == rows
  {
    if rows != [] {
      RemoveUnused(rows[1..], gone);
    }
  }

  /** The glyph `font[...]` finds for a code point: the first one encoded
      there. */
  function FindCode(glyphs: seq<Glyph>, code: int): (r: Option<GlyphId>)
    ensures r.Some? ==> r.value < |glyphs| && glyphs[r.value].unicode == code
    ensures r.Some? ==> forall j :: 0 <= j < r.value ==> glyphs[j].unicode != code
    ensures r.None? ==> forall j :: 0 <= j < |glyphs| ==> glyphs[j].unicode != code
  {
    if glyphs == [] then None
    else if glyphs[0].unicode == code then Some(0)
    else
      match FindCode(glyphs[1..], code)
      case None => None
      case Some(k) => Some(k + 1)
  }

  /** `font.copy()` of glyph `src` then `font.paste()` into glyph `dst`:
      `dst` takes `src`'s outline and advances and keeps its own code point
      and rows. */
  function Paste(glyphs: seq<Glyph>, src: GlyphId, dst: GlyphId): (r: seq<Glyph>)
    requires src < |glyphs| && dst < |glyphs|
    ensures SameRows(glyphs, r)
    ensures forall j :: 0 <= j < |r| && j != dst ==> r[j] == glyphs[j]
    ensures r[dst].unicode == glyphs[dst].unicode
    ensures r[dst].outline == glyphs[src].outline
    ensures r[dst].width == glyphs[src].width && r[dst].vwidth == glyphs[src].vwidth
  {
    glyphs[dst := glyphs[dst].(outline := glyphs[src].outline, width := glyphs[src].width,
                               vwidth := glyphs[src].vwidth)]
  }

  /** The font object: its glyphs, the current selection (a set of glyph
      indices) and its two lookup lists. */
  class Font {
    var glyphs: seq<Glyph>
    var selection: set<GlyphId>
    const gposLookups: seq<LookupInfo>
    const gsubLookups: seq<LookupInfo>

    predicate Valid()
      reads this
    {
      RefsOk(glyphs) && forall i :: i in selection ==> i < |glyphs|
    }

    /** An opened font: nothing selected. */
    constructor (glyphs: seq<Glyph>, gpos: seq<LookupInfo>, gsub: seq<LookupInfo>)
      requires RefsOk(glyphs)
      ensures Valid()
      ensures this.glyphs == glyphs && selection == {}
      ensures gposLookups == gpos && gsubLookups == gsub
    {
      this.glyphs := glyphs;
      selection := {};
      gposLookups := gpos;
      gsubLookups := gsub;
    }
  }
}
