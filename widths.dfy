/**
 * The `--half-to-full` pass (main.py:183-191): for every printable ASCII
 * code point c from 0x21 to 0x7E, the glyph encoded at c takes the outline
 * and advances of the glyph encoded at c + 0xFEE0, its fullwidth form.
 */
module Widths {
  import opened Wrappers
  import opened Fonts

  /** The first and one-past-last code points the pass walks. */
  const FirstHalf: int := 33
  const EndHalf: int := 127

  /** The distance from an ASCII character to its fullwidth form. */
  const FullOffset: int := 0xFEE0

  /** One pass of the loop: copy the fullwidth glyph over the halfwidth
      one when the font has both. */
  function PasteWidth(glyphs: seq<Glyph>, c: int): (r: seq<Glyph>)
    ensures SameRows(glyphs, r) && SameCodes(glyphs, r)
  {
    var full := FindCode(glyphs, c + FullOffset);
    var half := FindCode(glyphs, c);
    if full.Some? && half.Some? then Paste(glyphs, full.value, half.value) else glyphs
  }

  /** The glyphs after the passes for the code points `FirstHalf` up to,
      not including, `n`. */
  function WidthsUpTo(glyphs: seq<Glyph>, n: int): seq<Glyph>
    decreases n - FirstHalf
  {
    if n <= FirstHalf then glyphs else PasteWidth(WidthsUpTo(glyphs, n - 1), n - 1)
  }

  /** Finding a glyph by code point depends on the code points only. */
  lemma {:induction false} FindCodeSameCodes(a: seq<Glyph>, b: seq<Glyph>, code: int)
    requires SameCodes(a, b)
    ensures FindCode(a, code) == FindCode(b, code)
  {
    if a != [] && a[0].unicode != code {
      FindCodeSameCodes(a[1..], b[1..], code);
    }
  }

  /** The fullwidth glyph glyph `j` is overwritten with, when `j` is the
      glyph found for a code point in `FirstHalf` up to `n` and the font has
      that code point's fullwidth form. */
  function Source(glyphs: seq<Glyph>, j: nat, n: int): Option<GlyphId>
    requires j < |glyphs|
  {
    var u := glyphs[j].unicode;
    if FirstHalf <= u < n && FindCode(glyphs, u) == Some(j) then FindCode(glyphs, u + FullOffset) else None
  }

  /** Glyph `j` after the passes up to `n`, by `Source`. */
  function Widened(glyphs: seq<Glyph>, j: nat, n: int): Glyph
    requires j < |glyphs|
  {
    match Source(glyphs, j, n)
    case None => glyphs[j]
    case Some(f) =>
      if f < |glyphs| then glyphs[j].(outline := glyphs[f].outline, width := glyphs[f].width, vwidth := glyphs[f].vwidth)
      else glyphs[j]
  }

  /** The passes keep every glyph's code point and rows. */
  lemma {:induction false} WidthsKeep(glyphs: seq<Glyph>, n: int)
    ensures SameRows(glyphs, WidthsUpTo(glyphs, n)) && SameCodes(glyphs, WidthsUpTo(glyphs, n))
    decreases n - FirstHalf
  {
    if n > FirstHalf {
      WidthsKeep(glyphs, n - 1);
    }
  }

  /** What the passes up to `n` make of each glyph: a glyph found for one of
      those code points takes its fullwidth form's original outline and
      advances (see `Widened`), and every other glyph is as it was. */
  lemma WidthsOutcome(glyphs: seq<Glyph>, n: int)
    requires n <= EndHalf
    ensures |WidthsUpTo(glyphs, n)| == |glyphs|
    ensures forall j :: 0 <= j < |glyphs| ==> WidthsUpTo(glyphs, n)[j] == Widened(glyphs, j, n)
  {
    WidenedUpTo(glyphs, n);
  }

  /** `w` holds every glyph of `glyphs` as the passes up to `n` leave it. */
  predicate AllWidened(glyphs: seq<Glyph>, w: seq<Glyph>, n: int) {
    |w| == |glyphs| && forall j :: 0 <= j < |glyphs| ==> w[j] == Widened(glyphs, j, n)
  }

  lemma {:induction false} WidenedUpTo(glyphs: seq<Glyph>, n: int)
    requires n <= EndHalf
    ensures AllWidened(glyphs, WidthsUpTo(glyphs, n), n)
    decreases n - FirstHalf
  {
    if n > FirstHalf {
      WidenedUpTo(glyphs, n - 1);
      OutcomeStep(glyphs, WidthsUpTo(glyphs, n - 1), n);
    } else {
      OutcomeBase(glyphs, n);
    }
  }

  /** One more code point walked: only the glyph found for it changes its
      source. */
  lemma SourceStep(glyphs: seq<Glyph>, c: int, j: nat)
    requires FirstHalf <= c && j < |glyphs|
    ensures Source(glyphs, j, c + 1)
         == if glyphs[j].unicode == c && FindCode(glyphs, c) == Some(j) then FindCode(glyphs, c + FullOffset)
            else Source(glyphs, j, c)
  {
  }

  lemma OutcomeStep(glyphs: seq<Glyph>, prev: seq<Glyph>, n: int)
    requires FirstHalf < n <= EndHalf
    requires prev == WidthsUpTo(glyphs, n - 1) && AllWidened(glyphs, prev, n - 1)
    ensures AllWidened(glyphs, WidthsUpTo(glyphs, n), n)
  {
    WidthsKeep(glyphs, n - 1);
    Advance(glyphs, prev, n - 1);
  }

  lemma OutcomeBase(glyphs: seq<Glyph>, n: int)
    requires n <= FirstHalf
    ensures AllWidened(glyphs, WidthsUpTo(glyphs, n), n)
  {
  }

  /** One pass, seen from every glyph. */
  lemma Advance(glyphs: seq<Glyph>, prev: seq<Glyph>, c: int)
    requires FirstHalf <= c < EndHalf
    requires SameCodes(glyphs, prev) && AllWidened(glyphs, prev, c)
    ensures AllWidened(glyphs, PasteWidth(prev, c), c + 1)
  {
    FindCodeSameCodes(glyphs, prev, c + FullOffset);
    FindCodeSameCodes(glyphs, prev, c);
    forall j | 0 <= j < |glyphs|
      ensures PasteWidth(prev, c)[j] == Widened(glyphs, j, c + 1)
    {
      StepAt(glyphs, prev, c, j);
    }
  }

  /** One pass, seen from glyph `j`. */
  lemma StepAt(glyphs: seq<Glyph>, prev: seq<Glyph>, c: int, j: nat)
    requires FirstHalf <= c < EndHalf && j < |glyphs|
    requires SameCodes(glyphs, prev)
    requires FindCode(glyphs, c + FullOffset) == FindCode(prev, c + FullOffset)
    requires FindCode(glyphs, c) == FindCode(prev, c)
    requires forall k :: 0 <= k < |glyphs| ==> prev[k] == Widened(glyphs, k, c)
    ensures PasteWidth(prev, c)[j] == Widened(glyphs, j, c + 1)
  {
    var full := FindCode(glyphs, c + FullOffset);
    var half := FindCode(glyphs, c);
    SourceStep(glyphs, c, j);
    if full.Some? && half.Some? && j == half.value {
      StepAtPasted(glyphs, prev, c, full.value, j);
    } else {
      assert PasteWidth(prev, c)[j] == prev[j];
    }
  }

  /** The halfwidth glyph takes the fullwidth glyph's outline and advances,
      which no earlier pass has changed: the fullwidth glyph's code point is
      not one the passes walk. */
  lemma StepAtPasted(glyphs: seq<Glyph>, prev: seq<Glyph>, c: int, f: nat, j: nat)
    requires FirstHalf <= c < EndHalf && j < |glyphs| && f < |glyphs| && SameCodes(glyphs, prev)
    requires FindCode(prev, c + FullOffset) == Some(f) && FindCode(prev, c) == Some(j)
    requires prev[f] == Widened(glyphs, f, c) && prev[j] == Widened(glyphs, j, c)
    requires Source(glyphs, j, c + 1) == Some(f)
    ensures PasteWidth(prev, c)[j] == Widened(glyphs, j, c + 1)
  {
    assert glyphs[f].unicode == c + FullOffset;
    assert Source(glyphs, f, c) == None;
    assert glyphs[j].unicode == c;
    assert Source(glyphs, j, c) == None;
    assert PasteWidth(prev, c) == Paste(prev, f, j);
  }

  /** `Source` depends on the code points only. */
  lemma SourceSameCodes(a: seq<Glyph>, b: seq<Glyph>, j: nat, n: int)
    requires SameCodes(a, b) && j < |a|
    ensures Source(a, j, n) == Source(b, j, n)
  {
    FindCodeSameCodes(a, b, a[j].unicode);
    FindCodeSameCodes(a, b, a[j].unicode + FullOffset);
  }

  /** Widening reads code points, outlines and advances only: glyph lists
      that differ in rows alone widen alike. */
  lemma WidenedRowsOnly(a: seq<Glyph>, b: seq<Glyph>, j: nat, n: int)
    requires |a| == |b| && j < |a|
    requires forall i :: 0 <= i < |a| ==> b[i] == a[i].(rows := b[i].rows)
    ensures Widened(b, j, n) == Widened(a, j, n).(rows := b[j].rows)
  {
    assert SameCodes(a, b);
    SourceSameCodes(a, b, j, n);
  }

  /** A glyph the whole pass has widened is left as it is by a second
      pass: its fullwidth form kept its own outline. */
  lemma WidenedTwice(glyphs: seq<Glyph>, once: seq<Glyph>, j: nat)
    requires j < |glyphs| && SameCodes(glyphs, once)
    requires forall k :: 0 <= k < |glyphs| ==> once[k] == Widened(glyphs, k, EndHalf)
    ensures Widened(once, j, EndHalf) == once[j]
  {
    SourceSameCodes(glyphs, once, j, EndHalf);
    var s := Source(glyphs, j, EndHalf);
    if s.Some? && s.value < |glyphs| {
      assert Source(glyphs, s.value, EndHalf) == None;
    }
  }

  /** Running the whole pass a second time changes nothing. */
  lemma WidthsIdempotent(glyphs: seq<Glyph>)
    ensures WidthsUpTo(WidthsUpTo(glyphs, EndHalf), EndHalf) == WidthsUpTo(glyphs, EndHalf)
  {
    var once := WidthsUpTo(glyphs, EndHalf);
    WidthsKeep(glyphs, EndHalf);
    WidthsOutcome(glyphs, EndHalf);
    WidthsOutcome(once, EndHalf);
    forall j | 0 <= j < |glyphs|
      ensures WidthsUpTo(once, EndHalf)[j] == once[j]
    {
      WidenedTwice(glyphs, once, j);
    }
  }

  /** The loop of main.py:183-191: for each code point, select and copy the
      fullwidth glyph, then select and paste over the halfwidth one; the
      selection ends empty. */
  method HalfToFull(font: Font)
    requires font.Valid()
    modifies font
    ensures font.Valid() && font.selection == {}
    ensures font.glyphs == WidthsUpTo(old(font.glyphs), EndHalf)
  {
    ghost var glyphs0 := font.glyphs;
    for c := FirstHalf to EndHalf
      invariant font.glyphs == WidthsUpTo(glyphs0, c)
    {
      var full := FindCode(font.glyphs, c + FullOffset);
      var half := FindCode(font.glyphs, c);
      if full.Some? && half.Some? {
        font.glyphs := Paste(font.glyphs, full.value, half.value);
      }
      assert font.glyphs == PasteWidth(WidthsUpTo(glyphs0, c), c);
    }
    font.selection := {};
    WidthsKeep(glyphs0, EndHalf);
    SameRowsRefsOk(glyphs0, font.glyphs);
  }
}
