/**
 * Cleaning up horizontal positioning once the glyphs to rotate are chosen
 * (main.py:143-160). A selected glyph loses its rows under every `palt`,
 * `kern` and `dist` subtable. An unselected glyph loses a `kern` or `dist`
 * subtable only when one of its rows there pairs it with a selected glyph.
 * Removal works a whole subtable at a time, as `removePosSub` does.
 */
module Repair {
  import opened Wrappers
  import opened Fonts

  /** The tags whose subtables a rotated glyph loses. */
  const RotatedTags: seq<string> := ["palt", "kern", "dist"]

  /** The tags whose subtables an upright glyph may lose. */
  const PairTags: seq<string> := ["kern", "dist"]

  /** The subtables `tagmap` lists under `tag`, none if it is missing. */
  function TagPart(tagmap: map<string, seq<string>>, tag: string): set<string> {
    if tag in tagmap then Members(tagmap[tag]) else {}
  }

  /** The subtables `tagmap` lists under any of `tags`. */
  function TagTables(tagmap: map<string, seq<string>>, tags: seq<string>): set<string> {
    if tags == [] then {}
    else TagTables(tagmap, tags[..|tags| - 1]) + TagPart(tagmap, tags[|tags| - 1])
  }

  lemma TagTablesSnoc(tagmap: map<string, seq<string>>, tags: seq<string>, t: nat)
    requires t < |tags|
    ensures TagTables(tagmap, tags[..t + 1]) == TagTables(tagmap, tags[..t]) + TagPart(tagmap, tags[t])
  {
    assert tags[..t + 1][..t] == tags[..t];
  }

  /** The two tag lists the repair walks, unfolded. */
  lemma TagTablesLiteral(tagmap: map<string, seq<string>>)
    ensures TagTables(tagmap, RotatedTags)
         == TagPart(tagmap, "palt") + TagPart(tagmap, "kern") + TagPart(tagmap, "dist")
    ensures TagTables(tagmap, PairTags) == TagPart(tagmap, "kern") + TagPart(tagmap, "dist")
  {
    var pk: seq<string> := ["palt", "kern"];
    assert RotatedTags[..2] == pk;
    assert pk[..1] == ["palt"];
    assert ["palt"][..0] == [];
    assert TagTables(tagmap, ["palt"]) == TagPart(tagmap, "palt");
    assert TagTables(tagmap, pk) == TagPart(tagmap, "palt") + TagPart(tagmap, "kern");
    assert PairTags[..1] == ["kern"];
    assert ["kern"][..0] == [];
    assert TagTables(tagmap, ["kern"]) == TagPart(tagmap, "kern");
  }

  /** The glyph a row pairs with: `row[2]`, read as a glyph. */
  function Partner(r: Rule): Option<GlyphId> {
    match r
    case Position(_, _, _, _) => None
    case Pair(second) => Some(second)
    case Substitution(t) => Some(t)
    case AltSubs(gs) => if gs == [] then None else Some(gs[0])
    case MultiSubs(gs) => if gs == [] then None else Some(gs[0])
    case Ligature(gs) => if gs == [] then None else Some(gs[0])
  }

  predicate Hits(r: Rule, sel: set<GlyphId>) {
    Partner(r).Some? && Partner(r).value in sel
  }

  /** Some row of the glyph under subtable `st` pairs with a selected glyph. */
  predicate PairsWithSelected(rows: seq<PosSub>, st: string, sel: set<GlyphId>) {
    exists j :: 0 <= j < |GetPosSub(rows, st)| && Hits(GetPosSub(rows, st)[j].rule, sel)
  }

  /** The subtables among `sts` an upright glyph loses. */
  function PairedTables(rows: seq<PosSub>, sts: set<string>, sel: set<GlyphId>): set<string> {
    set st | st in sts && PairsWithSelected(rows, st, sel)
  }

  /** A glyph's rows after the repair: what a selected glyph keeps, and what
      an unselected one keeps. */
  function RepairedRows(rows: seq<PosSub>, selected: bool, tagmap: map<string, seq<string>>, sel: set<GlyphId>): seq<PosSub> {
    if selected then RemoveSubtables(rows, TagTables(tagmap, RotatedTags))
    else RemoveSubtables(rows, PairedTables(rows, TagTables(tagmap, PairTags), sel))
  }

  /** What the repair keeps of a row, with the three tags written out. A
      selected glyph keeps a row exactly when its subtable is not under
      `palt`, `kern` or `dist`. An unselected glyph keeps it unless its
      subtable is under `kern` or `dist` and some row of that subtable pairs
      with a selected glyph, so a subtable goes whole or not at all. No row
      is added. */
  lemma RepairOutcome(rows: seq<PosSub>, selected: bool, tagmap: map<string, seq<string>>, sel: set<GlyphId>, p: PosSub)
    requires p in rows
    ensures selected ==>
      (p in RepairedRows(rows, selected, tagmap, sel) <==>
        !(("palt" in tagmap && p.subtable in tagmap["palt"])
          || ("kern" in tagmap && p.subtable in tagmap["kern"])
          || ("dist" in tagmap && p.subtable in tagmap["dist"])))
    ensures !selected ==>
      (p in RepairedRows(rows, selected, tagmap, sel) <==>
        !((("kern" in tagmap && p.subtable in tagmap["kern"])
           || ("dist" in tagmap && p.subtable in tagmap["dist"]))
          && PairsWithSelected(rows, p.subtable, sel)))
    ensures forall q :: q in RepairedRows(rows, selected, tagmap, sel) ==> q in rows
  {
    TagTablesLiteral(tagmap);
  }

  /** After removing some subtables, the rows of another subtable are as
      before, and those of a removed one are gone. */
  lemma {:induction false} GetPosSubRemoved(rows: seq<PosSub>, gone: set<string>, st: string)
    ensures GetPosSub(RemoveSubtables(rows, gone), st) == if st in gone then [] else GetPosSub(rows, st)
  {
    if rows != [] {
      GetPosSubRemoved(rows[1..], gone, st);
      var h := if rows[0].subtable in gone then [] else [rows[0]];
      GetPosSubAppend(h, RemoveSubtables(rows[1..], gone), st);
    }
  }

  lemma {:induction false} GetPosSubAppend(x: seq<PosSub>, y: seq<PosSub>, st: string)
    ensures GetPosSub(x + y, st) == GetPosSub(x, st) + GetPosSub(y, st)
  {
    if x == [] {
      assert x + y == y;
    } else {
      assert (x + y)[1..] == x[1..] + y;
      GetPosSubAppend(x[1..], y, st);
    }
  }

  /** One more subtable looked at: it joins the lost ones if it pairs with
      a selected glyph. */
  lemma PairedTablesAdd(rows: seq<PosSub>, done: set<string>, st: string, sel: set<GlyphId>)
    ensures PairedTables(rows, done + {st}, sel)
         == PairedTables(rows, done, sel) + (if PairsWithSelected(rows, st, sel) then {st} else {})
  {
  }

  lemma MembersSnoc(xs: seq<string>, k: nat)
    requires k < |xs|
    ensures Members(xs[..k + 1]) == Members(xs[..k]) + {xs[k]}
  {
    assert xs[..k + 1] == xs[..k] + [xs[k]];
  }

  /** `g.removePosSub(st)` for every `st` of a tag. */
  method DropTables(font: Font, i: nat, sts: seq<string>)
    requires i < |font.glyphs|
    modifies font
    ensures font.selection == old(font.selection)
    ensures font.glyphs == old(font.glyphs)[i := old(font.glyphs)[i].(rows := RemoveSubtables(old(font.glyphs)[i].rows, Members(sts)))]
  {
    ghost var glyphs0 := font.glyphs;
    ghost var rows0 := font.glyphs[i].rows;
    assert Members(sts[..0]) == {};
    RemoveUnused(rows0, {});
    assert glyphs0[i := glyphs0[i].(rows := rows0)] == glyphs0;
    for k := 0 to |sts|
      invariant font.selection == old(font.selection)
      invariant font.glyphs == glyphs0[i := glyphs0[i].(rows := RemoveSubtables(rows0, Members(sts[..k])))]
    {
      MembersSnoc(sts, k);
      RemoveTwice(rows0, Members(sts[..k]), {sts[k]});
      font.glyphs := font.glyphs[i := font.glyphs[i].(rows := RemoveSubtables(font.glyphs[i].rows, {sts[k]}))];
    }
    assert sts[..|sts|] == sts;
  }

  /** The search for a row pairing with a selected glyph, stopping at the
      first. */
  method FindSelectedPartner(font: Font, i: nat, st: string) returns (delete: bool)
    requires i < |font.glyphs|
    ensures delete == PairsWithSelected(font.glyphs[i].rows, st, font.selection)
  {
    var rows := GetPosSub(font.glyphs[i].rows, st);
    delete := false;
    for k := 0 to |rows|
      invariant forall j :: 0 <= j < k ==> !Hits(rows[j].rule, font.selection)
    {
      var p := Partner(rows[k].rule);
      if p.Some? && p.value in font.selection {
        delete := true;
        break;
      }
    }
  }

  /** Looking at subtable `st` once the subtables `D` have been looked at:
      the search runs on the rows left so far, and what it finds is what
      `PairedTables` adds for `st`. */
  lemma DropPairedStep(rows0: seq<PosSub>, D: set<string>, st: string, sel: set<GlyphId>)
    ensures var cur := RemoveSubtables(rows0, PairedTables(rows0, D, sel));
      RemoveSubtables(rows0, PairedTables(rows0, D + {st}, sel))
        == if PairsWithSelected(cur, st, sel) then RemoveSubtables(cur, {st}) else cur
  {
    var gone := PairedTables(rows0, D, sel);
    GetPosSubRemoved(rows0, gone, st);
    PairedTablesAdd(rows0, D, st, sel);
    var cur := RemoveSubtables(rows0, gone);
    if st in gone {
      assert GetPosSub(cur, st) == [];
      assert !PairsWithSelected(cur, st, sel);
      assert PairedTables(rows0, D + {st}, sel) == gone;
    } else {
      assert GetPosSub(cur, st) == GetPosSub(rows0, st);
      assert PairsWithSelected(cur, st, sel) == PairsWithSelected(rows0, st, sel);
      if PairsWithSelected(rows0, st, sel) {
        assert PairedTables(rows0, D + {st}, sel) == gone + {st};
        RemoveTwice(rows0, gone, {st});
      } else {
        assert PairedTables(rows0, D + {st}, sel) == gone;
      }
    }
  }

  /** The loop over one tag's subtables for an upright glyph. */
  method DropPaired(font: Font, i: nat, sts: seq<string>, ghost rows0: seq<PosSub>, ghost done: set<string>)
    requires i < |font.glyphs|
    requires font.glyphs[i].rows == RemoveSubtables(rows0, PairedTables(rows0, done, font.selection))
    modifies font
    ensures font.selection == old(font.selection)
    ensures font.glyphs == old(font.glyphs)[i := old(font.glyphs)[i].(
      rows := RemoveSubtables(rows0, PairedTables(rows0, done + Members(sts), font.selection)))]
  {
    ghost var glyphs0 := font.glyphs;
    ghost var sel := font.selection;
    ghost var looked := done;
    assert Members(sts[..0]) == {};
    assert done + Members(sts[..0]) == done;
    assert glyphs0[i := glyphs0[i].(rows := glyphs0[i].rows)] == glyphs0;
    for k := 0 to |sts|
      invariant font.selection == sel
      invariant looked == done + Members(sts[..k])
      invariant font.glyphs == glyphs0[i := glyphs0[i].(rows := RemoveSubtables(rows0, PairedTables(rows0, looked, sel)))]
    {
      var st := sts[k];
      MembersSnoc(sts, k);
      ghost var g := font.glyphs;
      DropIfPaired(font, i, st);
      DropPairedInv(glyphs0, i, rows0, looked, st, sel, g, font.glyphs);
      looked := looked + {st};
    }
    assert sts[..|sts|] == sts;
  }

  /** The body of the loop over a tag's subtables: subtable `st` goes when
      one of its rows pairs with a selected glyph. */
  method DropIfPaired(font: Font, i: nat, st: string)
    requires i < |font.glyphs|
    modifies font
    ensures font.selection == old(font.selection)
    ensures font.glyphs == old(font.glyphs)[i := old(font.glyphs)[i].(
      rows := if PairsWithSelected(old(font.glyphs)[i].rows, st, old(font.selection))
              then RemoveSubtables(old(font.glyphs)[i].rows, {st}) else old(font.glyphs)[i].rows)]
  {
    var delete := FindSelectedPartner(font, i, st);
    if delete {
      font.glyphs := font.glyphs[i := font.glyphs[i].(rows := RemoveSubtables(font.glyphs[i].rows, {st}))];
    } else {
      assert font.glyphs[i := font.glyphs[i].(rows := font.glyphs[i].rows)] == font.glyphs;
    }
  }

  /** One subtable more in `DropPaired`'s loop keeps its invariant. */
  lemma DropPairedInv(glyphs0: seq<Glyph>, i: nat, rows0: seq<PosSub>, looked: set<string>, st: string,
                      sel: set<GlyphId>, g: seq<Glyph>, g': seq<Glyph>)
    requires i < |glyphs0|
    requires g == glyphs0[i := glyphs0[i].(rows := RemoveSubtables(rows0, PairedTables(rows0, looked, sel)))]
    requires g' == g[i := g[i].(rows := if PairsWithSelected(g[i].rows, st, sel)
                                        then RemoveSubtables(g[i].rows, {st}) else g[i].rows)]
    ensures g' == glyphs0[i := glyphs0[i].(rows := RemoveSubtables(rows0, PairedTables(rows0, looked + {st}, sel)))]
  {
    DropPairedStep(rows0, looked, st, sel);
    ReplaceRows(glyphs0, i, g[i].rows, g'[i].rows);
  }

  /** Replacing a glyph's rows twice is replacing them once. */
  lemma ReplaceRows(glyphs0: seq<Glyph>, i: nat, a: seq<PosSub>, b: seq<PosSub>)
    requires i < |glyphs0|
    ensures var g := glyphs0[i := glyphs0[i].(rows := a)];
            g[i := g[i].(rows := b)] == glyphs0[i := glyphs0[i].(rows := b)]
  {
  }

  /** The branch for a selected glyph: every subtable under `palt`, `kern`
      and `dist` is removed. */
  method RepairRotated(font: Font, tagmap: map<string, seq<string>>, i: nat)
    requires i < |font.glyphs|
    modifies font
    ensures font.selection == old(font.selection)
    ensures font.glyphs == old(font.glyphs)[i := old(font.glyphs)[i].(
      rows := RemoveSubtables(old(font.glyphs)[i].rows, TagTables(tagmap, RotatedTags)))]
  {
    ghost var glyphs0 := font.glyphs;
    ghost var rows0 := font.glyphs[i].rows;
    assert RotatedTags[..0] == [];
    RemoveUnused(rows0, {});
    assert glyphs0[i := glyphs0[i].(rows := rows0)] == glyphs0;
    for t := 0 to |RotatedTags|
      invariant font.selection == old(font.selection)
      invariant font.glyphs == glyphs0[i := glyphs0[i].(rows := RemoveSubtables(rows0, TagTables(tagmap, RotatedTags[..t])))]
    {
      var tag := RotatedTags[t];
      ghost var g := font.glyphs;
      if tag in tagmap {
        DropTables(font, i, tagmap[tag]);
      }
      DropTagStep(glyphs0, i, rows0, tagmap, RotatedTags, t, g, font.glyphs);
    }
    assert RotatedTags[..|RotatedTags|] == RotatedTags;
  }

  /** One tag more in `RepairRotated`'s loop keeps its invariant. */
  lemma DropTagStep(glyphs0: seq<Glyph>, i: nat, rows0: seq<PosSub>, tagmap: map<string, seq<string>>,
                    tags: seq<string>, t: nat, g: seq<Glyph>, g': seq<Glyph>)
    requires t < |tags| && i < |glyphs0|
    requires g == glyphs0[i := glyphs0[i].(rows := RemoveSubtables(rows0, TagTables(tagmap, tags[..t])))]
    requires g' == if tags[t] in tagmap then g[i := g[i].(rows := RemoveSubtables(g[i].rows, Members(tagmap[tags[t]])))]
                   else g
    ensures g' == glyphs0[i := glyphs0[i].(rows := RemoveSubtables(rows0, TagTables(tagmap, tags[..t + 1])))]
  {
    var before := TagTables(tagmap, tags[..t]);
    TagTablesSnoc(tagmap, tags, t);
    if tags[t] in tagmap {
      RemoveTwice(rows0, before, Members(tagmap[tags[t]]));
      ReplaceRows(glyphs0, i, RemoveSubtables(rows0, before), g'[i].rows);
    } else {
      assert before + TagPart(tagmap, tags[t]) == before;
    }
  }

  /** The branch for an unselected glyph: a `kern` or `dist` subtable is
      removed when it pairs the glyph with a selected one. */
  method RepairUpright(font: Font, tagmap: map<string, seq<string>>, i: nat)
    requires i < |font.glyphs|
    modifies font
    ensures font.selection == old(font.selection)
    ensures font.glyphs == old(font.glyphs)[i := old(font.glyphs)[i].(
      rows := RemoveSubtables(old(font.glyphs)[i].rows,
                PairedTables(old(font.glyphs)[i].rows, TagTables(tagmap, PairTags), old(font.selection))))]
  {
    ghost var glyphs0 := font.glyphs;
    ghost var rows0 := font.glyphs[i].rows;
    ghost var sel := font.selection;
    assert PairTags[..0] == [];
    assert PairedTables(rows0, {}, sel) == {};
    RemoveUnused(rows0, {});
    assert glyphs0[i := glyphs0[i].(rows := rows0)] == glyphs0;
    for t := 0 to |PairTags|
      invariant font.selection == sel
      invariant font.glyphs == glyphs0[i := glyphs0[i].(
        rows := RemoveSubtables(rows0, PairedTables(rows0, TagTables(tagmap, PairTags[..t]), sel)))]
    {
      var tag := PairTags[t];
      TagTablesSnoc(tagmap, PairTags, t);
      if tag in tagmap {
        DropPaired(font, i, tagmap[tag], rows0, TagTables(tagmap, PairTags[..t]));
      } else {
        assert TagTables(tagmap, PairTags[..t + 1]) == TagTables(tagmap, PairTags[..t]);
      }
    }
    assert PairTags[..|PairTags|] == PairTags;
  }

  /** The body of the loop of main.py:143-160 for glyph `i`. */
  method RepairGlyph(font: Font, tagmap: map<string, seq<string>>, i: nat)
    requires i < |font.glyphs|
    modifies font
    ensures font.selection == old(font.selection)
    ensures font.glyphs == old(font.glyphs)[i := old(font.glyphs)[i].(
      rows := RepairedRows(old(font.glyphs)[i].rows, i in old(font.selection), tagmap, old(font.selection)))]
  {
    if i in font.selection {
      RepairRotated(font, tagmap, i);
    } else {
      RepairUpright(font, tagmap, i);
    }
  }

  /** The whole repair loop: every glyph's rows become `RepairedRows` of
      them, read against the selection, which does not change. */
  method RepairPositioning(font: Font, tagmap: map<string, seq<string>>)
    requires font.Valid()
    modifies font
    ensures font.Valid() && font.selection == old(font.selection)
    ensures |font.glyphs| == |old(font.glyphs)|
    ensures forall i :: 0 <= i < |font.glyphs| ==>
      font.glyphs[i] == old(font.glyphs)[i].(
        rows := RepairedRows(old(font.glyphs)[i].rows, i in old(font.selection), tagmap, old(font.selection)))
  {
    ghost var glyphs0 := font.glyphs;
    ghost var sel := font.selection;
    for i := 0 to |font.glyphs|
      invariant font.selection == sel && |font.glyphs| == |glyphs0|
      invariant forall j :: 0 <= j < |font.glyphs| ==>
        font.glyphs[j] == if j < i then glyphs0[j].(rows := RepairedRows(glyphs0[j].rows, j in sel, tagmap, sel))
                          else glyphs0[j]
    {
      RepairGlyph(font, tagmap, i);
    }
    FewerRowsRefsOk(glyphs0, font.glyphs);
  }

  /** After the repair, a glyph that was selected keeps no row under
      `palt`, `kern` or `dist`. */
  lemma RotatedClean(before: seq<Glyph>, after: seq<Glyph>, tagmap: map<string, seq<string>>, sel: set<GlyphId>)
    requires |after| == |before|
    requires forall i :: 0 <= i < |after| ==>
      after[i] == before[i].(rows := RepairedRows(before[i].rows, i in sel, tagmap, sel))
    ensures forall i, p :: i in sel && i < |after| && p in after[i].rows ==>
      p.subtable !in TagTables(tagmap, RotatedTags)
  {
    forall i, p | i in sel && i < |after| && p in after[i].rows
      ensures p.subtable !in TagTables(tagmap, RotatedTags)
    {
      var rows := RemoveSubtables(before[i].rows, TagTables(tagmap, RotatedTags));
      assert after[i].rows == rows;
      var k :| 0 <= k < |rows| && rows[k] == p;
    }
  }
}
