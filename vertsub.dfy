/**
 * `apply_sub` (main.py:46-71) with the `should_sub` gate of main.py:115:
 * for each glyph in order, take the first row the glyph has under the
 * subtables of a feature tag; a substitution pastes the target glyph's
 * current outline and advances over the glyph, a positioning row moves it
 * and changes its advances, and any other kind of row is skipped.
 *
 * What the loop does to glyph `i` depends only on that glyph's rows and
 * code point, which no iteration changes, so the model first decides an
 * `Action` per glyph (`Plan`) and then runs the loop over those actions.
 */
module VertSub {
  import opened Wrappers
  import opened Fonts
  import opened OrientationTable

  /** `[item for tup in map(g.getPosSub, sts) for item in tup]`. */
  function RowsIn(rows: seq<PosSub>, sts: seq<string>): (pss: seq<PosSub>)
    ensures forall k :: 0 <= k < |pss| ==> pss[k] in rows && pss[k].subtable in sts
  {
    if sts == [] then [] else GetPosSub(rows, sts[0]) + RowsIn(rows, sts[1..])
  }

  /** The glyph has a row under the tag exactly when one of its rows is
      filed under one of the tag's subtables. */
  lemma {:induction false} RowsInEmpty(rows: seq<PosSub>, sts: seq<string>)
    ensures RowsIn(rows, sts) == [] <==> forall p :: p in rows ==> p.subtable !in sts
  {
    if sts != [] {
      RowsInEmpty(rows, sts[1..]);
      if RowsIn(rows, sts) != [] {
        assert RowsIn(rows, sts)[0] in rows;
      }
      assert forall x :: x in sts ==> x == sts[0] || x in sts[1..];
      forall p | p in rows ensures p.subtable == sts[0] ==> p in GetPosSub(rows, sts[0]) {
      }
    }
  }

  /** The `should_sub` lambda: with `--only-sub-table`, only glyphs whose
      table value is T, Tu or Tr are substituted. */
  predicate Gate(onlySubTable: bool, table: seq<Row>, code: int) {
    !(onlySubTable && Lookup(table, code) !in ["T", "Tu", "Tr"])
  }

  /** The rule of the first row the glyph has under the subtables, if any. */
  function FirstRule(g: Glyph, sts: seq<string>): Option<Rule> {
    var pss := RowsIn(g.rows, sts);
    if pss == [] then None else Some(pss[0].rule)
  }

  /** The glyph passes the test at main.py:52. */
  predicate Eligible(g: Glyph, sts: seq<string>, onlySubTable: bool, table: seq<Row>) {
    FirstRule(g, sts).Some? && Gate(onlySubTable, table, g.unicode)
  }

  /** The glyph a substitution row copies from: `ps[2]`. */
  function Source(r: Rule): Option<GlyphId> {
    match r
    case Substitution(t) => Some(t)
    case AltSubs(alts) => if alts == [] then None else Some(alts[0])
    case _ => None
  }

  /** What one iteration does with its glyph: nothing, move it by a
      positioning row, or paste another glyph over it. */
  datatype Action =
    | Skip
    | Move(dx: int, dy: int, dWidth: int, dVWidth: int)
    | PasteFrom(src: GlyphId)

  /** The branch of main.py:52-71 the glyph takes. */
  function Decide(g: Glyph, sts: seq<string>, onlySubTable: bool, table: seq<Row>): Action {
    if !Eligible(g, sts, onlySubTable, table) then Skip
    else
      var rule := FirstRule(g, sts).value;
      if rule.Position? then Move(rule.dx, rule.dy, rule.dWidth, rule.dVWidth)
      else if Source(rule).Some? then PasteFrom(Source(rule).value)
      else Skip
  }

  /** The glyph is pasted over by `apply_sub`. */
  predicate Pastes(g: Glyph, sts: seq<string>, onlySubTable: bool, table: seq<Row>) {
    Decide(g, sts, onlySubTable, table).PasteFrom?
  }

  /** The glyph is changed and appended to `subbed` by `apply_sub`. */
  predicate Acts(g: Glyph, sts: seq<string>, onlySubTable: bool, table: seq<Row>) {
    !Decide(g, sts, onlySubTable, table).Skip?
  }

  /** The decisions for every glyph, in order. */
  function Plan(glyphs: seq<Glyph>, sts: seq<string>, onlySubTable: bool, table: seq<Row>): (p: seq<Action>)
    ensures |p| == |glyphs|
  {
    seq(|glyphs|, i requires 0 <= i < |glyphs| => Decide(glyphs[i], sts, onlySubTable, table))
  }

  /** The positioning branch: advances grow by the row's last two values,
      the outline moves by the two before them. */
  function Moved(g: Glyph, dx: int, dy: int, dWidth: int, dVWidth: int): Glyph {
    g.(width := g.width + dWidth, vwidth := g.vwidth + dVWidth,
       outline := Outline(g.outline.shape, g.outline.dx + dx, g.outline.dy + dy))
  }

  lemma RowRefs(glyphs: seq<Glyph>, i: nat, p: PosSub)
    requires RefsOk(glyphs) && i < |glyphs| && p in glyphs[i].rows
    ensures !p.rule.Position? ==> |Operands(p.rule)| > 0
    ensures forall j :: 0 <= j < |Operands(p.rule)| ==> Operands(p.rule)[j] < |glyphs|
  {
    var k :| 0 <= k < |glyphs[i].rows| && glyphs[i].rows[k] == p;
  }

  /** The glyph a substitution copies from is a glyph of the font: it is
      the row's first operand. */
  lemma SourceInRange(glyphs: seq<Glyph>, i: nat, sts: seq<string>, onlySubTable: bool, table: seq<Row>)
    requires RefsOk(glyphs) && i < |glyphs|
    ensures var a := Decide(glyphs[i], sts, onlySubTable, table);
            a.PasteFrom? ==> a.src < |glyphs| && a.src == Operands(FirstRule(glyphs[i], sts).value)[0]
  {
    if FirstRule(glyphs[i], sts).Some? {
      var p := RowsIn(glyphs[i].rows, sts)[0];
      RowRefs(glyphs, i, p);
      if Source(p.rule).Some? {
        assert Source(p.rule).value == Operands(p.rule)[0];
      }
    }
  }

  /** The glyphs so far, the `subbed` list so far, and whether a paste has
      emptied the selection. */
  datatype SubState = SubState(glyphs: seq<Glyph>, subbed: seq<GlyphId>, cleared: bool)

  /** What one iteration does to the glyphs, for glyph `i`. A paste source
      outside the font cannot occur in a font whose rows refer to its own
      glyphs; it is treated as no change. */
  function StepGlyphs(glyphs: seq<Glyph>, i: nat, a: Action): (r: seq<Glyph>)
    requires i < |glyphs|
    ensures SameRows(glyphs, r) && r[i].unicode == glyphs[i].unicode
    ensures forall j :: 0 <= j < |glyphs| && j != i ==> r[j] == glyphs[j]
  {
    match a
    case Skip => glyphs
    case Move(dx, dy, dw, dv) => glyphs[i := Moved(glyphs[i], dx, dy, dw, dv)]
    case PasteFrom(t) => if t < |glyphs| then Paste(glyphs, t, i) else glyphs
  }

  /** One iteration of the loop, for glyph `i`. */
  function SubStep(s: SubState, i: nat, a: Action): SubState
    requires i < |s.glyphs|
  {
    SubState(StepGlyphs(s.glyphs, i, a),
             if a.Skip? then s.subbed else s.subbed + [i],
             s.cleared || a.PasteFrom?)
  }

  predicate Ascending(xs: seq<GlyphId>) {
    forall a, b :: 0 <= a < b < |xs| ==> xs[a] < xs[b]
  }

  /** The loop over the first `n` glyphs, glyph `i` taking action `plan[i]`. */
  function SubUpTo(glyphs: seq<Glyph>, plan: seq<Action>, n: nat): (s: SubState)
    requires n <= |glyphs| && n <= |plan|
    ensures |s.glyphs| == |glyphs|
    decreases n
  {
    if n == 0 then SubState(glyphs, [], false)
    else SubStep(SubUpTo(glyphs, plan, n - 1), n - 1, plan[n - 1])
  }

  /** The loop keeps every glyph's rows and code point, and `subbed` lists
      glyphs already reached, in ascending order. */
  lemma {:induction false} SubUpToFacts(glyphs: seq<Glyph>, plan: seq<Action>, n: nat)
    requires n <= |glyphs| && n <= |plan|
    ensures var s := SubUpTo(glyphs, plan, n);
      SameRows(glyphs, s.glyphs)
      && (forall j :: 0 <= j < |glyphs| ==> s.glyphs[j].unicode == glyphs[j].unicode)
      && Ascending(s.subbed) && forall k :: 0 <= k < |s.subbed| ==> s.subbed[k] < n
  {
    if n > 0 {
      SubUpToFacts(glyphs, plan, n - 1);
    }
  }

  /** A glyph the loop has not reached yet is as it was. */
  lemma {:induction false} NotYetReached(glyphs: seq<Glyph>, plan: seq<Action>, n: nat, k: nat)
    requires n <= k < |glyphs| && n <= |plan|
    ensures SubUpTo(glyphs, plan, n).glyphs[k] == glyphs[k]
  {
    if n > 0 {
      NotYetReached(glyphs, plan, n - 1, k);
    }
  }

  /** Once the loop has passed glyph `k`, later iterations leave it alone. */
  lemma {:induction false} Settled(glyphs: seq<Glyph>, plan: seq<Action>, n: nat, k: nat)
    requires k < n <= |glyphs| && n <= |plan|
    ensures SubUpTo(glyphs, plan, n).glyphs[k] == SubUpTo(glyphs, plan, k + 1).glyphs[k]
  {
    if n > k + 1 {
      Settled(glyphs, plan, n - 1, k);
    }
  }

  /** `subbed` holds exactly the glyphs reached so far whose action is not
      to skip. */
  lemma {:induction false} SubbedIffActs(glyphs: seq<Glyph>, plan: seq<Action>, n: nat, k: nat)
    requires n <= |glyphs| && n <= |plan|
    ensures k in SubUpTo(glyphs, plan, n).subbed <==> k < n && !plan[k].Skip?
  {
    if n > 0 {
      var p := SubUpTo(glyphs, plan, n - 1).subbed;
      SubUpToFacts(glyphs, plan, n - 1);
      AppendMember(p, !plan[n - 1].Skip?, n - 1, k);
      if k < n - 1 {
        SubbedIffActs(glyphs, plan, n - 1, k);
      }
    }
  }

  lemma AppendMember(p: seq<GlyphId>, a: bool, m: nat, k: nat)
    requires forall j :: 0 <= j < |p| ==> p[j] < m
    ensures k < m ==> (k in (if a then p + [m] else p) <==> k in p)
    ensures k == m ==> (k in (if a then p + [m] else p) <==> a)
    ensures k > m ==> k !in (if a then p + [m] else p)
  {
    if a {
      assert (p + [m])[|p|] == m;
    }
  }

  /** The selection is emptied exactly when some glyph reached so far was
      pasted over. */
  lemma {:induction false} ClearedIffPasted(glyphs: seq<Glyph>, plan: seq<Action>, n: nat)
    requires n <= |glyphs| && n <= |plan|
    ensures SubUpTo(glyphs, plan, n).cleared <==> exists i :: 0 <= i < n && plan[i].PasteFrom?
  {
    if n > 0 {
      ClearedIffPasted(glyphs, plan, n - 1);
      if plan[n - 1].PasteFrom? {
        assert 0 <= n - 1 < n && plan[n - 1].PasteFrom?;
      } else if SubUpTo(glyphs, plan, n - 1).cleared {
        var i :| 0 <= i < n - 1 && plan[i].PasteFrom?;
        assert 0 <= i < n && plan[i].PasteFrom?;
      } else {
        forall i | 0 <= i < n ensures !plan[i].PasteFrom? {
          if i < n - 1 {
            assert !(0 <= i < n - 1 && plan[i].PasteFrom?);
          }
        }
      }
    }
  }

  /** What `apply_sub` does to glyph `i`, stated against the glyphs as they
      were before the loop (`glyphs`) and after it (`F`). Code point and rows
      never change. A glyph that is not eligible, or whose first row is of
      another kind, is unchanged and not in `subbed`. A positioning row moves
      the glyph. A substitution pastes the glyph named by the row's first
      operand as it stood when glyph `i` was reached: its final state if the
      loop had already passed it, its original state otherwise. */
  lemma GlyphOutcome(glyphs: seq<Glyph>, sts: seq<string>, onlySubTable: bool, table: seq<Row>, i: nat)
    requires RefsOk(glyphs) && i < |glyphs|
    ensures var F := SubUpTo(glyphs, Plan(glyphs, sts, onlySubTable, table), |glyphs|);
            var g := glyphs[i];
            F.glyphs[i].unicode == g.unicode && F.glyphs[i].rows == g.rows
            && (i in F.subbed <==> Acts(g, sts, onlySubTable, table))
            && (!Acts(g, sts, onlySubTable, table) ==> F.glyphs[i] == g)
    ensures var F := SubUpTo(glyphs, Plan(glyphs, sts, onlySubTable, table), |glyphs|);
            var g := glyphs[i];
            Eligible(g, sts, onlySubTable, table) && FirstRule(g, sts).value.Position? ==>
              var rule := FirstRule(g, sts).value;
              F.glyphs[i] == Moved(g, rule.dx, rule.dy, rule.dWidth, rule.dVWidth)
    ensures var F := SubUpTo(glyphs, Plan(glyphs, sts, onlySubTable, table), |glyphs|);
            var g := glyphs[i];
            Pastes(g, sts, onlySubTable, table) ==>
              var ops := Operands(FirstRule(g, sts).value);
              |ops| > 0 && ops[0] < |glyphs|
              && var src := if ops[0] < i then F.glyphs[ops[0]] else glyphs[ops[0]];
              F.glyphs[i] == g.(outline := src.outline, width := src.width, vwidth := src.vwidth)
  {
    var N := |glyphs|;
    var plan := Plan(glyphs, sts, onlySubTable, table);
    var a := plan[i];
    assert a == Decide(glyphs[i], sts, onlySubTable, table);
    NotYetReached(glyphs, plan, i, i);
    SubUpToFacts(glyphs, plan, N);
    Settled(glyphs, plan, N, i);
    SubbedIffActs(glyphs, plan, N, i);
    SourceInRange(glyphs, i, sts, onlySubTable, table);
    if a.PasteFrom? {
      var t := a.src;
      if t < i {
        Settled(glyphs, plan, N, t);
        Settled(glyphs, plan, i, t);
      } else {
        NotYetReached(glyphs, plan, i, t);
      }
    }
  }

  /** A tag with no subtables changes nothing. */
  lemma {:induction false} NoRowsNoChange(glyphs: seq<Glyph>, n: nat, onlySubTable: bool, table: seq<Row>)
    requires n <= |glyphs|
    ensures SubUpTo(glyphs, Plan(glyphs, [], onlySubTable, table), n) == SubState(glyphs, [], false)
  {
    if n > 0 {
      NoRowsNoChange(glyphs, n - 1, onlySubTable, table);
      assert Plan(glyphs, [], onlySubTable, table)[n - 1] == Skip;
    }
  }

  /** One iteration of `apply_sub`'s loop: glyph `i` is changed as its
      action says, `acted` says whether it is to be appended to `subbed`,
      and a paste leaves nothing selected. */
  method SubGlyph(font: Font, i: nat, sts: seq<string>, onlySubTable: bool, table: seq<Row>)
    returns (acted: bool)
    requires RefsOk(font.glyphs) && i < |font.glyphs| && SortedTable(table) && table != []
    modifies font
    ensures var a := Decide(old(font.glyphs)[i], sts, onlySubTable, table);
      font.glyphs == StepGlyphs(old(font.glyphs), i, a)
      && acted == !a.Skip?
      && font.selection == if a.PasteFrom? then {} else old(font.selection)
  {
    SourceInRange(font.glyphs, i, sts, onlySubTable, table);
    var g := font.glyphs[i];
    var pss := RowsIn(g.rows, sts);
    var pass := pss != [];
    if pass && onlySubTable {
      var cls := TableAt(table, g.unicode);
      pass := cls.value in ["T", "Tu", "Tr"];
    }
    assert pass == Eligible(g, sts, onlySubTable, table);
    ghost var a := Decide(g, sts, onlySubTable, table);
    acted := false;
    if pass {
      var rule := pss[0].rule;
      assert rule == FirstRule(g, sts).value;
      RowRefs(font.glyphs, i, pss[0]);
      if rule.Substitution? || rule.AltSubs? {
        var src := Operands(rule)[0];
        assert a == PasteFrom(src);
        font.selection := {src};
        var clip := font.glyphs[src];
        font.selection := {i};
        font.glyphs := font.glyphs[i := g.(outline := clip.outline, width := clip.width, vwidth := clip.vwidth)];
        font.selection := {};
        acted := true;
      } else if rule.Position? {
        assert a == Move(rule.dx, rule.dy, rule.dWidth, rule.dVWidth);
        font.glyphs := font.glyphs[i := Moved(g, rule.dx, rule.dy, rule.dWidth, rule.dVWidth)];
        acted := true;
      } else {
        assert a == Skip;
      }
    } else {
      assert a == Skip;
    }
  }

  /** `apply_sub(font, tag, should_sub, subbed)` with `subbed` starting
      empty and `tagmap` as `fill_tagmap` left it. A missing tag changes
      nothing; otherwise the glyphs and `subbed` are those of the loop over
      every glyph's action, and the selection is empty if any glyph was
      pasted over. */
  method ApplySub(font: Font, tagmap: map<string, seq<string>>, tag: string, onlySubTable: bool, table: seq<Row>)
    returns (subbed: seq<GlyphId>)
    requires font.Valid() && SortedTable(table) && table != []
    modifies font
    ensures font.Valid() && SameRows(old(font.glyphs), font.glyphs)
    ensures forall j :: 0 <= j < |font.glyphs| ==> font.glyphs[j].unicode == old(font.glyphs)[j].unicode
    ensures forall k :: 0 <= k < |subbed| ==> subbed[k] < |font.glyphs|
    ensures tag !in tagmap ==>
      font.glyphs == old(font.glyphs) && font.selection == old(font.selection) && subbed == []
    ensures tag in tagmap ==>
      var F := SubUpTo(old(font.glyphs), Plan(old(font.glyphs), tagmap[tag], onlySubTable, table), |old(font.glyphs)|);
      font.glyphs == F.glyphs && subbed == F.subbed
      && font.selection == if F.cleared then {} else old(font.selection)
  {
    if tag !in tagmap {
      return [];
    }
    var sts := tagmap[tag];
    ghost var glyphs0 := font.glyphs;
    ghost var sel0 := font.selection;
    ghost var plan := Plan(glyphs0, sts, onlySubTable, table);
    var n := |font.glyphs|;
    subbed := [];
    for i := 0 to n
      invariant |font.glyphs| == |glyphs0|
      invariant var S := SubUpTo(glyphs0, plan, i);
                font.glyphs == S.glyphs && subbed == S.subbed
                && font.selection == if S.cleared then {} else sel0
    {
      StepPrep(glyphs0, plan, i, sts, onlySubTable, table);
      var acted := SubGlyph(font, i, sts, onlySubTable, table);
      if acted {
        subbed := subbed + [i];
      }
    }
    SubUpToFacts(glyphs0, plan, n);
    SameRowsRefsOk(glyphs0, font.glyphs);
  }

  /** Before iteration `i`, glyph `i` is as it was, so its action is the
      planned one, and the font's references are still valid. */
  lemma StepPrep(glyphs: seq<Glyph>, plan: seq<Action>, i: nat, sts: seq<string>, onlySubTable: bool, table: seq<Row>)
    requires RefsOk(glyphs) && i < |glyphs| && plan == Plan(glyphs, sts, onlySubTable, table)
    ensures var S := SubUpTo(glyphs, plan, i);
      RefsOk(S.glyphs) && Decide(S.glyphs[i], sts, onlySubTable, table) == plan[i]
      && SubUpTo(glyphs, plan, i + 1) == SubStep(S, i, plan[i])
  {
    NotYetReached(glyphs, plan, i, i);
    SubUpToFacts(glyphs, plan, i);
    SameRowsRefsOk(glyphs, SubUpTo(glyphs, plan, i).glyphs);
  }
}
