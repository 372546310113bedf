/**
 * Choosing the glyphs to rotate (main.py:121-140). First every glyph whose
 * code point the table marks U or Tu is added to the selection. Then, for
 * every encoded glyph, each unencoded glyph named by one of its
 * substitution rows (single, multiple or alternate) is added when the
 * encoded glyph is U or Tu and removed otherwise. Last, every glyph the
 * `vert` substitution changed is added.
 *
 * The second pass is specified as a sequence of add/remove events applied
 * in order, so the later of two referrers decides.
 */
module Selection {
  import opened Wrappers
  import opened Fonts
  import opened OrientationTable

  /** `table_at(table, code) in ["U", "Tu"]`. */
  predicate Upright(table: seq<Row>, code: int) {
    Lookup(table, code) in ["U", "Tu"]
  }

  /** `select(("more",), g)` or `select(("less",), g)`. */
  datatype Event = Event(target: GlyphId, add: bool)

  function Mark(s: set<GlyphId>, e: Event): set<GlyphId> {
    if e.add then s + {e.target} else s - {e.target}
  }

  /** The selection after the events, in order. */
  function Apply(sel: set<GlyphId>, evs: seq<Event>): set<GlyphId> {
    if evs == [] then sel else Mark(Apply(sel, evs[..|evs| - 1]), evs[|evs| - 1])
  }

  /** Whether the last event about `x` adds it, if there is one. */
  function LastFlag(evs: seq<Event>, x: GlyphId): Option<bool> {
    if evs == [] then None
    else if evs[|evs| - 1].target == x then Some(evs[|evs| - 1].add)
    else LastFlag(evs[..|evs| - 1], x)
  }

  /** A glyph is selected after the events exactly when the last event
      about it adds it, or there is none and it was selected before. */
  lemma {:induction false} ApplyMember(sel: set<GlyphId>, evs: seq<Event>, x: GlyphId)
    ensures x in Apply(sel, evs) <==> LastFlag(evs, x) == Some(true) || (LastFlag(evs, x) == None && x in sel)
  {
    if evs != [] {
      ApplyMember(sel, evs[..|evs| - 1], x);
    }
  }

  /** The last event about `x` is one of the events, and there is none
      exactly when no event is about `x`. */
  lemma {:induction false} LastFlagFrom(evs: seq<Event>, x: GlyphId)
    ensures LastFlag(evs, x).Some? ==> Event(x, LastFlag(evs, x).value) in evs
    ensures LastFlag(evs, x).None? <==> forall k :: 0 <= k < |evs| ==> evs[k].target != x
  {
    if evs != [] {
      var init := evs[..|evs| - 1];
      LastFlagFrom(init, x);
      assert evs == init + [evs[|evs| - 1]];
      if LastFlag(evs, x).None? {
        forall k | 0 <= k < |evs| ensures evs[k].target != x {
          if k < |evs| - 1 {
            assert evs[k] == init[k];
          }
        }
      }
    }
  }

  lemma ApplySnoc(sel: set<GlyphId>, evs: seq<Event>, e: Event)
    ensures Apply(sel, evs + [e]) == Mark(Apply(sel, evs), e)
  {
    assert (evs + [e])[..|evs|] == evs;
  }

  // ---- The first pass: U and Tu glyphs ----

  /** The selection after the first pass has looked at `n` glyphs. */
  function SeedUpTo(glyphs: seq<Glyph>, table: seq<Row>, sel: set<GlyphId>, n: nat): (r: set<GlyphId>)
    requires n <= |glyphs|
    ensures forall x: GlyphId :: x in r <==> x in sel || (x < n && Upright(table, glyphs[x].unicode))
  {
    if n == 0 then sel
    else SeedUpTo(glyphs, table, sel, n - 1) + (if Upright(table, glyphs[n - 1].unicode) then {n - 1} else {})
  }

  /** The first loop. */
  method SeedRotated(font: Font, table: seq<Row>)
    requires font.Valid() && SortedTable(table) && table != []
    modifies font
    ensures font.glyphs == old(font.glyphs) && font.Valid()
    ensures font.selection == SeedUpTo(font.glyphs, table, old(font.selection), |font.glyphs|)
  {
    ghost var sel0 := font.selection;
    for i := 0 to |font.glyphs|
      invariant font.glyphs == old(font.glyphs)
      invariant font.selection == SeedUpTo(font.glyphs, table, sel0, i)
    {
      var cls := TableAt(table, font.glyphs[i].unicode);
      if cls.value in ["U", "Tu"] {
        font.selection := font.selection + {i};
      }
    }
  }

  // ---- The second pass: glyphs reached by substitution ----

  /** The row kinds the second pass follows. */
  predicate Selects(r: Rule) {
    r.Substitution? || r.MultiSubs? || r.AltSubs?
  }

  predicate OpsIn(glyphs: seq<Glyph>, ops: seq<GlyphId>) {
    forall j :: 0 <= j < |ops| ==> ops[j] < |glyphs|
  }

  predicate RowsOpsIn(glyphs: seq<Glyph>, rows: seq<PosSub>) {
    forall k :: 0 <= k < |rows| ==> OpsIn(glyphs, Operands(rows[k].rule))
  }

  /** Some followed row among `rows` names `x`. */
  predicate ReferredBy(rows: seq<PosSub>, x: GlyphId) {
    rows != []
    && (ReferredBy(rows[..|rows| - 1], x)
        || (Selects(rows[|rows| - 1].rule) && x in Operands(rows[|rows| - 1].rule)))
  }

  lemma {:induction false} ReferredByRow(rows: seq<PosSub>, x: GlyphId)
    ensures ReferredBy(rows, x) <==>
      exists m :: 0 <= m < |rows| && Selects(rows[m].rule) && x in Operands(rows[m].rule)
  {
    if rows != [] {
      var init := rows[..|rows| - 1];
      ReferredByRow(init, x);
      if exists m :: 0 <= m < |rows| && Selects(rows[m].rule) && x in Operands(rows[m].rule) {
        var m :| 0 <= m < |rows| && Selects(rows[m].rule) && x in Operands(rows[m].rule);
        if m < |rows| - 1 {
          assert init[m] == rows[m];
        }
      }
      if ReferredBy(init, x) {
        var m :| 0 <= m < |init| && Selects(init[m].rule) && x in Operands(init[m].rule);
        assert rows[m] == init[m];
      }
    }
  }

  /** Encoded glyph `g` has a followed row naming `x`. */
  predicate Refers(glyphs: seq<Glyph>, g: nat, x: GlyphId)
    requires g < |glyphs|
  {
    glyphs[g].unicode != -1 && ReferredBy(glyphs[g].rows, x)
  }

  /** The events of one row's operands: the unencoded ones, in order. */
  function OperandEvents(glyphs: seq<Glyph>, add: bool, ops: seq<GlyphId>): seq<Event>
    requires OpsIn(glyphs, ops)
  {
    if ops == [] then []
    else
      var o := ops[|ops| - 1];
      OperandEvents(glyphs, add, ops[..|ops| - 1]) + (if glyphs[o].unicode == -1 then [Event(o, add)] else [])
  }

  /** The events of a glyph's rows, in order. */
  function RowEvents(glyphs: seq<Glyph>, add: bool, rows: seq<PosSub>): seq<Event>
    requires RowsOpsIn(glyphs, rows)
  {
    if rows == [] then []
    else
      var last := rows[|rows| - 1].rule;
      RowEvents(glyphs, add, rows[..|rows| - 1])
      + (if Selects(last) then OperandEvents(glyphs, add, Operands(last)) else [])
  }

  lemma RowsOpsInGlyph(glyphs: seq<Glyph>, g: nat)
    requires RefsOk(glyphs) && g < |glyphs|
    ensures RowsOpsIn(glyphs, glyphs[g].rows)
  {
  }

  /** The events of the second pass over the first `n` glyphs. */
  function GlyphEvents(glyphs: seq<Glyph>, table: seq<Row>, n: nat): seq<Event>
    requires n <= |glyphs| && RefsOk(glyphs)
  {
    if n == 0 then [] else GlyphEvents(glyphs, table, n - 1) + OwnEvents(glyphs, table, n - 1)
  }

  /** The events of glyph `g` in the second pass: those of its rows when it
      is encoded, none otherwise. */
  function OwnEvents(glyphs: seq<Glyph>, table: seq<Row>, g: nat): seq<Event>
    requires g < |glyphs| && RefsOk(glyphs)
  {
    RowsOpsInGlyph(glyphs, g);
    if glyphs[g].unicode != -1 then RowEvents(glyphs, Upright(table, glyphs[g].unicode), glyphs[g].rows) else []
  }

  /** A row's events add or remove, as its glyph's class says, unencoded
      operands of that row. */
  lemma {:induction false} OperandEventsFacts(glyphs: seq<Glyph>, add: bool, ops: seq<GlyphId>)
    requires OpsIn(glyphs, ops)
    ensures forall k :: 0 <= k < |OperandEvents(glyphs, add, ops)| ==>
      var e := OperandEvents(glyphs, add, ops)[k];
      e.add == add && e.target in ops && glyphs[e.target].unicode == -1
  {
    if ops != [] {
      var init := ops[..|ops| - 1];
      var o := ops[|ops| - 1];
      OperandEventsFacts(glyphs, add, init);
      var evs := OperandEvents(glyphs, add, ops);
      var pre := OperandEvents(glyphs, add, init);
      var post := if glyphs[o].unicode == -1 then [Event(o, add)] else [];
      assert evs == pre + post;
      assert ops == init + [o];
      forall k | 0 <= k < |evs|
        ensures evs[k].add == add && evs[k].target in ops && glyphs[evs[k].target].unicode == -1
      {
        if k < |pre| {
          assert evs[k] == pre[k];
          assert pre[k].target in init;
        } else {
          assert evs[k] == post[k - |pre|];
        }
      }
    }
  }

  /** A glyph's events are about unencoded glyphs some followed row of it
      names, and all add or all remove. */
  lemma {:induction false} RowEventsFacts(glyphs: seq<Glyph>, add: bool, rows: seq<PosSub>)
    requires RowsOpsIn(glyphs, rows)
    ensures forall k :: 0 <= k < |RowEvents(glyphs, add, rows)| ==>
      var e := RowEvents(glyphs, add, rows)[k];
      e.add == add && e.target < |glyphs| && glyphs[e.target].unicode == -1 && ReferredBy(rows, e.target)
  {
    if rows != [] {
      var init := rows[..|rows| - 1];
      var last := rows[|rows| - 1].rule;
      RowEventsFacts(glyphs, add, init);
      var evs := RowEvents(glyphs, add, rows);
      var pre := RowEvents(glyphs, add, init);
      var post := if Selects(last) then OperandEvents(glyphs, add, Operands(last)) else [];
      assert evs == pre + post;
      if Selects(last) {
        OperandEventsFacts(glyphs, add, Operands(last));
      }
      forall k | 0 <= k < |evs|
        ensures evs[k].add == add && evs[k].target < |glyphs| && glyphs[evs[k].target].unicode == -1
                && ReferredBy(rows, evs[k].target)
      {
        if k < |pre| {
          assert evs[k] == pre[k];
        } else {
          assert evs[k] == post[k - |pre|];
        }
      }
    }
  }

  /** Every event of the second pass is about an unencoded glyph of the
      font. */
  lemma {:induction false} GlyphEventsFacts(glyphs: seq<Glyph>, table: seq<Row>, n: nat)
    requires n <= |glyphs| && RefsOk(glyphs)
    ensures forall k :: 0 <= k < |GlyphEvents(glyphs, table, n)| ==>
      var e := GlyphEvents(glyphs, table, n)[k];
      e.target < |glyphs| && glyphs[e.target].unicode == -1
  {
    if n > 0 {
      GlyphEventsFacts(glyphs, table, n - 1);
      var b := OwnEvents(glyphs, table, n - 1);
      RowsOpsInGlyph(glyphs, n - 1);
      if glyphs[n - 1].unicode != -1 {
        RowEventsFacts(glyphs, Upright(table, glyphs[n - 1].unicode), glyphs[n - 1].rows);
      }
      var evs := GlyphEvents(glyphs, table, n);
      var pre := GlyphEvents(glyphs, table, n - 1);
      forall k | 0 <= k < |evs|
        ensures evs[k].target < |glyphs| && glyphs[evs[k].target].unicode == -1
      {
        if k < |pre| {
          assert evs[k] == pre[k];
        } else {
          assert evs[k] == b[k - |pre|];
        }
      }
    }
  }

  /** Proof step only: appending one event is associative. */
  lemma SnocEvent(a: seq<Event>, b: seq<Event>, e: Event)
    ensures (a + b) + [e] == a + (b + [e])
  {
  }

  /** Proof step only: appending no events changes nothing. */
  lemma AppendEmpty(a: seq<Event>)
    ensures a + [] == a
  {
  }

  /** Proof step only: appending event lists is associative. */
  lemma AppendAssoc(a: seq<Event>, b: seq<Event>, c: seq<Event>)
    ensures (a + b) + c == a + (b + c)
  {
  }

  /** One operand more: at most one event more. */
  lemma OperandStep(glyphs: seq<Glyph>, add: bool, ops: seq<GlyphId>, j: nat, before: seq<Event>, sel1: set<GlyphId>)
    requires OpsIn(glyphs, ops) && j < |ops|
    ensures var done := before + OperandEvents(glyphs, add, ops[..j]);
            Apply(sel1, before + OperandEvents(glyphs, add, ops[..j + 1]))
            == if glyphs[ops[j]].unicode == -1 then Mark(Apply(sel1, done), Event(ops[j], add)) else Apply(sel1, done)
  {
    assert ops[..j + 1][..j] == ops[..j];
    var done := OperandEvents(glyphs, add, ops[..j]);
    if glyphs[ops[j]].unicode == -1 {
      SnocEvent(before, done, Event(ops[j], add));
      ApplySnoc(sel1, before + done, Event(ops[j], add));
    } else {
      AppendEmpty(done);
    }
  }

  /** One row more: the events of its operands, if it is followed. */
  lemma RowStep(glyphs: seq<Glyph>, add: bool, rows: seq<PosSub>, k: nat, before: seq<Event>)
    requires RowsOpsIn(glyphs, rows) && k < |rows|
    ensures var done := before + RowEvents(glyphs, add, rows[..k]);
            before + RowEvents(glyphs, add, rows[..k + 1])
            == if Selects(rows[k].rule) then done + OperandEvents(glyphs, add, Operands(rows[k].rule)) else done
  {
    assert rows[..k + 1][..k] == rows[..k];
    var done := RowEvents(glyphs, add, rows[..k]);
    if Selects(rows[k].rule) {
      AppendAssoc(before, done, OperandEvents(glyphs, add, Operands(rows[k].rule)));
    } else {
      AppendEmpty(done);
      AppendEmpty(before + done);
    }
  }

  /** One operand: an unencoded glyph is added when the referring glyph's
      code point is U or Tu and removed otherwise; an encoded one is left
      alone. */
  method MarkOperand(font: Font, table: seq<Row>, code: int, o: GlyphId)
    requires o < |font.glyphs| && SortedTable(table) && table != []
    modifies font
    ensures font.glyphs == old(font.glyphs)
    ensures font.selection == if font.glyphs[o].unicode == -1
                              then Mark(old(font.selection), Event(o, Upright(table, code)))
                              else old(font.selection)
  {
    if font.glyphs[o].unicode == -1 {
      var cls := TableAt(table, code);
      if cls.value in ["U", "Tu"] {
        font.selection := font.selection + {o};
      } else {
        font.selection := font.selection - {o};
      }
    }
  }

  /** The innermost loop: one row's operands. */
  method FollowRow(font: Font, table: seq<Row>, code: int, ops: seq<GlyphId>, ghost before: seq<Event>, ghost sel1: set<GlyphId>)
    requires OpsIn(font.glyphs, ops) && SortedTable(table) && table != []
    requires font.selection == Apply(sel1, before)
    modifies font
    ensures font.glyphs == old(font.glyphs)
    ensures font.selection == Apply(sel1, before + OperandEvents(font.glyphs, Upright(table, code), ops))
  {
    ghost var add := Upright(table, code);
    AppendEmpty(before);
    for j := 0 to |ops|
      invariant font.glyphs == old(font.glyphs)
      invariant font.selection == Apply(sel1, before + OperandEvents(font.glyphs, add, ops[..j]))
    {
      OperandStep(font.glyphs, add, ops, j, before, sel1);
      MarkOperand(font, table, code, ops[j]);
    }
    assert ops[..|ops|] == ops;
  }

  /** `sel` is the selection `sel1` after the second pass has looked at
      the first `n` glyphs. */
  predicate Followed(sel: set<GlyphId>, sel1: set<GlyphId>, glyphs: seq<Glyph>, table: seq<Row>, n: nat)
    requires RefsOk(glyphs) && n <= |glyphs|
  {
    sel == Apply(sel1, GlyphEvents(glyphs, table, n))
  }

  /** One glyph of the second loop: an unencoded glyph is skipped, an
      encoded one has its rows followed. */
  method FollowGlyph(font: Font, table: seq<Row>, g: nat, ghost sel1: set<GlyphId>)
    requires RefsOk(font.glyphs) && g < |font.glyphs|
    requires SortedTable(table) && table != []
    requires Followed(font.selection, sel1, font.glyphs, table, g)
    modifies font
    ensures font.glyphs == old(font.glyphs)
    ensures Followed(font.selection, sel1, font.glyphs, table, g + 1)
  {
    ghost var before := GlyphEvents(font.glyphs, table, g);
    RowsOpsInGlyph(font.glyphs, g);
    var code := font.glyphs[g].unicode;
    AppendEmpty(before);
    if code != -1 {
      var rows := font.glyphs[g].rows;
      ghost var add := Upright(table, code);
      for k := 0 to |rows|
        invariant font.glyphs == old(font.glyphs)
        invariant font.selection == Apply(sel1, before + RowEvents(font.glyphs, add, rows[..k]))
      {
        RowStep(font.glyphs, add, rows, k, before);
        var sub := rows[k].rule;
        if Selects(sub) {
          FollowRow(font, table, code, Operands(sub), before + RowEvents(font.glyphs, add, rows[..k]), sel1);
        }
      }
      assert rows[..|rows|] == rows;
    }
    assert GlyphEvents(font.glyphs, table, g + 1) == before + OwnEvents(font.glyphs, table, g);
  }

  /** The second loop. */
  method FollowSubstitutions(font: Font, table: seq<Row>)
    requires font.Valid() && SortedTable(table) && table != []
    modifies font
    ensures font.glyphs == old(font.glyphs)
    ensures font.selection == Apply(old(font.selection), GlyphEvents(font.glyphs, table, |font.glyphs|))
  {
    ghost var sel1 := font.selection;
    ghost var glyphs := font.glyphs;
    for i := 0 to |font.glyphs|
      invariant font.glyphs == glyphs
      invariant Followed(font.selection, sel1, glyphs, table, i)
    {
      FollowGlyph(font, table, i, sel1);
    }
  }

  /** A followed row naming an unencoded glyph gives it an event. */
  lemma {:induction false} OperandEventsHas(glyphs: seq<Glyph>, add: bool, ops: seq<GlyphId>, x: GlyphId)
    requires OpsIn(glyphs, ops) && x in ops && x < |glyphs| && glyphs[x].unicode == -1
    ensures Event(x, add) in OperandEvents(glyphs, add, ops)
  {
    var init := ops[..|ops| - 1];
    if ops[|ops| - 1] != x {
      assert ops == init + [ops[|ops| - 1]];
      OperandEventsHas(glyphs, add, init, x);
    }
  }

  lemma {:induction false} RowEventsHas(glyphs: seq<Glyph>, add: bool, rows: seq<PosSub>, x: GlyphId)
    requires RowsOpsIn(glyphs, rows) && ReferredBy(rows, x)
    requires x < |glyphs| && glyphs[x].unicode == -1
    ensures Event(x, add) in RowEvents(glyphs, add, rows)
  {
    var init := rows[..|rows| - 1];
    var last := rows[|rows| - 1].rule;
    var b := if Selects(last) then OperandEvents(glyphs, add, Operands(last)) else [];
    assert RowEvents(glyphs, add, rows) == RowEvents(glyphs, add, init) + b;
    if Selects(last) && x in Operands(last) {
      OperandEventsHas(glyphs, add, Operands(last), x);
    } else {
      RowEventsHas(glyphs, add, init, x);
    }
  }

  // ---- The third pass and the whole selection ----

  /** The third loop. */
  method SelectSubbed(font: Font, subbed: seq<GlyphId>)
    modifies font
    ensures font.glyphs == old(font.glyphs)
    ensures font.selection == old(font.selection) + Members(subbed)
  {
    for i := 0 to |subbed|
      invariant font.glyphs == old(font.glyphs)
      invariant font.selection == old(font.selection) + Members(subbed[..i])
    {
      assert Members(subbed[..i + 1]) == Members(subbed[..i]) + {subbed[i]} by {
        assert subbed[..i + 1] == subbed[..i] + [subbed[i]];
      }
      font.selection := font.selection + {subbed[i]};
    }
    assert subbed[..|subbed|] == subbed;
  }

  /** The selection the three passes leave, from selection `sel0`. */
  function Rotated(glyphs: seq<Glyph>, table: seq<Row>, sel0: set<GlyphId>, subbed: seq<GlyphId>): set<GlyphId>
    requires RefsOk(glyphs)
  {
    Apply(SeedUpTo(glyphs, table, sel0, |glyphs|), GlyphEvents(glyphs, table, |glyphs|)) + Members(subbed)
  }

  /** The last glyph among the first `n` that refers to `x`. */
  function LastReferrer(glyphs: seq<Glyph>, n: nat, x: GlyphId): (r: Option<nat>)
    requires n <= |glyphs|
    ensures r.Some? ==> r.value < n
  {
    if n == 0 then None
    else if Refers(glyphs, n - 1, x) then Some(n - 1)
    else LastReferrer(glyphs, n - 1, x)
  }

  /** The glyph found refers to `x` and no later one among the first `n`
      does; none is found exactly when none of them refers to `x`. */
  lemma {:induction false} LastReferrerIsLast(glyphs: seq<Glyph>, n: nat, x: GlyphId)
    requires n <= |glyphs|
    ensures var r := LastReferrer(glyphs, n, x);
      r.Some? ==> Refers(glyphs, r.value, x) && forall g :: r.value < g < n ==> !Refers(glyphs, g, x)
    ensures LastReferrer(glyphs, n, x).None? <==> forall g :: 0 <= g < n ==> !Refers(glyphs, g, x)
  {
    if n > 0 && !Refers(glyphs, n - 1, x) {
      LastReferrerIsLast(glyphs, n - 1, x);
    }
  }

  lemma {:induction false} LastFlagAppend(a: seq<Event>, b: seq<Event>, x: GlyphId)
    ensures LastFlag(a + b, x) == if LastFlag(b, x).Some? then LastFlag(b, x) else LastFlag(a, x)
  {
    if b != [] {
      assert (a + b)[..|a + b| - 1] == a + b[..|b| - 1];
      LastFlagAppend(a, b[..|b| - 1], x);
    } else {
      assert a + b == a;
    }
  }

  /** Events all carrying `add`, one of them about `x`: the last about `x`
      carries `add`. */
  lemma UniformFlag(b: seq<Event>, add: bool, x: GlyphId, e: Event)
    requires forall k :: 0 <= k < |b| ==> b[k].add == add
    requires e in b && e.target == x
    ensures LastFlag(b, x) == Some(add)
  {
    LastFlagFrom(b, x);
  }

  /** The glyph's own events for `x`: there are some, all adding or all
      removing, when it refers to `x`, and none otherwise. */
  lemma GlyphStepFlag(glyphs: seq<Glyph>, table: seq<Row>, g: nat, x: GlyphId)
    requires RefsOk(glyphs) && g < |glyphs| && x < |glyphs| && glyphs[x].unicode == -1
    ensures LastFlag(OwnEvents(glyphs, table, g), x)
         == if Refers(glyphs, g, x) then Some(Upright(table, glyphs[g].unicode)) else None
  {
    RowsOpsInGlyph(glyphs, g);
    var b := OwnEvents(glyphs, table, g);
    if glyphs[g].unicode != -1 {
      RowEventsFacts(glyphs, Upright(table, glyphs[g].unicode), glyphs[g].rows);
    }
    LastFlagFrom(b, x);
    if Refers(glyphs, g, x) {
      var add := Upright(table, glyphs[g].unicode);
      RowEventsHas(glyphs, add, glyphs[g].rows, x);
      UniformFlag(b, add, x, Event(x, add));
    }
  }

  /** The second pass leaves an unencoded glyph as its last referrer's
      class says, and untouched if nothing refers to it. */
  lemma LastReferrerDecides(glyphs: seq<Glyph>, table: seq<Row>, n: nat, x: GlyphId)
    requires RefsOk(glyphs) && n <= |glyphs| && x < |glyphs| && glyphs[x].unicode == -1
    ensures LastFlag(GlyphEvents(glyphs, table, n), x) == Verdict(glyphs, table, LastReferrer(glyphs, n, x))
  {
    DecidedUpTo(glyphs, table, n, x);
  }

  /** The first `n` glyphs' events leave `x` as its last referrer among
      them says. */
  predicate Decided(glyphs: seq<Glyph>, table: seq<Row>, n: nat, x: GlyphId)
    requires RefsOk(glyphs) && n <= |glyphs|
  {
    LastFlag(GlyphEvents(glyphs, table, n), x) == Verdict(glyphs, table, LastReferrer(glyphs, n, x))
  }

  lemma {:induction false} DecidedUpTo(glyphs: seq<Glyph>, table: seq<Row>, n: nat, x: GlyphId)
    requires RefsOk(glyphs) && n <= |glyphs| && x < |glyphs| && glyphs[x].unicode == -1
    ensures Decided(glyphs, table, n, x)
  {
    if n == 0 {
      DecidedNone(glyphs, table, x);
    } else if Refers(glyphs, n - 1, x) {
      DecidedHere(glyphs, table, n, x);
    } else {
      DecidedUpTo(glyphs, table, n - 1, x);
      DecidedBefore(glyphs, table, n, x);
    }
  }

  /** No glyph has run yet: `x` is undecided. */
  lemma DecidedNone(glyphs: seq<Glyph>, table: seq<Row>, x: GlyphId)
    requires RefsOk(glyphs)
    ensures Decided(glyphs, table, 0, x)
  {
    assert GlyphEvents(glyphs, table, 0) == [];
  }

  /** Glyph `n - 1` refers to `x` and so decides it. */
  lemma DecidedHere(glyphs: seq<Glyph>, table: seq<Row>, n: nat, x: GlyphId)
    requires RefsOk(glyphs) && 0 < n <= |glyphs| && x < |glyphs| && glyphs[x].unicode == -1
    requires Refers(glyphs, n - 1, x)
    ensures Decided(glyphs, table, n, x)
  {
    HereFlag(glyphs, table, n, x);
    HereVerdict(glyphs, table, n, x);
  }

  lemma HereFlag(glyphs: seq<Glyph>, table: seq<Row>, n: nat, x: GlyphId)
    requires RefsOk(glyphs) && 0 < n <= |glyphs| && x < |glyphs| && glyphs[x].unicode == -1
    requires Refers(glyphs, n - 1, x)
    ensures LastFlag(GlyphEvents(glyphs, table, n), x) == Some(Upright(table, glyphs[n - 1].unicode))
  {
    DecideStep(glyphs, table, n, x);
  }

  lemma HereVerdict(glyphs: seq<Glyph>, table: seq<Row>, n: nat, x: GlyphId)
    requires 0 < n <= |glyphs| && Refers(glyphs, n - 1, x)
    ensures Verdict(glyphs, table, LastReferrer(glyphs, n, x)) == Some(Upright(table, glyphs[n - 1].unicode))
  {
  }

  /** Glyph `n - 1` does not refer to `x` and leaves the decision to the
      earlier glyphs. */
  lemma DecidedBefore(glyphs: seq<Glyph>, table: seq<Row>, n: nat, x: GlyphId)
    requires RefsOk(glyphs) && 0 < n <= |glyphs| && x < |glyphs| && glyphs[x].unicode == -1
    requires !Refers(glyphs, n - 1, x) && Decided(glyphs, table, n - 1, x)
    ensures Decided(glyphs, table, n, x)
  {
    DecideStep(glyphs, table, n, x);
    assert LastReferrer(glyphs, n, x) == LastReferrer(glyphs, n - 1, x);
  }

  /** Glyph `n - 1` decides `x` when it refers to it and passes the
      decision on to the earlier glyphs otherwise. */
  lemma DecideStep(glyphs: seq<Glyph>, table: seq<Row>, n: nat, x: GlyphId)
    requires RefsOk(glyphs) && 0 < n <= |glyphs| && x < |glyphs| && glyphs[x].unicode == -1
    ensures LastFlag(GlyphEvents(glyphs, table, n), x)
         == if Refers(glyphs, n - 1, x) then Some(Upright(table, glyphs[n - 1].unicode))
            else LastFlag(GlyphEvents(glyphs, table, n - 1), x)
  {
    GlyphEventsSnoc(glyphs, table, n);
    GlyphStepFlag(glyphs, table, n - 1, x);
    CombineFlags(GlyphEvents(glyphs, table, n), GlyphEvents(glyphs, table, n - 1), OwnEvents(glyphs, table, n - 1),
                 x, Refers(glyphs, n - 1, x), Upright(table, glyphs[n - 1].unicode));
  }

  /** Events `b` that say `v` about `x` when `refers` holds and nothing
      otherwise, run after `a`. */
  lemma CombineFlags(all: seq<Event>, a: seq<Event>, b: seq<Event>, x: GlyphId, refers: bool, v: bool)
    requires all == a + b
    requires LastFlag(b, x) == if refers then Some(v) else None
    ensures LastFlag(all, x) == if refers then Some(v) else LastFlag(a, x)
  {
    LastFlagAppend(a, b, x);
  }

  lemma GlyphEventsSnoc(glyphs: seq<Glyph>, table: seq<Row>, n: nat)
    requires RefsOk(glyphs) && 0 < n <= |glyphs|
    ensures GlyphEvents(glyphs, table, n) == GlyphEvents(glyphs, table, n - 1) + OwnEvents(glyphs, table, n - 1)
  {
  }

  /** Whether the referrer found, if any, adds or removes. */
  function Verdict(glyphs: seq<Glyph>, table: seq<Row>, r: Option<nat>): Option<bool>
    requires r.Some? ==> r.value < |glyphs|
  {
    match r
    case None => None
    case Some(g) => Some(Upright(table, glyphs[g].unicode))
  }

  /** Which glyphs are selected for rotation. A glyph `vert` changed is.
      An encoded glyph is exactly when it was already selected, is U or Tu
      in the table, or was changed by `vert`; the second pass never removes
      it. An unencoded glyph that `vert` did not change is selected exactly
      when the last encoded glyph referring to it by a substitution row is
      U or Tu; with no such glyph it is decided like an encoded one, by the
      table's value for code -1. */
  lemma RotationOutcome(glyphs: seq<Glyph>, table: seq<Row>, sel0: set<GlyphId>, subbed: seq<GlyphId>, x: GlyphId)
    requires RefsOk(glyphs) && x < |glyphs|
    ensures x in subbed ==> x in Rotated(glyphs, table, sel0, subbed)
    ensures glyphs[x].unicode != -1 ==>
      (x in Rotated(glyphs, table, sel0, subbed) <==> x in sel0 || Upright(table, glyphs[x].unicode) || x in subbed)
    ensures glyphs[x].unicode == -1 && x !in subbed && LastReferrer(glyphs, |glyphs|, x).Some? ==>
      (x in Rotated(glyphs, table, sel0, subbed)
       <==> Upright(table, glyphs[LastReferrer(glyphs, |glyphs|, x).value].unicode))
    ensures glyphs[x].unicode == -1 && LastReferrer(glyphs, |glyphs|, x).None? ==>
      (x in Rotated(glyphs, table, sel0, subbed) <==> x in sel0 || Upright(table, -1) || x in subbed)
  {
    var n := |glyphs|;
    var seed := SeedUpTo(glyphs, table, sel0, n);
    var evs := GlyphEvents(glyphs, table, n);
    ApplyMember(seed, evs, x);
    if glyphs[x].unicode == -1 {
      LastReferrerDecides(glyphs, table, n, x);
    } else {
      GlyphEventsFacts(glyphs, table, n);
      LastFlagFrom(evs, x);
    }
  }

  /** The selection code of main.py:121-140 on the font `apply_sub` left,
      with the `subbed` list it returned. */
  method SelectForRotation(font: Font, table: seq<Row>, subbed: seq<GlyphId>)
    requires font.Valid() && SortedTable(table) && table != []
    requires forall k :: 0 <= k < |subbed| ==> subbed[k] < |font.glyphs|
    modifies font
    ensures font.glyphs == old(font.glyphs) && font.Valid()
    ensures font.selection == Rotated(font.glyphs, table, old(font.selection), subbed)
  {
    SeedRotated(font, table);
    FollowSubstitutions(font, table);
    SelectSubbed(font, subbed);
    forall x | x in font.selection ensures x < |font.glyphs| {
      RotationInRange(font.glyphs, table, old(font.selection), subbed, x);
    }
  }

  lemma RotationInRange(glyphs: seq<Glyph>, table: seq<Row>, sel0: set<GlyphId>, subbed: seq<GlyphId>, x: GlyphId)
    requires RefsOk(glyphs) && x in Rotated(glyphs, table, sel0, subbed)
    requires forall i :: i in sel0 ==> i < |glyphs|
    requires forall k :: 0 <= k < |subbed| ==> subbed[k] < |glyphs|
    ensures x < |glyphs|
  {
    var evs := GlyphEvents(glyphs, table, |glyphs|);
    GlyphEventsFacts(glyphs, table, |glyphs|);
    ApplyMember(SeedUpTo(glyphs, table, sel0, |glyphs|), evs, x);
    LastFlagFrom(evs, x);
    if LastFlag(evs, x).Some? {
      var k :| 0 <= k < |evs| && evs[k] == Event(x, LastFlag(evs, x).value);
    }
  }
}
