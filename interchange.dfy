/**
 * The file the two programs share: the generator prints its range table
 * (vort/src/main.rs:128-130) and the font script reads it back with
 * `get_table` (main.py:17-24). Reading what was printed gives back every
 * range and its value, the rows come out sorted and disjoint as `table_at`
 * requires, and the lookup then agrees with the generator's table.
 */
module Interchange {
  import opened Wrappers
  import opened Text
  import Vort
  import OrientationTable

  /** The rows `get_table` should produce for a generated table. */
  function Rows(t: seq<Vort.Span>): (rows: seq<OrientationTable.Row>)
    ensures |rows| == |t|
    ensures forall i :: 0 <= i < |t| ==>
      rows[i] == OrientationTable.Row(t[i].lo, t[i].hi, Vort.Display(t[i].v))
  {
    if t == [] then []
    else [OrientationTable.Row(t[0].lo, t[0].hi, Vort.Display(t[0].v))] + Rows(t[1..])
  }

  /** The printed lines, without their line feeds. */
  function PrintedLines(t: seq<Vort.Span>): (ls: seq<string>)
    ensures |ls| == |t|
    ensures forall i :: 0 <= i < |t| ==> ls[i] == Vort.FormatLine(t[i])
  {
    if t == [] then [] else [Vort.FormatLine(t[0])] + PrintedLines(t[1..])
  }

  /** The printed table is its lines, each followed by a line feed. */
  lemma {:induction false} RenderIsTerminated(t: seq<Vort.Span>)
    ensures Vort.Render(t) == OrientationTable.Terminated(PrintedLines(t))
  {
    if t != [] {
      RenderIsTerminated(t[1..]);
      assert PrintedLines(t)[1..] == PrintedLines(t[1..]);
    }
  }

  lemma HexIsWord(n: nat)
    ensures Hex(n) != [] && OrientationTable.NoPySpace(Hex(n))
    ensures OrientationTable.NoLineBreak(Hex(n))
  {
  }

  lemma DisplayIsWord(o: Vort.Orient)
    ensures Vort.Display(o) != [] && OrientationTable.NoPySpace(Vort.Display(o))
    ensures OrientationTable.NoLineBreak(Vort.Display(o))
  {
  }

  /** A printed line is three words joined by single spaces. */
  lemma FormatLineWords(s: Vort.Span)
    ensures Vort.FormatLine(s) == Join([Hex(s.lo), Hex(s.hi), Vort.Display(s.v)], " ")
  {
    var ws := [Hex(s.lo), Hex(s.hi), Vort.Display(s.v)];
    assert ws[1..][1..] == [Vort.Display(s.v)];
    assert Join(ws[1..], " ") == Hex(s.hi) + " " + Vort.Display(s.v);
  }

  /** `line_to_range_type` reads a printed line back as its range and value. */
  lemma LineReadsBack(s: Vort.Span)
    ensures OrientationTable.LineToRangeType(Vort.FormatLine(s))
         == Ok(OrientationTable.Row(s.lo, s.hi, Vort.Display(s.v)))
  {
    HexIsWord(s.lo);
    HexIsWord(s.hi);
    DisplayIsWord(s.v);
    OrientationTable.PyHexIntOfHex(s.lo);
    OrientationTable.PyHexIntOfHex(s.hi);
    FormatLineWords(s);
    OrientationTable.LineReads(Hex(s.lo), Hex(s.hi), Vort.Display(s.v), []);
    assert [Hex(s.lo), Hex(s.hi), Vort.Display(s.v)] + [] == [Hex(s.lo), Hex(s.hi), Vort.Display(s.v)];
  }

  lemma LineHasNoBreak(s: Vort.Span)
    ensures OrientationTable.NoLineBreak(Vort.FormatLine(s))
  {
    HexIsWord(s.lo);
    HexIsWord(s.hi);
    DisplayIsWord(s.v);
  }

  /** Reading the printed table gives back its rows, in order. */
  lemma ReadBack(t: seq<Vort.Span>)
    ensures OrientationTable.GetTable(Vort.Render(t)) == Ok(Rows(t))
  {
    var ls := PrintedLines(t);
    RenderIsTerminated(t);
    forall i | 0 <= i < |ls| ensures OrientationTable.NoLineBreak(ls[i]) {
      LineHasNoBreak(t[i]);
    }
    OrientationTable.SplitTerminated(ls);
    forall i | 0 <= i < |ls| ensures OrientationTable.LineToRangeType(ls[i]) == Ok(Rows(t)[i]) {
      LineReadsBack(t[i]);
    }
    OrientationTable.ParseRowsAll(ls, Rows(t));
  }

  /** A sorted, disjoint generated table reads as a table `table_at` can
      search. */
  lemma RowsSorted(t: seq<Vort.Span>)
    requires Vort.Proper(t) && Vort.Sorted(t)
    ensures OrientationTable.SortedTable(Rows(t))
  {
  }

  /** The token the font script sees for a value, `"None"` for no value. */
  function Token(v: Option<Vort.Orient>): string {
    match v
    case None => "None"
    case Some(o) => Vort.Display(o)
  }

  /** The linear lookup over the rows is the generator's value, displayed. */
  lemma {:induction false} LookupMatches(t: seq<Vort.Span>, c: int)
    ensures OrientationTable.Lookup(Rows(t), c) == Token(Vort.ValueAt(t, c))
  {
    if t != [] {
      assert Rows(t)[1..] == Rows(t[1..]);
      LookupMatches(t[1..], c);
    }
  }

  /** The generator's output, read back, is a non-empty sorted table whose
      lookup gives every code point the value of the last range containing
      it, and gives unencoded glyphs (code -1) `"None"`. */
  lemma GeneratedTableServesLookup(ranges: seq<Vort.Span>, t: seq<Vort.Span>)
    requires Vort.Proper(t) && Vort.Sorted(t)
    requires forall c :: Vort.ValueAt(t, c) == Vort.LastValue(ranges, c)
    requires forall c :: 0 <= c <= Vort.MaxCode ==> Vort.ValueAt(t, c).Some?
    ensures OrientationTable.GetTable(Vort.Render(t)) == Ok(Rows(t))
    ensures OrientationTable.SortedTable(Rows(t)) && Rows(t) != []
    ensures forall c :: OrientationTable.Lookup(Rows(t), c) == Token(Vort.LastValue(ranges, c))
    ensures OrientationTable.Lookup(Rows(t), -1) == "None"
  {
    ReadBack(t);
    RowsSorted(t);
    assert Vort.ValueAt(t, 0).Some?;
    forall c ensures OrientationTable.Lookup(Rows(t), c) == Token(Vort.LastValue(ranges, c)) {
      LookupMatches(t, c);
    }
    NoValueBelowZero(t);
  }

  lemma {:induction false} NoValueBelowZero(t: seq<Vort.Span>)
    ensures Vort.ValueAt(t, -1) == None
    ensures OrientationTable.Lookup(Rows(t), -1) == "None"
  {
    if t != [] {
      NoValueBelowZero(t[1..]);
      assert Rows(t)[1..] == Rows(t[1..]);
    }
  }
}
