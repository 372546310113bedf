/**
 * The orientation table as the font script reads it (main.py): the text
 * file of `lo hi value` lines is cut into lines, each line into words, the
 * two codes are read as hexadecimal integers, and `table_at` looks a code
 * point up by binary search.
 */
module OrientationTable {
  import opened Wrappers
  import opened Text

  /** `[[lo, hi], value]`: a range of code points and its orientation token. */
  datatype Row = Row(lo: int, hi: int, cls: string)

  /** The Python exceptions the reading and the lookup can raise. */
  datatype PyError = IndexError | ValueError

  // ---------------------------------------------------------------------
  // `str.split()` with no separator
  // ---------------------------------------------------------------------

  predicate NoPySpace(w: string) {
    forall i :: 0 <= i < |w| ==> !IsPySpace(w[i])
  }

  /** The word at the start of `s`: everything up to the first white space. */
  function Word(s: string): (w: string)
    ensures |w| <= |s| && w == s[..|w|]
    ensures NoPySpace(w)
    ensures |w| == |s| || IsPySpace(s[|w|])
  {
    if s == [] || IsPySpace(s[0]) then []
    else
      var w := [s[0]] + Word(s[1..]);
      assert w[1..] == Word(s[1..]);
      w
  }

  /** `s.split()`: the maximal runs of non-white-space characters, in order. */
  function Words(s: string): (ws: seq<string>)
    ensures forall i :: 0 <= i < |ws| ==> ws[i] != [] && NoPySpace(ws[i])
    decreases |s|
  {
    if s == [] then []
    else if IsPySpace(s[0]) then Words(s[1..])
    else
      var w := Word(s);
      [w] + Words(s[|w|..])
  }

  /** A word followed by white space or the end is read whole. */
  lemma {:induction false} WordOf(w: string, rest: string)
    requires NoPySpace(w)
    requires rest == [] || IsPySpace(rest[0])
    ensures Word(w + rest) == w
  {
    if w != [] {
      assert (w + rest)[1..] == w[1..] + rest;
      WordOf(w[1..], rest);
    } else {
      assert w + rest == rest;
    }
  }

  /** Words separated by single spaces split back into themselves. */
  lemma {:induction false} WordsOfJoin(ws: seq<string>)
    requires |ws| > 0
    requires forall i :: 0 <= i < |ws| ==> ws[i] != [] && NoPySpace(ws[i])
    ensures Words(Join(ws, " ")) == ws
  {
    if |ws| == 1 {
      WordsOfWord(ws[0]);
    } else {
      WordsOfFirst(ws[0], Join(ws[1..], " "));
      WordsOfJoin(ws[1..]);
      assert [ws[0]] + ws[1..] == ws;
    }
  }

  /** A single word splits into itself. */
  lemma WordsOfWord(w: string)
    requires w != [] && NoPySpace(w)
    ensures Words(w) == [w]
  {
    WordOf(w, []);
    assert w + [] == w;
    assert w[|w|..] == [];
  }

  /** A word followed by a space is split off in front of what follows. */
  lemma WordsOfFirst(w: string, tail: string)
    requires w != [] && NoPySpace(w)
    ensures Words(w + " " + tail) == [w] + Words(tail)
  {
    var s := w + " " + tail;
    assert s == w + (" " + tail);
    WordOf(w, " " + tail);
    assert s[|w|..] == " " + tail;
    assert (" " + tail)[1..] == tail;
  }

  // ---------------------------------------------------------------------
  // `int(s, 16)`
  // ---------------------------------------------------------------------

  /** The digits part of a base-16 literal: hex digits with single
      underscores between them, none first or last. */
  predicate DigitRun(u: string) {
    u != [] && u[0] != '_' && u[|u| - 1] != '_'
    && (forall i :: 0 <= i < |u| ==> IsHexDigit(u[i]) || u[i] == '_')
    && (forall i :: 0 <= i < |u| - 1 ==> !(u[i] == '_' && u[i + 1] == '_'))
  }

  function DropUnderscores(u: string): (d: string)
    requires forall i :: 0 <= i < |u| ==> IsHexDigit(u[i]) || u[i] == '_'
    ensures AllHexDigits(d) && |d| <= |u|
    ensures AllHexDigits(u) ==> d == u
  {
    if u == [] then []
    else if u[0] == '_' then DropUnderscores(u[1..])
    else [u[0]] + DropUnderscores(u[1..])
  }

  /** After the sign: an optional `0x`/`0X` prefix, which one underscore may
      follow. */
  function AfterPrefix(t: string): (u: string)
    ensures |u| <= |t|
  {
    if |t| >= 2 && t[0] == '0' && (t[1] == 'x' || t[1] == 'X') then
      if |t| > 2 && t[2] == '_' then t[3..] else t[2..]
    else t
  }

  /** `int(s, 16)` on a word (which holds no white space to strip): an
      optional sign, an optional prefix, then the digit run; anything else
      raises ValueError, modelled as `None`. */
  function PyHexInt(s: string): (r: Option<int>)
    ensures s != [] && AllHexDigits(s) ==> r == Some(HexValue(s))
    ensures s == [] ==> r == None
  {
    var negative := |s| > 0 && s[0] == '-';
    var t := if |s| > 0 && (s[0] == '+' || s[0] == '-') then s[1..] else s;
    var u := AfterPrefix(t);
    if !DigitRun(u) then None
    else
      var n: int := HexValue(DropUnderscores(u));
      Some(if negative then -n else n)
  }

  /** A `0x` prefix is skipped. */
  lemma PyHexIntPrefix(d: string)
    requires d != [] && AllHexDigits(d)
    ensures PyHexInt("0x" + d) == Some(HexValue(d))
  {
    var s := "0x" + d;
    assert |s| > 2 && s[0] == '0' && s[1] == 'x' && s[2] == d[0] && s[2..] == d;
    assert IsHexDigit(d[0]);
    DigitsAreRun(d);
    PrefixedRun(s, d);
  }

  lemma PrefixedRun(s: string, d: string)
    requires |s| > 2 && s[0] == '0' && s[1] == 'x' && s[2] != '_' && s[2..] == d
    requires DigitRun(d) && AllHexDigits(d) && DropUnderscores(d) == d
    ensures PyHexInt(s) == Some(HexValue(d))
  {
    assert AfterPrefix(s) == d;
  }

  /** A minus sign negates. */
  lemma PyHexIntNegative(d: string)
    requires d != [] && AllHexDigits(d)
    ensures PyHexInt("-" + d) == Some(-(HexValue(d) as int))
  {
    var s := "-" + d;
    assert |s| > 0 && s[0] == '-' && s[1..] == d;
    DigitsAreRun(d);
    SignedRun(s, d);
  }

  lemma SignedRun(s: string, d: string)
    requires |s| > 0 && s[0] == '-' && s[1..] == d
    requires DigitRun(d) && AfterPrefix(d) == d && AllHexDigits(d) && DropUnderscores(d) == d
    ensures PyHexInt(s) == Some(-(HexValue(d) as int))
  {
  }

  /** Plain hex digits are a digit run with no prefix and no underscores. */
  lemma DigitsAreRun(d: string)
    requires d != [] && AllHexDigits(d)
    ensures DigitRun(d) && AfterPrefix(d) == d && DropUnderscores(d) == d
  {
    if |d| >= 2 {
      assert IsHexDigit(d[1]);
    }
    assert IsHexDigit(d[0]) && IsHexDigit(d[|d| - 1]);
  }

  /** A bare prefix, or an underscore before or after the digits, raises
      ValueError. */
  lemma PyHexIntRejects(d: string)
    requires d != [] && AllHexDigits(d)
    ensures PyHexInt("0x") == None && PyHexInt("_" + d) == None && PyHexInt(d + "_") == None
  {
    var b := "_" + d;
    assert b[0] == '_' && AfterPrefix(b) == b;
    EndRejected(b);
    TrailingUnderscore(d);
  }

  lemma TrailingUnderscore(d: string)
    requires d != [] && AllHexDigits(d)
    ensures PyHexInt(d + "_") == None
  {
    var e := d + "_";
    assert e[0] == d[0] && IsHexDigit(d[0]) && e[|e| - 1] == '_';
    if |d| >= 2 {
      assert e[1] == d[1] && IsHexDigit(d[1]);
    } else {
      assert e[1] == '_';
    }
    EndRejected(e);
  }

  /** A word without a sign or prefix that starts or ends with an
      underscore is not a digit run. */
  lemma EndRejected(s: string)
    requires |s| > 0 && s[0] != '+' && s[0] != '-' && AfterPrefix(s) == s
    requires s[0] == '_' || s[|s| - 1] == '_'
    ensures PyHexInt(s) == None
  {
  }

  /** Output of the `x` format reads back as the number it was written from. */
  lemma PyHexIntOfHex(n: nat)
    ensures PyHexInt(Hex(n)) == Some(n)
  {
  }

  // ---------------------------------------------------------------------
  // `line_to_range_type` and `get_table`
  // ---------------------------------------------------------------------

  /** `line_to_range_type`: the list display evaluates `x[0]`, `int`,
      `x[1]`, `int`, `x[2]` in that order, so the first failing step picks
      the exception. */
  function LineToRangeType(x: string): (r: Result<Row, PyError>)
    ensures r.Ok? <==> |Words(x)| >= 3 && PyHexInt(Words(x)[0]).Some? && PyHexInt(Words(x)[1]).Some?
    ensures r.Ok? ==> r.value.cls == Words(x)[2] && r.value.cls != []
  {
    var w := Words(x);
    if |w| < 1 then Err(IndexError)
    else
      match PyHexInt(w[0])
      case None => Err(ValueError)
      case Some(lo) =>
        if |w| < 2 then Err(IndexError)
        else
          match PyHexInt(w[1])
          case None => Err(ValueError)
          case Some(hi) =>
            if |w| < 3 then Err(IndexError)
            else Ok(Row(lo, hi, w[2]))
  }

  /** A blank line raises IndexError; a line whose first word is no hex
      number raises ValueError before the other words are looked at. */
  lemma LineErrors(x: string)
    ensures Words(x) == [] ==> LineToRangeType(x) == Err(IndexError)
    ensures Words(x) != [] && PyHexInt(Words(x)[0]).None? ==> LineToRangeType(x) == Err(ValueError)
    ensures |Words(x)| == 1 && PyHexInt(Words(x)[0]).Some? ==> LineToRangeType(x) == Err(IndexError)
  {
  }

  /** A line of three words, the first two hexadecimal, reads as its row;
      words after the third are ignored. */
  lemma LineReads(lo: string, hi: string, cls: string, extra: seq<string>)
    requires lo != [] && NoPySpace(lo) && hi != [] && NoPySpace(hi) && cls != [] && NoPySpace(cls)
    requires forall i :: 0 <= i < |extra| ==> extra[i] != [] && NoPySpace(extra[i])
    requires PyHexInt(lo).Some? && PyHexInt(hi).Some?
    ensures LineToRangeType(Join([lo, hi, cls] + extra, " "))
         == Ok(Row(PyHexInt(lo).value, PyHexInt(hi).value, cls))
  {
    var ws := AllWords(lo, hi, cls, extra);
    WordsOfJoin(ws);
    RowOfWords(Join(ws, " "), ws);
  }

  lemma AllWords(lo: string, hi: string, cls: string, extra: seq<string>) returns (ws: seq<string>)
    requires lo != [] && NoPySpace(lo) && hi != [] && NoPySpace(hi) && cls != [] && NoPySpace(cls)
    requires forall i :: 0 <= i < |extra| ==> extra[i] != [] && NoPySpace(extra[i])
    ensures ws == [lo, hi, cls] + extra && |ws| >= 3 && ws[0] == lo && ws[1] == hi && ws[2] == cls
    ensures forall i :: 0 <= i < |ws| ==> ws[i] != [] && NoPySpace(ws[i])
  {
    ws := [lo, hi, cls] + extra;
    forall i | 0 <= i < |ws| ensures ws[i] != [] && NoPySpace(ws[i]) {
      if i >= 3 {
        assert ws[i] == extra[i - 3];
      }
    }
  }

  lemma RowOfWords(x: string, ws: seq<string>)
    requires Words(x) == ws && |ws| >= 3
    requires PyHexInt(ws[0]).Some? && PyHexInt(ws[1]).Some?
    ensures LineToRangeType(x) == Ok(Row(PyHexInt(ws[0]).value, PyHexInt(ws[1]).value, ws[2]))
  {
  }

  // ---------------------------------------------------------------------
  // `str.splitlines()`
  // ---------------------------------------------------------------------

  predicate NoLineBreak(l: string) {
    forall i :: 0 <= i < |l| ==> !IsPyLineBreak(l[i])
  }

  /** The index of the first line boundary, or the length. */
  function LineEnd(s: string): (i: nat)
    ensures i <= |s| && NoLineBreak(s[..i])
    ensures i < |s| ==> IsPyLineBreak(s[i])
  {
    if s == [] || IsPyLineBreak(s[0]) then 0
    else
      var i := LineEnd(s[1..]) + 1;
      assert s[..i] == [s[0]] + s[1..][..i - 1];
      i
  }

  /** `s.splitlines()`: the lines without their boundaries; `\r\n` is one
      boundary and a final boundary does not start an empty line. */
  function SplitLines(s: string): (ls: seq<string>)
    ensures forall i :: 0 <= i < |ls| ==> NoLineBreak(ls[i])
    decreases |s|
  {
    if s == [] then []
    else
      var i := LineEnd(s);
      if i == |s| then [s]
      else
        var k := if s[i] == '\r' && i + 1 < |s| && s[i + 1] == '\n' then i + 2 else i + 1;
        [s[..i]] + SplitLines(s[k..])
  }

  /** Lines each followed by `\n`. */
  function Terminated(ls: seq<string>): string {
    if ls == [] then [] else ls[0] + "\n" + Terminated(ls[1..])
  }

  /** Cutting `\n`-terminated lines gives the lines back. */
  lemma {:induction false} SplitTerminated(ls: seq<string>)
    requires forall i :: 0 <= i < |ls| ==> NoLineBreak(ls[i])
    ensures SplitLines(Terminated(ls)) == ls
  {
    if ls != [] {
      SplitFirst(ls[0], Terminated(ls[1..]));
      SplitTerminated(ls[1..]);
      assert [ls[0]] + ls[1..] == ls;
    }
  }

  /** A line ended by `\n` is cut off in front of what follows. */
  lemma SplitFirst(l: string, rest: string)
    requires NoLineBreak(l)
    ensures SplitLines(l + "\n" + rest) == [l] + SplitLines(rest)
  {
    var s := l + "\n" + rest;
    assert s == l + ("\n" + rest);
    LineEndOf(l, "\n" + rest);
    assert s[|l|] == '\n';
    assert s[..|l|] == l;
    assert s[|l| + 1..] == rest;
  }

  /** A line followed by a boundary ends there. */
  lemma {:induction false} LineEndOf(l: string, rest: string)
    requires NoLineBreak(l) && rest != [] && IsPyLineBreak(rest[0])
    ensures LineEnd(l + rest) == |l|
  {
    if l != [] {
      assert (l + rest)[1..] == l[1..] + rest;
      LineEndOf(l[1..], rest);
    } else {
      assert l + rest == rest;
    }
  }

  /** `list(map(line_to_range_type, lines))`: the rows in line order, or the
      exception of the first line that raises one. */
  function ParseRows(ls: seq<string>): (r: Result<seq<Row>, PyError>)
    ensures r.Ok? ==> |r.value| == |ls|
  {
    if ls == [] then Ok([])
    else
      match LineToRangeType(ls[0])
      case Err(e) => Err(e)
      case Ok(row) =>
        match ParseRows(ls[1..])
        case Err(e) => Err(e)
        case Ok(rows) => Ok([row] + rows)
  }

  /** A success holds each line's row at that line's position. */
  lemma {:induction false} ParseRowsLines(ls: seq<string>)
    requires ParseRows(ls).Ok?
    ensures forall i :: 0 <= i < |ls| ==> LineToRangeType(ls[i]) == Ok(ParseRows(ls).value[i])
  {
    if ls != [] {
      var tail := ls[1..];
      ParseRowsLines(tail);
      forall i | 0 <= i < |ls| ensures LineToRangeType(ls[i]) == Ok(ParseRows(ls).value[i]) {
        if i > 0 {
          assert ls[i] == tail[i - 1];
        }
      }
    }
  }

  /** A failure is the exception of the first line that raises one. */
  lemma {:induction false} ParseRowsError(ls: seq<string>)
    ensures ParseRows(ls).Err? <==> exists i :: 0 <= i < |ls| && LineToRangeType(ls[i]).Err?
    ensures ParseRows(ls).Err? ==>
      exists i :: 0 <= i < |ls| && LineToRangeType(ls[i]) == Err(ParseRows(ls).error)
                  && forall j :: 0 <= j < i ==> LineToRangeType(ls[j]).Ok?
  {
    if ls != [] && LineToRangeType(ls[0]).Ok? {
      ParseRowsError(ls[1..]);
      if ParseRows(ls[1..]).Err? {
        ParseRowsErrorLater(ls);
      } else {
        ParseRowsOkLater(ls);
      }
    }
  }

  lemma ParseRowsErrorLater(ls: seq<string>)
    requires ls != [] && LineToRangeType(ls[0]).Ok? && ParseRows(ls[1..]).Err?
    requires exists i :: 0 <= i < |ls[1..]| && LineToRangeType(ls[1..][i]) == Err(ParseRows(ls[1..]).error)
                         && forall j :: 0 <= j < i ==> LineToRangeType(ls[1..][j]).Ok?
    ensures ParseRows(ls).Err?
    ensures exists i :: 0 <= i < |ls| && LineToRangeType(ls[i]) == Err(ParseRows(ls).error)
                        && forall j :: 0 <= j < i ==> LineToRangeType(ls[j]).Ok?
  {
    var tail := ls[1..];
    var i :| 0 <= i < |tail| && LineToRangeType(tail[i]) == Err(ParseRows(tail).error)
             && forall j :: 0 <= j < i ==> LineToRangeType(tail[j]).Ok?;
    assert ParseRows(ls).error == ParseRows(tail).error;
    assert ls[i + 1] == tail[i];
    forall j | 0 <= j < i + 1 ensures LineToRangeType(ls[j]).Ok? {
      if j > 0 {
        assert ls[j] == tail[j - 1];
      }
    }
  }

  lemma ParseRowsOkLater(ls: seq<string>)
    requires ls != [] && LineToRangeType(ls[0]).Ok? && ParseRows(ls[1..]).Ok?
    requires forall i :: 0 <= i < |ls[1..]| ==> !LineToRangeType(ls[1..][i]).Err?
    ensures ParseRows(ls).Ok?
    ensures forall i :: 0 <= i < |ls| ==> LineToRangeType(ls[i]).Ok?
  {
    var tail := ls[1..];
    forall i | 0 <= i < |ls| ensures LineToRangeType(ls[i]).Ok? {
      if i > 0 {
        assert ls[i] == tail[i - 1];
      }
    }
  }

  /** Lines that each read as a row read as the list of those rows. */
  lemma ParseRowsAll(ls: seq<string>, rows: seq<Row>)
    requires |ls| == |rows|
    requires forall i :: 0 <= i < |ls| ==> LineToRangeType(ls[i]) == Ok(rows[i])
    ensures ParseRows(ls) == Ok(rows)
  {
    ParseRowsError(ls);
    ParseRowsValue(ls, rows);
  }

  lemma ParseRowsValue(ls: seq<string>, rows: seq<Row>)
    requires |ls| == |rows|
    requires forall i :: 0 <= i < |ls| ==> LineToRangeType(ls[i]) == Ok(rows[i])
    requires ParseRows(ls).Ok?
    ensures ParseRows(ls).value == rows
  {
    ParseRowsLines(ls);
  }

  /** `get_table`, with the file's text passed in. */
  function GetTable(contents: string): Result<seq<Row>, PyError> {
    ParseRows(SplitLines(contents))
  }

  // ---------------------------------------------------------------------
  // `table_at`
  // ---------------------------------------------------------------------

  predicate RowCovers(row: Row, code: int) {
    row.lo <= code <= row.hi
  }

  /** The table `table_at` expects: every range runs forward, and the ranges
      ascend without overlapping. */
  predicate SortedTable(table: seq<Row>) {
    (forall i :: 0 <= i < |table| ==> table[i].lo <= table[i].hi)
    && (forall i, j :: 0 <= i < j < |table| ==> table[i].hi < table[j].lo)
  }

  /** The reference lookup: the value of the first row containing `code`,
      by linear scan, or `"None"`. */
  function Lookup(table: seq<Row>, code: int): string {
    if table == [] then "None"
    else if RowCovers(table[0], code) then table[0].cls
    else Lookup(table[1..], code)
  }

  /** In a sorted table, the one row containing `code` gives the lookup. */
  lemma {:induction false} LookupAt(table: seq<Row>, code: int, k: nat)
    requires SortedTable(table) && k < |table| && RowCovers(table[k], code)
    ensures Lookup(table, code) == table[k].cls
  {
    if k > 0 {
      assert table[0].hi < table[k].lo;
      assert SortedTable(table[1..]);
      LookupAt(table[1..], code, k - 1);
    }
  }

  /** No row containing `code`: the lookup gives `"None"`. */
  lemma {:induction false} LookupNone(table: seq<Row>, code: int)
    requires forall i :: 0 <= i < |table| ==> !RowCovers(table[i], code)
    ensures Lookup(table, code) == "None"
  {
    if table != [] {
      LookupNone(table[1..], code);
    }
  }

  /** `table_at(table, code)`. The search keeps `lb` on a row starting at or
      below `code` (or -1) and `ub` on a row starting above it (or the end);
      the final read `table[lb]` is Python's `table[-1]`, the last row, when
      `lb` stayed -1, and raises IndexError on an empty table. */
  method TableAt(table: seq<Row>, code: int) returns (r: Result<string, PyError>)
    ensures r.Err? <==> table == []
    ensures r.Err? ==> r.error == IndexError
    ensures SortedTable(table) && table != [] ==> r == Ok(Lookup(table, code))
    ensures table != [] && (forall i :: 0 <= i < |table| ==> table[i].lo > code) ==> r == Ok("None")
    ensures r.Ok? ==> (r.value == "None" ||
      exists i :: 0 <= i < |table| && RowCovers(table[i], code) && table[i].cls == r.value)
  {
    var lb := -1;
    var ub := |table|;
    while lb < ub - 1
      invariant -1 <= lb < ub <= |table|
      invariant lb == -1 || table[lb].lo <= code
      invariant ub == |table| || table[ub].lo > code
      invariant (forall i :: 0 <= i < |table| ==> table[i].lo > code) ==> lb == -1
      decreases ub - lb
    {
      var m := (lb + ub) / 2;
      if table[m].lo <= code {
        lb := m;
      } else {
        ub := m;
      }
    }
    if table == [] {
      return Err(IndexError);
    }
    var row := if lb == -1 then table[|table| - 1] else table[lb];
    if row.lo <= code && code <= row.hi {
      r := Ok(row.cls);
    } else {
      r := Ok("None");
    }
    if SortedTable(table) {
      if lb == -1 {
        forall i | 0 <= i < |table| ensures !RowCovers(table[i], code) {
          assert table[i].lo >= table[0].lo;
        }
        LookupNone(table, code);
      } else if RowCovers(table[lb], code) {
        LookupAt(table, code, lb);
      } else {
        forall i | 0 <= i < |table| ensures !RowCovers(table[i], code) {
          if i > lb + 1 {
            assert table[lb + 1].hi < table[i].lo;
          }
          if i < lb {
            assert table[i].hi < table[lb].lo;
          }
        }
        LookupNone(table, code);
      }
    }
  }
}
