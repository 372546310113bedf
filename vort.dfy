/**
 * The orientation-table generator (vort/src/main.rs).
 *
 * It reads the Unicode Character Database file VerticalOrientation.txt
 * (the Vertical_Orientation property of Unicode Standard Annex #50, in the
 * `code..code ; value # comment` line format of section 4.2 of Unicode
 * Standard Annex #44), lays its ranges over a fixed list of default ranges,
 * the later range winning, and prints the resulting sorted, disjoint range
 * table as `lo hi value` lines in hexadecimal.
 */
module Vort {
  import opened Wrappers
  import opened Text

  /** The last Unicode code point. */
  const MaxCode: nat := 0x10FFFF
  /** `u32::MAX`: the largest value `u32::from_str_radix` accepts. */
  const U32Max: nat := 0xFFFF_FFFF

  /** The four Vertical_Orientation values. */
  datatype Orient = U | R | Tu | Tr

  /** `impl Display for Orient`. */
  function Display(o: Orient): (s: string)
    ensures s != [] && forall i :: 0 <= i < |s| ==> s[i] in "URTur"
  {
    match o
    case U => "U"
    case R => "R"
    case Tu => "Tu"
    case Tr => "Tr"
  }

  /** The `match` on the trimmed value field; `None` is the `panic!()` arm. */
  function ParseOrient(s: string): Option<Orient> {
    if s == "U" then Some(U)
    else if s == "R" then Some(R)
    else if s == "Tu" then Some(Tu)
    else if s == "Tr" then Some(Tr)
    else None
  }

  /** Displaying and parsing are inverse: a token parses to `o` exactly when
      it is the text `o` displays as. */
  lemma OrientRoundTrip(o: Orient, s: string)
    ensures ParseOrient(s) == Some(o) <==> s == Display(o)
  {
  }

  /** An inclusive code-point range with its orientation. */
  datatype Span = Span(lo: nat, hi: nat, v: Orient)

  /** The ways the generator panics. */
  datatype Panic =
    | NoValueField    // `row[1]` is out of bounds: the line has no `;`
    | UnknownValue    // the value is not U, R, Tu or Tr
    | TooManyDots     // the code field splits into more than two parts at `..`
    | BadHex          // `u32::from_str_radix(.., 16).unwrap()` fails
    | BackwardsRange  // the range map refuses a range whose start exceeds its end

  /** `u32::from_str_radix(s, 16)`: an optional `+`, then one or more hex
      digits whose value fits in 32 bits. */
  function FromStrRadix16(s: string): (r: Option<nat>)
    ensures r.Some? ==> r.value <= U32Max
    ensures s != [] && AllHexDigits(s) && HexValue(s) <= U32Max ==> r == Some(HexValue(s))
    ensures |s| > 1 && s[0] == '+' && AllHexDigits(s[1..]) && HexValue(s[1..]) <= U32Max ==> r == Some(HexValue(s[1..]))
    ensures s == [] || (s[0] != '+' && !IsHexDigit(s[0])) ==> r == None
    ensures (exists i :: 0 < i < |s| && !IsHexDigit(s[i])) ==> r == None
    ensures AllHexDigits(s) && HexValue(s) > U32Max ==> r == None
  {
    var digits := if |s| > 1 && s[0] == '+' then s[1..] else s;
    if digits == [] || !AllHexDigits(digits) || HexValue(digits) > U32Max then None
    else Some(HexValue(digits))
  }

  /** The text of a line before its first `#`, trimmed. */
  function Content(cline: string): string {
    Trim(SplitOn(cline, "#")[0])
  }

  /** One step of the `filter_map` in `get_csv_ranges`: no entry for a line
      that is blank or a comment, one entry otherwise, or a panic. */
  function ParseLine(cline: string): (r: Result<Option<Span>, Panic>)
    ensures r == Ok(None) <==> Content(cline) == []
    ensures r.Ok? && r.value.Some? ==> r.value.value.lo <= U32Max && r.value.value.hi <= U32Max
  {
    var line := Content(cline);
    if line == [] then Ok(None)
    else ParseFields(line)
  }

  /** The non-empty branch: `;`-separated fields, the value first, then the
      code range. */
  function ParseFields(line: string): (r: Result<Option<Span>, Panic>)
    ensures r.Ok? ==> r.value.Some?
    ensures r.Ok? ==> r.value.value.lo <= U32Max && r.value.value.hi <= U32Max
  {
    var row := SplitOn(line, ";");
    if |row| < 2 then Err(NoValueField)
    else
      match ParseOrient(Trim(row[1]))
      case None => Err(UnknownValue)
      case Some(o) => ParseCodes(row[0], o)
  }

  /** The code field: one code, or two codes separated by `..`. */
  function ParseCodes(field: string, o: Orient): (r: Result<Option<Span>, Panic>)
    ensures r.Ok? ==> r.value.Some? && r.value.value.v == o
    ensures r.Ok? ==> r.value.value.lo <= U32Max && r.value.value.hi <= U32Max
  {
    var rv := SplitOn(field, "..");
    if |rv| == 1 then
      match FromStrRadix16(Trim(rv[0]))
      case None => Err(BadHex)
      case Some(b) => Ok(Some(Span(b, b, o)))
    else if |rv| == 2 then
      match FromStrRadix16(Trim(rv[0]))
      case None => Err(BadHex)
      case Some(b) =>
        match FromStrRadix16(Trim(rv[1]))
        case None => Err(BadHex)
        case Some(e) => Ok(Some(Span(b, e, o)))
    else Err(TooManyDots)
  }

  /** Rust's `str::lines`: split after each `\n`, dropping it and a `\r`
      just before it; a final line ending adds no empty line. */
  function Lines(text: string): (ls: seq<string>)
    ensures forall i :: 0 <= i < |ls| ==> '\n' !in ls[i]
    decreases |text|
  {
    if text == [] then []
    else
      match IndexOf(text, "\n")
      case None =>
        assert forall k :: 0 <= k < |text| ==> text[k] != '\n' by {
          forall k | 0 <= k < |text| ensures text[k] != '\n' {
            assert !OccursAt(text, "\n", k);
            assert text[k..k + 1] == [text[k]];
          }
        }
        [text]
      case Some(i) =>
        var line := text[..i];
        assert forall k :: 0 <= k < i ==> line[k] != '\n' by {
          forall k | 0 <= k < i ensures line[k] != '\n' {
            assert !OccursAt(text, "\n", k);
            assert text[k..k + 1] == [text[k]];
          }
        }
        var stripped := if |line| > 0 && line[|line| - 1] == '\r' then line[..|line| - 1] else line;
        [stripped] + Lines(text[i + 1..])
  }

  /** `collect()` of the `filter_map` results: the entries in order; the
      first panic ends it. */
  function Collect(steps: seq<Result<Option<Span>, Panic>>): Result<seq<Span>, Panic> {
    if steps == [] then Ok([])
    else
      match steps[0]
      case Err(e) => Err(e)
      case Ok(entry) =>
        match Collect(steps[1..])
        case Err(e) => Err(e)
        case Ok(rest) => Ok((if entry.Some? then [entry.value] else []) + rest)
  }

  /** The `filter_map` step of every line, in order. */
  function Steps(ls: seq<string>): (r: seq<Result<Option<Span>, Panic>>)
    ensures |r| == |ls|
  {
    if ls == [] then [] else [ParseLine(ls[0])] + Steps(ls[1..])
  }

  /** The parse of every line. */
  function ParseLines(ls: seq<string>): Result<seq<Span>, Panic> {
    Collect(Steps(ls))
  }

  lemma {:induction false} StepsAppend(a: seq<string>, b: seq<string>)
    ensures Steps(a + b) == Steps(a) + Steps(b)
  {
    if a == [] {
      assert a + b == b;
    } else {
      assert (a + b)[0] == a[0];
      assert (a + b)[1..] == a[1..] + b;
      StepsAppend(a[1..], b);
    }
  }

  /** `get_csv_ranges`, with the downloaded file passed in as `text`. */
  function CsvRanges(text: string): Result<seq<Span>, Panic> {
    ParseLines(Lines(text))
  }

  lemma {:induction false} CollectAppend(x: seq<Result<Option<Span>, Panic>>, y: seq<Result<Option<Span>, Panic>>)
    ensures Collect(x + y) ==
      match Collect(x)
      case Err(e) => Err(e)
      case Ok(ex) =>
        match Collect(y)
        case Err(e) => Err(e)
        case Ok(ey) => Ok(ex + ey)
  {
    if x == [] {
      assert x + y == y;
      assert Collect(x) == Ok([]);
      match Collect(y)
      case Err(e) =>
      case Ok(ey) => assert [] + ey == ey;
    } else {
      assert (x + y)[0] == x[0];
      assert (x + y)[1..] == x[1..] + y;
      CollectAppend(x[1..], y);
      match x[0]
      case Err(e) =>
      case Ok(entry) =>
        match Collect(x[1..])
        case Err(e) =>
        case Ok(rx) =>
          match Collect(y)
          case Err(e) =>
          case Ok(ey) =>
            var h := if entry.Some? then [entry.value] else [];
            assert h + (rx + ey) == (h + rx) + ey;
    }
  }

  /** Parsing a block of lines after another keeps both blocks' entries in
      order, and the first panic wins. */
  lemma ParseLinesAppend(a: seq<string>, b: seq<string>)
    ensures ParseLines(a + b) ==
      match ParseLines(a)
      case Err(e) => Err(e)
      case Ok(ea) =>
        match ParseLines(b)
        case Err(e) => Err(e)
        case Ok(eb) => Ok(ea + eb)
  {
    StepsAppend(a, b);
    CollectAppend(Steps(a), Steps(b));
  }

  /** A line is skipped exactly when it is blank or a comment once white
      space is trimmed. */
  lemma BlankAndCommentLinesSkipped(ws: string, comment: string)
    requires AllRustSpace(ws)
    ensures ParseLine(ws) == Ok(None)
    ensures ParseLine(ws + "#" + comment) == Ok(None)
  {
    FreeOfChar(ws, "#");
    SplitFree(ws, "#");
    TrimStartPadded(ws, []);
    assert ws + [] == ws;
    SplitAfter(ws, "#", comment);
  }

  lemma FreeOfChar(s: string, sep: string)
    requires |sep| > 0
    requires forall i :: 0 <= i < |s| ==> s[i] != sep[0]
    ensures Free(s, sep)
  {
    forall k: nat ensures !OccursAt(s, sep, k) {
      if k + |sep| <= |s| {
        assert s[k..k + |sep|][0] == s[k];
      }
    }
  }

  /** Text with exactly one separator, whose first character occurs
      nowhere else, has two parts: a line with one `;` has two fields, a
      code field with one `..` two codes. */
  lemma TwoParts(head: string, sep: string, tail: string)
    requires |sep| > 0 && sep[0] !in head && sep[0] !in tail
    ensures SplitOn(head + sep + tail, sep) == [head, tail]
  {
    SplitAfter(head, sep, tail);
    FreeOfChar(tail, sep);
    SplitFree(tail, sep);
  }

  /** The value, padded on the left, trims to itself. */
  lemma TrimValue(sp: string, o: Orient)
    requires AllRustSpace(sp)
    ensures Trim(sp + Display(o)) == Display(o)
  {
    TrimPadded(sp, Display(o), []);
    assert sp + Display(o) + [] == sp + Display(o);
  }

  /** What comes before the comment of a data line, given that it starts
      with a hex digit and ends with the value. */
  lemma DataLineContent(pre: string, sp: string, tail: string)
    requires pre != [] && IsHexDigit(pre[0]) && pre[|pre| - 1] in "URur"
    requires forall i :: 0 <= i < |pre| ==> pre[i] != '#'
    requires AllRustSpace(sp)
    requires tail == [] || tail[0] == '#'
    ensures Content(pre + sp + tail) == pre
  {
    var s := pre + sp + tail;
    FreeOfChar(pre + sp, "#");
    if tail == [] {
      assert s == pre + sp;
      SplitFree(pre + sp, "#");
    } else {
      assert s == (pre + sp) + "#" + tail[1..];
      SplitAfter(pre + sp, "#", tail[1..]);
    }
    TrimPadded([], pre, sp);
    assert [] + pre + sp == pre + sp;
  }

  /** Neither hex digits nor white space hold a separator character. */
  lemma NoSeparators(s: string)
    requires AllHexDigits(s) || AllRustSpace(s)
    ensures ';' !in s && '.' !in s && '#' !in s
  {
  }

  /** Once the value field is known, the code field decides the entry. */
  lemma FieldsParse(codes: string, v: string, o: Orient)
    requires ';' !in codes && ';' !in v && Trim(v) == Display(o)
    ensures ParseFields(codes + ";" + v) == ParseCodes(codes, o)
  {
    TwoParts(codes, ";", v);
    OrientRoundTrip(o, Display(o));
  }

  /** A run of hex digits followed by white space trims to the digits. */
  lemma TrimCode(d: string, sp: string)
    requires d != [] && AllHexDigits(d) && AllRustSpace(sp)
    ensures Trim(d + sp) == d
  {
    TrimPadded([], d, sp);
    assert [] + d + sp == d + sp;
  }

  /** Hex digits alone trim to themselves. */
  lemma TrimDigits(d: string)
    requires d != [] && AllHexDigits(d)
    ensures Trim(d) == d
  {
    TrimCode(d, []);
    assert d + [] == d;
  }

  /** The field of a range line splits at its `..` into the two codes. */
  lemma RangeField(d1: string, d2: string, sp: string)
    requires AllHexDigits(d1) && AllHexDigits(d2) && AllRustSpace(sp)
    ensures SplitOn(d1 + ".." + d2 + sp, "..") == [d1, d2 + sp]
  {
    NoSeparators(d1);
    NoSeparators(d2);
    NoSeparators(sp);
    assert d1 + ".." + d2 + sp == d1 + ".." + (d2 + sp);
    TwoParts(d1, "..", d2 + sp);
  }

  lemma RangeCodes(d1: string, d2: string, sp: string, o: Orient)
    requires d1 != [] && AllHexDigits(d1) && HexValue(d1) <= U32Max
    requires d2 != [] && AllHexDigits(d2) && HexValue(d2) <= U32Max
    requires AllRustSpace(sp)
    ensures ParseCodes(d1 + ".." + d2 + sp, o) == Ok(Some(Span(HexValue(d1), HexValue(d2), o)))
  {
    RangeField(d1, d2, sp);
    TrimDigits(d1);
    TrimCode(d2, sp);
    TwoPartCodes(d1 + ".." + d2 + sp, d1, d2 + sp, HexValue(d1), HexValue(d2), o);
  }

  /** The `..` branch of the code field, once its two parts are known. */
  lemma TwoPartCodes(field: string, p0: string, p1: string, b: nat, e: nat, o: Orient)
    requires SplitOn(field, "..") == [p0, p1]
    requires FromStrRadix16(Trim(p0)) == Some(b) && FromStrRadix16(Trim(p1)) == Some(e)
    ensures ParseCodes(field, o) == Ok(Some(Span(b, e, o)))
  {
  }

  lemma SingleCode(d: string, sp: string, o: Orient)
    requires d != [] && AllHexDigits(d) && HexValue(d) <= U32Max
    requires AllRustSpace(sp)
    ensures ParseCodes(d + sp, o) == Ok(Some(Span(HexValue(d), HexValue(d), o)))
  {
    NoSeparators(d);
    NoSeparators(sp);
    FreeOfChar(d + sp, "..");
    SplitFree(d + sp, "..");
    TrimPadded([], d, sp);
    assert [] + d + sp == d + sp;
  }

  /** A data line is its code field, `;`, its value and white space, then
      an optional comment. */
  lemma DataLineParses(codes: string, sp2: string, o: Orient, sp3: string, tail: string)
    requires codes != [] && IsHexDigit(codes[0]) && ';' !in codes && '#' !in codes
    requires AllRustSpace(sp2) && AllRustSpace(sp3)
    requires tail == [] || tail[0] == '#'
    ensures ParseLine(codes + ";" + sp2 + Display(o) + sp3 + tail) == ParseCodes(codes, o)
  {
    var v := sp2 + Display(o);
    var pre := codes + ";" + v;
    assert codes + ";" + sp2 + Display(o) + sp3 + tail == pre + sp3 + tail;
    NoSeparators(sp2);
    assert ';' !in v && '#' !in v;
    assert pre[|pre| - 1] == Display(o)[|Display(o)| - 1];
    DataLineContent(pre, sp3, tail);
    TrimValue(sp2, o);
    FieldsParse(codes, v, o);
  }

  /** A range line `A..B ; V # comment` (any white-space padding around the
      `;` and before the comment) parses to the range from hex A to hex B
      with value V. */
  lemma RangeLineParses(d1: string, d2: string, sp1: string, sp2: string, o: Orient, sp3: string, tail: string)
    requires d1 != [] && AllHexDigits(d1) && HexValue(d1) <= U32Max
    requires d2 != [] && AllHexDigits(d2) && HexValue(d2) <= U32Max
    requires AllRustSpace(sp1) && AllRustSpace(sp2) && AllRustSpace(sp3)
    requires tail == [] || tail[0] == '#'
    ensures ParseLine(d1 + ".." + d2 + sp1 + ";" + sp2 + Display(o) + sp3 + tail)
         == Ok(Some(Span(HexValue(d1), HexValue(d2), o)))
  {
    var codes := d1 + ".." + d2 + sp1;
    NoSeparators(d1);
    NoSeparators(d2);
    NoSeparators(sp1);
    assert ';' !in codes && '#' !in codes;
    assert d1 + ".." + d2 + sp1 + ";" + sp2 + Display(o) + sp3 + tail
        == codes + ";" + sp2 + Display(o) + sp3 + tail;
    DataLineParses(codes, sp2, o, sp3, tail);
    RangeCodes(d1, d2, sp1, o);
  }

  /** A single-code line `A ; V # comment` parses to the one-point range
      [hex A, hex A] with value V. */
  lemma SingleLineParses(d: string, sp1: string, sp2: string, o: Orient, sp3: string, tail: string)
    requires d != [] && AllHexDigits(d) && HexValue(d) <= U32Max
    requires AllRustSpace(sp1) && AllRustSpace(sp2) && AllRustSpace(sp3)
    requires tail == [] || tail[0] == '#'
    ensures ParseLine(d + sp1 + ";" + sp2 + Display(o) + sp3 + tail)
         == Ok(Some(Span(HexValue(d), HexValue(d), o)))
  {
    var codes := d + sp1;
    NoSeparators(d);
    NoSeparators(sp1);
    assert ';' !in codes && '#' !in codes;
    assert d + sp1 + ";" + sp2 + Display(o) + sp3 + tail
        == codes + ";" + sp2 + Display(o) + sp3 + tail;
    DataLineParses(codes, sp2, o, sp3, tail);
    SingleCode(d, sp1, o);
  }

  /** A non-blank line with no `;` has no value field: `row[1]` panics. */
  lemma MissingValuePanics(cline: string)
    requires Content(cline) != [] && ';' !in Content(cline)
    ensures ParseLine(cline) == Err(NoValueField)
  {
    FreeOfChar(Content(cline), ";");
    SplitFree(Content(cline), ";");
  }

  /** A value field that is not one of the four tokens panics, whatever the
      code field holds; fields after the second `;` are never read. */
  lemma UnknownValuePanics(f0: string, f1: string, rest: string)
    requires ';' !in f0 && ';' !in f1
    requires rest == [] || rest[0] == ';'
    requires ParseOrient(Trim(f1)) == None
    ensures ParseFields(f0 + ";" + f1 + rest) == Err(UnknownValue)
  {
    SecondField(f0, f1, rest);
  }

  /** The field after the first `;` runs to the next `;` or the end. */
  lemma SecondField(f0: string, f1: string, rest: string)
    requires ';' !in f0 && ';' !in f1
    requires rest == [] || rest[0] == ';'
    ensures |SplitOn(f0 + ";" + f1 + rest, ";")| >= 2
    ensures SplitOn(f0 + ";" + f1 + rest, ";")[1] == f1
  {
    assert f0 + ";" + f1 + rest == f0 + ";" + (f1 + rest);
    SplitAfter(f0, ";", f1 + rest);
    FirstField(f1, rest);
  }

  /** The first field of a line runs to its first `;`. */
  lemma FirstField(f: string, rest: string)
    requires ';' !in f
    requires rest == [] || rest[0] == ';'
    ensures SplitOn(f + rest, ";")[0] == f
  {
    FreeOfChar(f, ";");
    if rest == [] {
      assert f + rest == f;
      SplitFree(f, ";");
    } else {
      var tail := rest[1..];
      assert rest == ";" + tail;
      assert f + ";" + tail == f + (";" + tail);
      SplitAfter(f, ";", tail);
    }
  }

  /** A code field with two separate `..` panics. */
  lemma TooManyDotsPanics(a: string, b: string, c: string, f1: string)
    requires '.' !in a && '.' !in b && ';' !in a + ".." + b + ".." + c && ';' !in f1
    requires ParseOrient(Trim(f1)).Some?
    ensures ParseFields(a + ".." + b + ".." + c + ";" + f1) == Err(TooManyDots)
  {
    var f0 := a + ".." + b + ".." + c;
    TwoParts(f0, ";", f1);
    ThreeCodes(a, b, c);
  }

  lemma ThreeCodes(a: string, b: string, c: string)
    requires '.' !in a && '.' !in b
    ensures |SplitOn(a + ".." + b + ".." + c, "..")| > 2
  {
    assert a + ".." + b + ".." + c == a + ".." + (b + ".." + c);
    SplitAfter(a, "..", b + ".." + c);
    SplitAfter(b, "..", c);
  }

  /** A code that is not hexadecimal panics at `unwrap`. */
  lemma BadHexPanics(f0: string, f1: string)
    requires '.' !in f0 && ';' !in f0 && ';' !in f1
    requires ParseOrient(Trim(f1)).Some?
    requires FromStrRadix16(Trim(f0)).None?
    ensures ParseFields(f0 + ";" + f1) == Err(BadHex)
  {
    TwoParts(f0, ";", f1);
    FreeOfChar(f0, "..");
    SplitFree(f0, "..");
  }

  // ---------------------------------------------------------------------
  // Default ranges and the list of all ranges
  // ---------------------------------------------------------------------

  /** `get_default_ranges`: everything R, then the blocks of unassigned code
      points whose default is U. */
  function DefaultRanges(): (r: seq<Span>)
    ensures |r| == 37
    ensures r[0] == Span(0, MaxCode, R)
    ensures forall i :: 0 <= i < |r| ==> r[i].lo <= r[i].hi <= MaxCode
    ensures forall i :: 1 <= i < |r| ==> r[i].v == U
  {
    [ Span(0x0, 0x10ffff, R),
      Span(0x18b0, 0x18ff, U),
      Span(0x2065, 0x2065, U),
      Span(0x2150, 0x218f, U),
      Span(0x2400, 0x245f, U),
      Span(0x2bb8, 0x2bff, U),
      Span(0x2e80, 0xa4cf, U),
      Span(0xa960, 0xa97f, U),
      Span(0xac00, 0xd7ff, U),
      Span(0xe000, 0xfaff, U),
      Span(0xfe10, 0xfe1f, U),
      Span(0xfe50, 0xfe6f, U),
      Span(0xffe7, 0xffe7, U),
      Span(0xfff0, 0xfff8, U),
      Span(0x11580, 0x115ff, U),
      Span(0x11a00, 0x11aaf, U),
      Span(0x13000, 0x1345f, U),
      Span(0x14400, 0x1467f, U),
      Span(0x16fe0, 0x18aff, U),
      Span(0x18b00, 0x18d7f, U),
      Span(0x1aff0, 0x1afff, U),
      Span(0x1b100, 0x1b16f, U),
      Span(0x1b170, 0x1b2ff, U),
      Span(0x1cf00, 0x1cfcf, U),
      Span(0x1d000, 0x1d1ff, U),
      Span(0x1d2e0, 0x1d2ff, U),
      Span(0x1d300, 0x1d37f, U),
      Span(0x1d800, 0x1daaf, U),
      Span(0x1f000, 0x1f0ff, U),
      Span(0x1f100, 0x1f2ff, U),
      Span(0x1f680, 0x1f7ff, U),
      Span(0x1f900, 0x1f9ff, U),
      Span(0x1fa00, 0x1faff, U),
      Span(0x20000, 0x2fffd, U),
      Span(0x30000, 0x3fffd, U),
      Span(0xf0000, 0xffffd, U),
      Span(0x100000, 0x10fffd, U) ]
  }

  /** `get_ranges`: the defaults, then the file's ranges. */
  function GetRanges(csv: string): (r: Result<seq<Span>, Panic>)
    ensures r.Ok? ==> |r.value| >= |DefaultRanges()| && r.value[..|DefaultRanges()|] == DefaultRanges()
    ensures r.Err? <==> CsvRanges(csv).Err?
    ensures r.Ok? ==> CsvRanges(csv).Ok? && r.value[|DefaultRanges()|..] == CsvRanges(csv).value
  {
    match CsvRanges(csv)
    case Err(e) => Err(e)
    case Ok(entries) => Ok(DefaultRanges() + entries)
  }

  // ---------------------------------------------------------------------
  // The range map: "last insert wins" over a sorted, disjoint range list
  // ---------------------------------------------------------------------

  predicate Covers(s: Span, c: int) {
    s.lo <= c <= s.hi
  }

  /** The value a sorted, disjoint range list gives code point `c`. */
  function ValueAt(t: seq<Span>, c: int): Option<Orient> {
    if t == [] then None
    else if Covers(t[0], c) then Some(t[0].v)
    else ValueAt(t[1..], c)
  }

  /** The value of the last range in `rs` that contains `c`: what inserting
      `rs` in order into a range map gives `c`. */
  function LastValue(rs: seq<Span>, c: int): Option<Orient> {
    if rs == [] then None
    else if Covers(rs[|rs| - 1], c) then Some(rs[|rs| - 1].v)
    else LastValue(rs[..|rs| - 1], c)
  }

  /** Every range runs forward. */
  predicate Proper(t: seq<Span>) {
    forall i :: 0 <= i < |t| ==> t[i].lo <= t[i].hi
  }

  /** Ascending and non-overlapping. */
  predicate Sorted(t: seq<Span>) {
    forall i, j :: 0 <= i < j < |t| ==> t[i].hi < t[j].lo
  }

  predicate HisAtMost(t: seq<Span>, b: int) {
    forall i :: 0 <= i < |t| ==> t[i].hi <= b
  }

  predicate LosAbove(t: seq<Span>, b: int) {
    forall i :: 0 <= i < |t| ==> t[i].lo > b
  }

  /** The parts of the ranges of `t` that lie below `lo`. */
  function Below(t: seq<Span>, lo: nat): seq<Span> {
    if t == [] then []
    else
      (if t[0].lo < lo then [Span(t[0].lo, if t[0].hi < lo then t[0].hi else lo - 1, t[0].v)] else [])
      + Below(t[1..], lo)
  }

  /** The parts of the ranges of `t` that lie above `hi`. */
  function Above(t: seq<Span>, hi: nat): seq<Span> {
    if t == [] then []
    else
      (if t[0].hi > hi then [Span(if t[0].lo > hi then t[0].lo else hi + 1, t[0].hi, t[0].v)] else [])
      + Above(t[1..], hi)
  }

  /** `RangeInclusiveMap::insert(s.lo..=s.hi, s.v)`, coalescing aside: the
      new range replaces whatever the map held on it. */
  function Insert(t: seq<Span>, s: Span): (r: seq<Span>)
    requires s.lo <= s.hi
  {
    Below(t, s.lo) + [s] + Above(t, s.hi)
  }

  lemma {:induction false} ValueAtAppend(a: seq<Span>, b: seq<Span>, c: int)
    ensures ValueAt(a + b, c) == if ValueAt(a, c).Some? then ValueAt(a, c) else ValueAt(b, c)
  {
    if a != [] {
      assert (a + b)[0] == a[0];
      assert (a + b)[1..] == a[1..] + b;
      ValueAtAppend(a[1..], b, c);
    } else {
      assert a + b == b;
    }
  }

  lemma {:induction false} ValueAtBelow(t: seq<Span>, lo: nat, c: int)
    ensures ValueAt(Below(t, lo), c) == if c < lo then ValueAt(t, c) else None
  {
    if t != [] {
      var h := if t[0].lo < lo then [Span(t[0].lo, if t[0].hi < lo then t[0].hi else lo - 1, t[0].v)] else [];
      ValueAtAppend(h, Below(t[1..], lo), c);
      ValueAtBelow(t[1..], lo, c);
    }
  }

  lemma {:induction false} ValueAtAbove(t: seq<Span>, hi: nat, c: int)
    ensures ValueAt(Above(t, hi), c) == if c > hi then ValueAt(t, c) else None
  {
    if t != [] {
      var h := if t[0].hi > hi then [Span(if t[0].lo > hi then t[0].lo else hi + 1, t[0].hi, t[0].v)] else [];
      ValueAtAppend(h, Above(t[1..], hi), c);
      ValueAtAbove(t[1..], hi, c);
    }
  }

  lemma SortedJoin(a: seq<Span>, b: seq<Span>, m: int)
    requires Sorted(a) && Sorted(b) && HisAtMost(a, m) && LosAbove(b, m)
    ensures Sorted(a + b)
  {
  }

  lemma {:induction false} BelowShape(t: seq<Span>, lo: nat, b: int)
    requires Proper(t) && Sorted(t)
    ensures Proper(Below(t, lo)) && Sorted(Below(t, lo)) && HisAtMost(Below(t, lo), lo - 1)
    ensures LosAbove(t, b) ==> LosAbove(Below(t, lo), b)
  {
    if t != [] {
      var h := if t[0].lo < lo then [Span(t[0].lo, if t[0].hi < lo then t[0].hi else lo - 1, t[0].v)] else [];
      assert LosAbove(t[1..], t[0].hi);
      BelowShape(t[1..], lo, t[0].hi);
      BelowShape(t[1..], lo, b);
      SortedJoin(h, Below(t[1..], lo), t[0].hi);
    }
  }

  lemma {:induction false} AboveShape(t: seq<Span>, hi: nat, b: int)
    requires Proper(t) && Sorted(t)
    ensures Proper(Above(t, hi)) && Sorted(Above(t, hi)) && LosAbove(Above(t, hi), hi)
    ensures LosAbove(t, b) ==> LosAbove(Above(t, hi), b)
  {
    if t != [] {
      var h := if t[0].hi > hi then [Span(if t[0].lo > hi then t[0].lo else hi + 1, t[0].hi, t[0].v)] else [];
      assert LosAbove(t[1..], t[0].hi);
      AboveShape(t[1..], hi, t[0].hi);
      AboveShape(t[1..], hi, b);
      SortedJoin(h, Above(t[1..], hi), t[0].hi);
    }
  }

  /** Inserting a range keeps the list sorted and disjoint, gives the new
      range's code points its value, and leaves every other code point's
      value alone. */
  lemma InsertSpec(t: seq<Span>, s: Span)
    requires s.lo <= s.hi && Proper(t) && Sorted(t)
    ensures Proper(Insert(t, s)) && Sorted(Insert(t, s))
    ensures forall c :: ValueAt(Insert(t, s), c) == if Covers(s, c) then Some(s.v) else ValueAt(t, c)
  {
    var below, above := Below(t, s.lo), Above(t, s.hi);
    BelowShape(t, s.lo, 0);
    AboveShape(t, s.hi, 0);
    SortedJoin(below, [s], s.lo - 1);
    SortedJoin(below + [s], above, s.hi);
    forall c ensures ValueAt(Insert(t, s), c) == if Covers(s, c) then Some(s.v) else ValueAt(t, c) {
      ValueAtAppend(below + [s], above, c);
      ValueAtAppend(below, [s], c);
      ValueAtBelow(t, s.lo, c);
      ValueAtAbove(t, s.hi, c);
    }
  }

  /** The last range containing `c`, and no other, decides its value. */
  lemma {:induction false} LastValueIsLast(rs: seq<Span>, c: int, k: nat)
    requires k < |rs| && Covers(rs[k], c)
    requires forall j :: k < j < |rs| ==> !Covers(rs[j], c)
    ensures LastValue(rs, c) == Some(rs[k].v)
  {
    if k < |rs| - 1 {
      LastValueIsLast(rs[..|rs| - 1], c, k);
    }
  }

  /** No range contains `c` exactly when it has no value. */
  lemma {:induction false} LastValueNone(rs: seq<Span>, c: int)
    ensures LastValue(rs, c).None? <==> forall j :: 0 <= j < |rs| ==> !Covers(rs[j], c)
  {
    if rs != [] {
      LastValueNone(rs[..|rs| - 1], c);
    }
  }

  /** Ranges inserted after others override them where they contain `c`. */
  lemma {:induction false} LastValueAppend(d: seq<Span>, e: seq<Span>, c: int)
    ensures LastValue(d + e, c) == if LastValue(e, c).Some? then LastValue(e, c) else LastValue(d, c)
  {
    if e == [] {
      assert d + e == d;
    } else {
      assert (d + e)[..|d + e| - 1] == d + e[..|e| - 1];
      LastValueAppend(d, e[..|e| - 1], c);
    }
  }

  /** Over the defaults followed by the file's ranges, every code point gets
      a value: the file's last range containing it if there is one, and the
      defaults' otherwise. */
  lemma RangesCoverAllCodes(entries: seq<Span>, c: int)
    requires 0 <= c <= MaxCode
    ensures LastValue(DefaultRanges() + entries, c).Some?
    ensures LastValue(entries, c).Some? ==> LastValue(DefaultRanges() + entries, c) == LastValue(entries, c)
    ensures LastValue(entries, c).None? ==> LastValue(DefaultRanges() + entries, c) == LastValue(DefaultRanges(), c)
  {
    LastValueAppend(DefaultRanges(), entries, c);
    LastValueNone(DefaultRanges(), c);
  }

  /** The `for` loop of `main`: insert the ranges in order into an empty
      range map. A backwards range makes the map panic. */
  method BuildTable(ranges: seq<Span>) returns (r: Result<seq<Span>, Panic>)
    ensures r.Err? <==> exists i :: 0 <= i < |ranges| && ranges[i].lo > ranges[i].hi
    ensures r.Err? ==> r.error == BackwardsRange
    ensures r.Ok? ==> Proper(r.value) && Sorted(r.value)
    ensures r.Ok? ==> forall c :: ValueAt(r.value, c) == LastValue(ranges, c)
  {
    var rangeMap: seq<Span> := [];
    for i := 0 to |ranges|
      invariant forall j :: 0 <= j < i ==> ranges[j].lo <= ranges[j].hi
      invariant Proper(rangeMap) && Sorted(rangeMap)
      invariant forall c :: ValueAt(rangeMap, c) == LastValue(ranges[..i], c)
    {
      var s := ranges[i];
      if s.lo > s.hi {
        return Err(BackwardsRange);
      }
      InsertSpec(rangeMap, s);
      assert ranges[..i + 1][..i] == ranges[..i];
      rangeMap := Insert(rangeMap, s);
    }
    assert ranges[..|ranges|] == ranges;
    return Ok(rangeMap);
  }

  /** One printed line: `println!` of start and end in the `x` format and the value
      without its line feed. */
  function FormatLine(s: Span): string {
    Hex(s.lo) + " " + Hex(s.hi) + " " + Display(s.v)
  }

  /** The printed table: one line per range, in the map's ascending order. */
  function Render(t: seq<Span>): string {
    if t == [] then [] else FormatLine(t[0]) + "\n" + Render(t[1..])
  }

  /** `main`, with the file's text passed in: parse, overlay on the
      defaults, print. The printed table is sorted and disjoint, gives each
      code point the value of the last range containing it, and covers
      every code point. */
  method Generate(csv: string) returns (r: Result<string, Panic>, ghost t: seq<Span>)
    ensures GetRanges(csv).Err? ==> r == Err(GetRanges(csv).error)
    ensures GetRanges(csv).Ok? ==>
      (r.Err? <==> exists i :: 0 <= i < |GetRanges(csv).value| && GetRanges(csv).value[i].lo > GetRanges(csv).value[i].hi)
    ensures GetRanges(csv).Ok? && r.Err? ==> r.error == BackwardsRange
    ensures r.Ok? ==> GetRanges(csv).Ok? && r.value == Render(t) && Proper(t) && Sorted(t)
    ensures r.Ok? ==> forall c :: ValueAt(t, c) == LastValue(GetRanges(csv).value, c)
    ensures r.Ok? ==> forall c :: 0 <= c <= MaxCode ==> ValueAt(t, c).Some?
  {
    t := [];
    var ranges := GetRanges(csv);
    if ranges.Err? {
      return Err(ranges.error), t;
    }
    var table := BuildTable(ranges.value);
    if table.Err? {
      return Err(table.error), t;
    }
    t := table.value;
    r := Ok(Render(table.value));
    var entries := CsvRanges(csv).value;
    assert ranges.value == DefaultRanges() + entries;
    forall c | 0 <= c <= MaxCode ensures ValueAt(t, c).Some? {
      RangesCoverAllCodes(entries, c);
    }
  }
}
