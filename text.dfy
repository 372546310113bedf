/**
 * Character classes, trimming, splitting and hexadecimal digits, as the
 * Rust standard library and the Python built-ins used by the two programs
 * define them.
 */
module Text {
  import opened Wrappers

  // ---------------------------------------------------------------------
  // Character classes
  // ---------------------------------------------------------------------

  /** Rust's `char::is_whitespace`: the Unicode White_Space property. */
  predicate IsRustSpace(c: char) {
    var n := c as int;
    (0x09 <= n <= 0x0D) || n == 0x20 || n == 0x85 || n == 0xA0 || n == 0x1680
    || (0x2000 <= n <= 0x200A) || n == 0x2028 || n == 0x2029 || n == 0x202F
    || n == 0x205F || n == 0x3000
  }

  /** Python's `str.isspace`, which `str.split()` splits on: White_Space plus
      the four information separators U+001C..U+001F. */
  predicate IsPySpace(c: char) {
    var n := c as int;
    (0x09 <= n <= 0x0D) || (0x1C <= n <= 0x20) || n == 0x85 || n == 0xA0 || n == 0x1680
    || (0x2000 <= n <= 0x200A) || n == 0x2028 || n == 0x2029 || n == 0x202F
    || n == 0x205F || n == 0x3000
  }

  /** The line boundaries of Python's `str.splitlines`. */
  predicate IsPyLineBreak(c: char) {
    var n := c as int;
    (0x0A <= n <= 0x0D) || (0x1C <= n <= 0x1E) || n == 0x85 || n == 0x2028 || n == 0x2029
  }

  lemma LineBreakIsPySpace(c: char)
    ensures IsPyLineBreak(c) ==> IsPySpace(c)
  {
  }

  // ---------------------------------------------------------------------
  // Rust `str::trim`
  // ---------------------------------------------------------------------

  predicate AllRustSpace(s: string) {
    forall i :: 0 <= i < |s| ==> IsRustSpace(s[i])
  }

  /** `str::trim_start`: the suffix left after dropping leading white space. */
  function TrimStart(s: string): (r: string)
    ensures |r| <= |s| && r == s[|s| - |r|..]
    ensures AllRustSpace(s[..|s| - |r|])
    ensures r == [] || !IsRustSpace(r[0])
  {
    if s != [] && IsRustSpace(s[0]) then
      var r := TrimStart(s[1..]);
      SpaceBefore(s, r);
      r
    else s
  }

  /** `str::trim_end`: the prefix left after dropping trailing white space. */
  function TrimEnd(s: string): (r: string)
    ensures |r| <= |s| && r == s[..|r|]
    ensures AllRustSpace(s[|r|..])
    ensures r == [] || !IsRustSpace(r[|r| - 1])
  {
    if s != [] && IsRustSpace(s[|s| - 1]) then
      var r := TrimEnd(s[..|s| - 1]);
      SpaceAfter(s, r);
      r
    else s
  }

  /** Proof step: one more white-space character in front of trimmed
      text stays in the dropped prefix. */
  lemma SpaceBefore(s: string, r: string)
    requires s != [] && IsRustSpace(s[0]) && |r| <= |s| - 1
    requires r == s[1..][|s| - 1 - |r|..] && AllRustSpace(s[1..][..|s| - 1 - |r|])
    ensures r == s[|s| - |r|..] && AllRustSpace(s[..|s| - |r|])
  {
    assert s[..|s| - |r|] == [s[0]] + s[1..][..|s| - 1 - |r|];
    assert s[|s| - |r|..] == s[1..][|s| - 1 - |r|..];
  }

  /** Proof step: one more white-space character after trimmed text stays
      in the dropped suffix. */
  lemma SpaceAfter(s: string, r: string)
    requires s != [] && IsRustSpace(s[|s| - 1]) && |r| <= |s| - 1
    requires r == s[..|s| - 1][..|r|] && AllRustSpace(s[..|s| - 1][|r|..])
    ensures r == s[..|r|] && AllRustSpace(s[|r|..])
  {
    assert s[|r|..] == s[..|s| - 1][|r|..] + [s[|s| - 1]];
    assert s[..|r|] == s[..|s| - 1][..|r|];
  }

  /** `str::trim`. */
  function Trim(s: string): string {
    TrimEnd(TrimStart(s))
  }

  lemma {:induction false} TrimStartPadded(ws: string, x: string)
    requires AllRustSpace(ws)
    requires x == [] || !IsRustSpace(x[0])
    ensures TrimStart(ws + x) == x
  {
    if ws != [] {
      assert (ws + x)[1..] == ws[1..] + x;
      TrimStartPadded(ws[1..], x);
    }
  }

  lemma {:induction false} TrimEndPadded(x: string, ws: string)
    requires AllRustSpace(ws)
    requires x == [] || !IsRustSpace(x[|x| - 1])
    ensures TrimEnd(x + ws) == x
  {
    if ws != [] {
      assert (x + ws)[..|x + ws| - 1] == x + ws[..|ws| - 1];
      TrimEndPadded(x, ws[..|ws| - 1]);
    } else {
      assert x + ws == x;
    }
  }

  /** Trimming removes exactly the white-space padding around a word that
      neither starts nor ends with white space. */
  lemma TrimPadded(ws1: string, w: string, ws2: string)
    requires AllRustSpace(ws1) && AllRustSpace(ws2)
    requires w != [] && !IsRustSpace(w[0]) && !IsRustSpace(w[|w| - 1])
    ensures Trim(ws1 + w + ws2) == w
  {
    assert ws1 + w + ws2 == ws1 + (w + ws2);
    TrimStartPadded(ws1, w + ws2);
    TrimEndPadded(w, ws2);
  }

  // ---------------------------------------------------------------------
  // Rust `str::split` on a string pattern
  // ---------------------------------------------------------------------

  /** `sep` occurs in `s` at offset `k`. */
  predicate OccursAt(s: string, sep: string, k: nat) {
    k + |sep| <= |s| && s[k..k + |sep|] == sep
  }

  ghost predicate Free(s: string, sep: string) {
    forall k: nat :: !OccursAt(s, sep, k)
  }

  /** The leftmost occurrence of `sep` in `s`. */
  function IndexOf(s: string, sep: string): (r: Option<nat>)
    requires |sep| > 0
    ensures r.Some? ==> OccursAt(s, sep, r.value)
    ensures r.Some? ==> forall k: nat :: k < r.value ==> !OccursAt(s, sep, k)
    ensures r.None? ==> Free(s, sep)
    decreases |s|
  {
    if |s| < |sep| then None
    else if s[..|sep|] == sep then Some(0)
    else
      match IndexOf(s[1..], sep)
      case None =>
        forall k: nat | k > 0 ensures !OccursAt(s, sep, k) {
          OccursShifted(s, sep, k);
        }
        None
      case Some(j) =>
        OccursShifted(s, sep, j + 1);
        forall k: nat | 0 < k < j + 1 ensures !OccursAt(s, sep, k) {
          OccursShifted(s, sep, k);
        }
        Some(j + 1)
  }

  /** Proof step: past the first character, occurrences in `s` are those
      in `s[1..]`, one place later. */
  lemma OccursShifted(s: string, sep: string, k: nat)
    requires |s| > 0 && k > 0
    ensures OccursAt(s, sep, k) <==> OccursAt(s[1..], sep, k - 1)
  {
    if k + |sep| <= |s| {
      assert s[1..][k - 1..k - 1 + |sep|] == s[k..k + |sep|];
    }
  }

  /** The inverse of `SplitOn`: the parts with `sep` between them. */
  function Join(parts: seq<string>, sep: string): string
    requires |parts| > 0
  {
    if |parts| == 1 then parts[0] else parts[0] + sep + Join(parts[1..], sep)
  }

  /** Part `p` ended by `sep` holds its first `sep` at the end: the cut
      was made at the leftmost occurrence. */
  ghost predicate LeftmostCut(p: string, sep: string) {
    forall k: nat :: k < |p| ==> !OccursAt(p + sep, sep, k)
  }

  /** `s.split(sep)`: cut at the leftmost occurrence of `sep`, again and again.
      Joining the parts back gives `s`, no part contains `sep`, and every
      cut is at the leftmost occurrence after the previous one (which
      decides the parts when occurrences of `sep` overlap, as `..` does). */
  function SplitOn(s: string, sep: string): (parts: seq<string>)
    requires |sep| > 0
    ensures |parts| >= 1
    ensures Join(parts, sep) == s
    ensures forall i :: 0 <= i < |parts| ==> Free(parts[i], sep)
    ensures forall i :: 0 <= i < |parts| - 1 ==> LeftmostCut(parts[i], sep)
    decreases |s|
  {
    match IndexOf(s, sep)
    case None => [s]
    case Some(i) =>
      var head := s[..i];
      var rest := SplitOn(s[i + |sep|..], sep);
      CutAtFirst(s, sep, i);
      ConsParts(s, head, rest, s[i + |sep|..], sep);
      [head] + rest
  }

  /** Proof step: a cut-off head in front of the parts of the rest. */
  lemma ConsParts(s: string, head: string, rest: seq<string>, tail: string, sep: string)
    requires |sep| > 0 && |rest| >= 1 && s == head + sep + tail && Join(rest, sep) == tail
    requires Free(head, sep) && LeftmostCut(head, sep)
    requires forall i :: 0 <= i < |rest| ==> Free(rest[i], sep)
    requires forall i :: 0 <= i < |rest| - 1 ==> LeftmostCut(rest[i], sep)
    ensures Join([head] + rest, sep) == s
    ensures forall i :: 0 <= i < |[head] + rest| ==> Free(([head] + rest)[i], sep)
    ensures forall i :: 0 <= i < |[head] + rest| - 1 ==> LeftmostCut(([head] + rest)[i], sep)
  {
    var parts := [head] + rest;
    assert parts[1..] == rest;
    forall i | 0 <= i < |parts| ensures Free(parts[i], sep) && (i < |parts| - 1 ==> LeftmostCut(parts[i], sep)) {
      if i > 0 {
        assert parts[i] == rest[i - 1];
      }
    }
  }

  /** With the self-overlapping `..`, the cut is at the first two dots:
      `A...B` splits into `A` and `.B`. */
  lemma OverlappingSeparator()
    ensures SplitOn("A...B", "..") == ["A", ".B"]
  {
    SplitAfter("A", "..", ".B");
    assert "A" + ".." + ".B" == "A...B";
    forall k: nat ensures !OccursAt(".B", "..", k) {
      if k == 0 {
        assert ".B"[0..2][1] == 'B';
      }
    }
    SplitFree(".B", "..");
  }

  /** Proof step: the text before the leftmost `sep` holds no `sep`, and
      the cut after it is leftmost. */
  lemma CutAtFirst(s: string, sep: string, i: nat)
    requires |sep| > 0 && IndexOf(s, sep) == Some(i)
    ensures Free(s[..i], sep) && LeftmostCut(s[..i], sep)
  {
    forall k: nat ensures !OccursAt(s[..i], sep, k) && (k < i ==> !OccursAt(s[..i] + sep, sep, k)) {
      if k < i {
        NotBefore(s, sep, i, k);
      }
    }
  }

  /** Proof step: an offset before the leftmost `sep` starts no `sep` in
      the text up to and including that `sep`. */
  lemma NotBefore(s: string, sep: string, i: nat, k: nat)
    requires |sep| > 0 && i + |sep| <= |s| && s[i..i + |sep|] == sep && k < i && !OccursAt(s, sep, k)
    ensures !OccursAt(s[..i], sep, k) && !OccursAt(s[..i] + sep, sep, k)
  {
    var head := s[..i];
    assert head + sep == s[..i + |sep|];
    assert (head + sep)[k..k + |sep|] == s[k..k + |sep|];
    if k + |sep| <= i {
      assert head[k..k + |sep|] == s[k..k + |sep|];
    }
  }

  /** Splitting a string that holds no occurrence of `sep` yields it whole. */
  lemma SplitFree(s: string, sep: string)
    requires |sep| > 0 && Free(s, sep)
    ensures SplitOn(s, sep) == [s]
  {
  }

  /** A head free of the separator's first character is cut off at the first
      separator. */
  lemma {:induction false} SplitAfter(head: string, sep: string, tail: string)
    requires |sep| > 0
    requires forall i :: 0 <= i < |head| ==> head[i] != sep[0]
    ensures SplitOn(head + sep + tail, sep) == [head] + SplitOn(tail, sep)
  {
    var s := head + sep + tail;
    assert OccursAt(s, sep, |head|) by {
      assert s[|head|..|head| + |sep|] == sep;
    }
    forall k: nat | k < |head| ensures !OccursAt(s, sep, k) {
      assert s[k..k + |sep|][0] == head[k];
    }
    assert IndexOf(s, sep) == Some(|head|);
    assert s[..|head|] == head;
    assert s[|head| + |sep|..] == tail;
  }

  // ---------------------------------------------------------------------
  // Hexadecimal digits
  // ---------------------------------------------------------------------

  predicate IsHexDigit(c: char) {
    ('0' <= c <= '9') || ('a' <= c <= 'f') || ('A' <= c <= 'F')
  }

  predicate AllHexDigits(s: string) {
    forall i :: 0 <= i < |s| ==> IsHexDigit(s[i])
  }

  /** The digits Rust's `x` format writes. */
  predicate IsLowerHexDigit(c: char) {
    ('0' <= c <= '9') || ('a' <= c <= 'f')
  }

  function DigitValue(c: char): (d: nat)
    requires IsHexDigit(c)
    ensures d < 16
    ensures d < 10 <==> '0' <= c <= '9'
  {
    if c <= '9' then c as nat - '0' as nat
    else if c <= 'F' then c as nat - 'A' as nat + 10
    else c as nat - 'a' as nat + 10
  }

  function DigitChar(d: nat): (c: char)
    requires d < 16
    ensures IsLowerHexDigit(c) && IsHexDigit(c) && DigitValue(c) == d
  {
    if d < 10 then ('0' as int + d) as char else ('a' as int + d - 10) as char
  }

  /** The value of a string of hexadecimal digits, most significant first. */
  function HexValue(s: string): nat
    requires AllHexDigits(s)
    decreases |s|
  {
    if s == [] then 0 else HexValue(s[..|s| - 1]) * 16 + DigitValue(s[|s| - 1])
  }

  /** Rust's `x` format: lower-case hexadecimal, no prefix, no leading zero. */
  function Hex(n: nat): (s: string)
    ensures |s| > 0
    ensures forall i :: 0 <= i < |s| ==> IsLowerHexDigit(s[i])
    ensures AllHexDigits(s) && HexValue(s) == n
    ensures |s| > 1 ==> s[0] != '0'
    decreases n
  {
    if n < 16 then
      [DigitChar(n)]
    else
      var s := Hex(n / 16) + [DigitChar(n % 16)];
      assert s[..|s| - 1] == Hex(n / 16);
      s
  }
}
