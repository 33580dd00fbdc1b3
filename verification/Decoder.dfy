/** Byte-level text boundaries: where a line ends, and where a sample may be cut. */
module Decoders {
  type Byte = b: int | 0 <= b < 256

  datatype Encoding = Utf8 | System | Utf16LE | Utf16BE {
    function UnitSize(): (u: int)
      ensures 1 <= u <= 2
    {
      if Utf16LE? || Utf16BE? then 2 else 1
    }
  }

  /** A newline code unit stands at `i`. */
  predicate NewlineAt(enc: Encoding, buf: seq<Byte>, i: int) {
    0 <= i && i + enc.UnitSize() <= |buf| &&
    match enc
    case Utf16LE => buf[i] == 0x0A && buf[i + 1] == 0x00
    case Utf16BE => buf[i] == 0x00 && buf[i + 1] == 0x0A
    case _ => buf[i] == 0x0A
  }

  datatype LineBreak = LineBreak(end: int, hadNewline: bool)

  /** The first code-unit-aligned newline at or after `from`, or the end of the buffer. */
  function FirstBreak(enc: Encoding, buf: seq<Byte>, from: int): (l: LineBreak)
    requires 0 <= from <= |buf|
    ensures from <= l.end <= |buf| && (from < |buf| ==> from < l.end)
    ensures l.hadNewline ==> l.end - from >= enc.UnitSize()
    ensures !l.hadNewline ==> l.end == |buf|
    decreases |buf| - from
  {
    if from + enc.UnitSize() > |buf| then LineBreak(|buf|, false)
    else if NewlineAt(enc, buf, from) then LineBreak(from + enc.UnitSize(), true)
    else FirstBreak(enc, buf, from + enc.UnitSize())
  }

  /** The break is the first newline on the code-unit grid laid from `from`, so a newline
      byte inside an unrelated code unit is never taken for one. */
  lemma {:induction false} FirstBreakMeaning(enc: Encoding, buf: seq<Byte>, from: int)
    requires 0 <= from <= |buf|
    ensures var l := FirstBreak(enc, buf, from);
            var u := enc.UnitSize();
            (l.hadNewline ==> NewlineAt(enc, buf, l.end - u) && (l.end - u - from) % u == 0)
            && forall i :: from <= i < (if l.hadNewline then l.end - u else |buf|) && (i - from) % u == 0 ==> !NewlineAt(enc, buf, i)
    decreases |buf| - from
  {
    var u := enc.UnitSize();
    if from + u <= |buf| && !NewlineAt(enc, buf, from) {
      FirstBreakMeaning(enc, buf, from + u);
    }
  }

  // ---------------------------------------------------------------------------
  // Line ends of encoded text
  // ---------------------------------------------------------------------------

  /** The bytes of one code unit: itself, or two bytes, the low one first or the high one. */
  function UnitBytes(enc: Encoding, unit: nat): seq<Byte>
    requires unit < if enc.Utf16LE? || enc.Utf16BE? then 65536 else 256
  {
    match enc
    case Utf16LE => [unit % 256, unit / 256]
    case Utf16BE => [unit / 256, unit % 256]
    case _ => [unit]
  }

  predicate AreUnits(enc: Encoding, units: seq<nat>) {
    forall i :: 0 <= i < |units| ==> units[i] < if enc.Utf16LE? || enc.Utf16BE? then 65536 else 256
  }

  /** The bytes of a text, unit by unit. */
  function Encoded(enc: Encoding, units: seq<nat>): seq<Byte>
    requires AreUnits(enc, units)
  {
    if enc.Utf16LE? || enc.Utf16BE? then seq(2 * |units|, i requires 0 <= i < 2 * |units| => UnitBytes(enc, units[i / 2])[i % 2])
    else seq(|units|, i requires 0 <= i < |units| => units[i])
  }

  /** Where the `k`-th unit starts. */
  function Offset(enc: Encoding, k: nat): nat {
    if enc.Utf16LE? || enc.Utf16BE? then 2 * k else k
  }

  /** The first line feed among the units from `k` on, or their number. */
  function FirstFeed(units: seq<nat>, k: nat): (i: nat)
    requires k <= |units|
    ensures k <= i <= |units| && (i < |units| ==> units[i] == 10) && forall j :: k <= j < i ==> units[j] != 10
    decreases |units| - k
  {
    if k == |units| || units[k] == 10 then k else FirstFeed(units, k + 1)
  }

  lemma UnitIsFeed(enc: Encoding, units: seq<nat>, k: nat)
    requires AreUnits(enc, units) && k < |units|
    ensures |Encoded(enc, units)| == Offset(enc, |units|) && enc.UnitSize() == Offset(enc, k + 1) - Offset(enc, k)
    ensures NewlineAt(enc, Encoded(enc, units), Offset(enc, k)) <==> units[k] == 10
  {
    var text := Encoded(enc, units);
    if enc.Utf16LE? || enc.Utf16BE? {
      assert text[2 * k] == UnitBytes(enc, units[k])[0] && text[2 * k + 1] == UnitBytes(enc, units[k])[1];
    } else {
      assert text[k] == units[k];
    }
  }

  /** The unit at `k` reads as a newline exactly when it is a line feed. */
  predicate ReadsAs(enc: Encoding, buf: seq<Byte>, units: seq<nat>, k: nat)
    requires k < |units|
  {
    NewlineAt(enc, buf, Offset(enc, k)) <==> units[k] == 10
  }

  lemma {:induction false} BreakAmong(enc: Encoding, buf: seq<Byte>, units: seq<nat>, k: nat)
    requires |buf| == Offset(enc, |units|) && k <= |units| && forall i :: 0 <= i < |units| ==> ReadsAs(enc, buf, units, i)
    ensures FirstBreak(enc, buf, Offset(enc, k))
            == if FirstFeed(units, k) < |units| then LineBreak(Offset(enc, FirstFeed(units, k) + 1), true) else LineBreak(|buf|, false)
    decreases |units| - k
  {
    if k < |units| {
      assert ReadsAs(enc, buf, units, k);
      if units[k] != 10 { BreakAmong(enc, buf, units, k + 1); }
    }
  }

  /** In every encoding a line ends right behind the first unit that is a line feed: a 10 among
      the bytes of another unit is none. */
  lemma BreakOfText(enc: Encoding, units: seq<nat>, k: nat)
    requires AreUnits(enc, units) && k <= |units|
    ensures Offset(enc, k) <= |Encoded(enc, units)| == Offset(enc, |units|)
    ensures var i := FirstFeed(units, k);
            FirstBreak(enc, Encoded(enc, units), Offset(enc, k))
            == if i < |units| then LineBreak(Offset(enc, i + 1), true) else LineBreak(Offset(enc, |units|), false)
  {
    EncodedLength(enc, units);
    forall i | 0 <= i < |units| ensures ReadsAs(enc, Encoded(enc, units), units, i) { UnitIsFeed(enc, units, i); }
    hide Encoded, ReadsAs, FirstBreak, FirstFeed;
    BreakAmong(enc, Encoded(enc, units), units, k);
  }

  lemma EncodedLength(enc: Encoding, units: seq<nat>)
    requires AreUnits(enc, units)
    ensures |Encoded(enc, units)| == Offset(enc, |units|)
  {
  }

  method LineEnd(enc: Encoding, buf: seq<Byte>, from: int) returns (end: int, hadNewline: bool)
    requires 0 <= from <= |buf|
    ensures LineBreak(end, hadNewline) == FirstBreak(enc, buf, from)
  {
    var n := |buf|;
    hadNewline := false;
    var i := from;
    if enc.UnitSize() == 1 {
      while i < n
        invariant from <= i <= n && FirstBreak(enc, buf, i) == FirstBreak(enc, buf, from)
      {
        if buf[i] == 0x0A { return i + 1, true; }
        i := i + 1;
      }
      return n, false;
    }
    if enc == Utf16LE {
      while i + 1 < n
        invariant from <= i <= n && FirstBreak(enc, buf, i) == FirstBreak(enc, buf, from)
      {
        if buf[i] == 0x0A && buf[i + 1] == 0x00 { return i + 2, true; }
        i := i + 2;
      }
    } else {
      while i + 1 < n
        invariant from <= i <= n && FirstBreak(enc, buf, i) == FirstBreak(enc, buf, from)
      {
        if buf[i] == 0x00 && buf[i + 1] == 0x0A { return i + 2, true; }
        i := i + 2;
      }
    }
    return n, false;
  }

  /** Growing a buffer never moves a line that was already terminated. */
  lemma {:induction false} BreakSurvivesGrowth(enc: Encoding, buf: seq<Byte>, longer: seq<Byte>, from: int)
    requires 0 <= from <= |buf| && buf <= longer
    requires FirstBreak(enc, buf, from).hadNewline
    ensures FirstBreak(enc, longer, from) == FirstBreak(enc, buf, from)
    decreases |buf| - from
  {
    if !NewlineAt(enc, buf, from) { BreakSurvivesGrowth(enc, buf, longer, from + enc.UnitSize()); }
  }

  lemma NewlineInWindow(enc: Encoding, whole: seq<Byte>, pos: int, w: int, scan: int)
    requires 0 <= pos && 0 <= scan && scan + enc.UnitSize() <= w && pos + w <= |whole|
    ensures NewlineAt(enc, whole[pos..pos + w], scan) == NewlineAt(enc, whole, pos + scan)
  {
    var buf := whole[pos..pos + w];
    assert buf[scan] == whole[pos + scan];
    if enc.UnitSize() == 2 { assert buf[scan + 1] == whole[pos + scan + 1]; }
  }

  /** A line read through a window is the line of the whole, when the window holds its
      newline or reaches the end. */
  lemma {:induction false} BreakInWindow(enc: Encoding, whole: seq<Byte>, pos: int, w: int, scan: int)
    requires 0 <= pos && 0 <= scan <= w && pos + w <= |whole|
    ensures var l := FirstBreak(enc, whole[pos..pos + w], scan);
            l.hadNewline || pos + w == |whole| ==>
              FirstBreak(enc, whole, pos + scan) == LineBreak(pos + l.end, l.hadNewline)
    decreases w - scan
  {
    if scan + enc.UnitSize() <= w {
      NewlineInWindow(enc, whole, pos, w, scan);
      if !NewlineAt(enc, whole, pos + scan) { BreakInWindow(enc, whole, pos, w, scan + enc.UnitSize()); }
    }
  }

  // ---------------------------------------------------------------------------
  // Where a UTF-8 sample may be cut
  // ---------------------------------------------------------------------------

  predicate IsContinuation(b: Byte) { 0x80 <= b < 0xC0 }

  /** The length a lead byte announces; 0 for a byte that leads nothing. */
  function Need(b: Byte): nat {
    if b < 0x80 then 1
    else if 0xC0 <= b < 0xE0 then 2
    else if 0xE0 <= b < 0xF0 then 3
    else if 0xF0 <= b < 0xF8 then 4
    else 0
  }

  /** The sequence that `i` starts is longer than what is left of the sample. */
  predicate Dangling(p: seq<Byte>, i: int) {
    0 <= i < |p| && |p| - i <= 4 && i + Need(p[i]) > |p| && forall k :: i < k < |p| ==> IsContinuation(p[k])
  }

  /** How much of a sample ends on a complete sequence. */
  method CompleteUtf8Prefix(p: seq<Byte>) returns (r: int)
    ensures 0 <= r <= |p|
    ensures r < |p| ==> Dangling(p, r)
    ensures r == |p| ==> forall i :: 0 <= i < |p| ==> !Dangling(p, i)
  {
    var n := |p|;
    var i := n - 1;
    while i >= 0 && n - i <= 3 && IsContinuation(p[i])
      invariant -1 <= i < n && (n - 1 - i <= 3)
      invariant forall k :: i < k < n ==> IsContinuation(p[k])
    {
      i := i - 1;
    }
    if i < 0 { return n; }
    var need := Need(p[i]);
    if need == 0 { return n; }
    r := if i + need > n then i else n;
  }

  /** One encoded character: a lead byte and the continuation bytes it announces. */
  predicate IsChar(c: seq<Byte>) {
    |c| >= 1 && |c| == Need(c[0]) && forall k :: 0 < k < |c| ==> IsContinuation(c[k])
  }

  /** The UTF-8 form of a code point, as section 3 of RFC 3629 lays its bits out. */
  function Utf8Of(cp: nat): seq<Byte>
    requires cp < 0x11_0000
  {
    if cp < 0x80 then [cp]
    else if cp < 0x800 then [0xC0 + cp / 0x40, 0x80 + cp % 0x40]
    else if cp < 0x1_0000 then [0xE0 + cp / 0x1000, 0x80 + cp / 0x40 % 0x40, 0x80 + cp % 0x40]
    else [0xF0 + cp / 0x4_0000, 0x80 + cp / 0x1000 % 0x40, 0x80 + cp / 0x40 % 0x40, 0x80 + cp % 0x40]
  }

  /** Every code point's form is one character to the trimming, and a byte inside it leads none. */
  lemma CodePointIsChar(cp: nat)
    requires cp < 0x11_0000
    ensures IsChar(Utf8Of(cp)) && forall k :: 0 < k < |Utf8Of(cp)| ==> Need(Utf8Of(cp)[k]) == 0
  {
  }

  function Flatten(chars: seq<seq<Byte>>): seq<Byte> {
    if chars == [] then [] else chars[0] + Flatten(chars[1..])
  }

  /** The last character boundary at or before `n`. */
  function BoundaryAtOrBefore(chars: seq<seq<Byte>>, n: nat): (b: nat)
    ensures b <= n
  {
    if chars == [] || |chars[0]| > n then 0
    else |chars[0]| + BoundaryAtOrBefore(chars[1..], n - |chars[0]|)
  }

  /** Cutting well-formed text at any byte and trimming leaves exactly the whole characters
      in front of the cut, so the cut alone never makes a sample invalid. */
  lemma {:induction false} TrimmedAtBoundary(chars: seq<seq<Byte>>, n: nat, r: int)
    requires forall k :: 0 <= k < |chars| ==> IsChar(chars[k])
    requires n <= |Flatten(chars)|
    requires var p := Flatten(chars)[..n];
             0 <= r <= n && (if r < n then Dangling(p, r) else forall i :: 0 <= i < n ==> !Dangling(p, i))
    ensures r == BoundaryAtOrBefore(chars, n)
    decreases |chars|
  {
    if chars != [] {
      var c := chars[0];
      var rest := Flatten(chars[1..]);
      var p := Flatten(chars)[..n];
      if |c| > n {
        assert p == c[..n];
        if n > 0 { assert Dangling(p, 0); }
        forall i | 0 < i < n ensures !Dangling(p, i) {
          assert IsContinuation(c[i]) && p[i] == c[i];
        }
      } else {
        var q := rest[..n - |c|];
        assert p == c + q;
        if r < n {
          if r < |c| { OnlyLeadsDangle(c, q, r); }
          assert Dangling(q, r - |c|) by {
            assert forall k :: 0 <= k < |q| ==> q[k] == p[k + |c|];
          }
        } else {
          forall i | 0 <= i < |q| ensures !Dangling(q, i) {
            assert !Dangling(p, i + |c|);
            assert forall k :: 0 <= k < |q| ==> q[k] == p[k + |c|];
          }
        }
        assert forall k :: 0 <= k < |chars[1..]| ==> IsChar(chars[1..][k]);
        TrimmedAtBoundary(chars[1..], n - |c|, r - |c|);
      }
    }
  }

  /** A complete character in front of other text is never what dangles. */
  lemma OnlyLeadsDangle(c: seq<Byte>, q: seq<Byte>, r: int)
    requires IsChar(c) && 0 <= r < |c|
    ensures !Dangling(c + q, r)
  {
    if r > 0 { assert IsContinuation(c[r]) && (c + q)[r] == c[r]; }
  }
}
