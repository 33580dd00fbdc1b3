/** The single forward pass that cuts bytes into lines and folds lines into records. */
module Indexers {
  import opened Decoders
  import opened InternTables
  import opened Records

  // ---------------------------------------------------------------------------
  // Lines
  // ---------------------------------------------------------------------------

  /** A physical line: its byte span (newline included) and its content (newline excluded). */
  datatype Line = Line(offset: int, length: int, content: seq<Byte>, terminated: bool)

  function LineAt(enc: Encoding, bytes: seq<Byte>, from: int): (l: Line)
    requires 0 <= from < |bytes|
    ensures l.offset == from && 0 < l.length && from + l.length <= |bytes|
  {
    var b := FirstBreak(enc, bytes, from);
    Line(from, b.end - from, bytes[from..b.end - (if b.hadNewline then enc.UnitSize() else 0)], b.hadNewline)
  }

  /** The lines of `bytes` from `from` on. */
  function Lines(enc: Encoding, bytes: seq<Byte>, from: int): seq<Line>
    requires 0 <= from
    decreases |bytes| - from
  {
    if from >= |bytes| then []
    else
      var l := LineAt(enc, bytes, from);
      [l] + Lines(enc, bytes, from + l.length)
  }

  // ---------------------------------------------------------------------------
  // The record-start rule
  // ---------------------------------------------------------------------------

  /** What the record-start pattern answers for one line's content. */
  datatype Parsed = NoStart | Start(priority: Priority, logger: string, thread: string, timestamp: int)

  /** The compiled format; decoding, both regexes and the field parsers together are one
      uninterpreted function of a line's content. An absent logger or thread group is "". */
  datatype Format = Format(haveFormat: bool, parse: seq<Byte> -> Parsed) {
    function Classify(l: Line): Parsed {
      if haveFormat then parse(l.content) else NoStart
    }
  }

  function Clamp(n: int): nat {
    if n < 0 then 0 else if n > MAX_LENGTH then MAX_LENGTH else n
  }

  function Extended(r: Record, byteLen: int): Record {
    r.(length := Clamp(r.length + byteLen),
       lineCount := if r.lineCount < MAX_LINE_COUNT then r.lineCount + 1 else r.lineCount)
  }

  function Unparsed(l: Line): Record {
    Record(l.offset, NO_TIMESTAMP, Clamp(l.length), 0, 0, 1, Unknown)
  }

  datatype ScanState = ScanState(records: seq<Record>, currentRecord: int, currentIsParsed: bool,
                                 loggers: seq<string>, threads: seq<string>)

  /** The effect of one line. */
  function ProcessedLine(fmt: Format, st: ScanState, l: Line): ScanState {
    match fmt.Classify(l)
    case Start(priority, logger, thread, timestamp) =>
      var r := Record(l.offset, timestamp, Clamp(l.length), IndexOf(st.loggers, logger), IndexOf(st.threads, thread), 1, priority);
      ScanState(st.records + [r], |st.records|, true, Interned(st.loggers, logger), Interned(st.threads, thread))
    case NoStart =>
      if 0 <= st.currentRecord < |st.records| && st.currentIsParsed then
        st.(records := st.records[st.currentRecord := Extended(st.records[st.currentRecord], l.length)])
      else
        st.(records := st.records + [Unparsed(l)], currentRecord := |st.records|, currentIsParsed := false)
  }

  function Fold(fmt: Format, st: ScanState, lines: seq<Line>): ScanState
    decreases lines
  {
    if lines == [] then st else Fold(fmt, ProcessedLine(fmt, st, lines[0]), lines[1..])
  }

  lemma {:induction false} FoldAppends(fmt: Format, st: ScanState, a: seq<Line>, b: seq<Line>)
    ensures Fold(fmt, st, a + b) == Fold(fmt, Fold(fmt, st, a), b)
    decreases a
  {
    if a == [] {
      assert a + b == b;
    } else {
      assert (a + b)[1..] == a[1..] + b;
      FoldAppends(fmt, ProcessedLine(fmt, st, a[0]), a[1..], b);
    }
  }

  /** A line cut out of a window is the line of the whole source. */
  lemma LineOfWindow(enc: Encoding, source: seq<Byte>, pos: int, w: int, scan: int, b: LineBreak, contentEnd: int)
    requires 0 <= pos && 0 <= scan < w && pos + w <= |source|
    requires b == FirstBreak(enc, source[pos..pos + w], scan)
    requires b.hadNewline || pos + w == |source|
    requires contentEnd == b.end - (if b.hadNewline then enc.UnitSize() else 0)
    ensures LineAt(enc, source, pos + scan)
            == Line(pos + scan, b.end - scan, source[pos..pos + w][scan..contentEnd], b.hadNewline)
  {
    BreakInWindow(enc, source, pos, w, scan);
    SliceOfSlice(source, pos, pos + w, scan, contentEnd);
  }

  lemma SliceOfSlice(s: seq<Byte>, a: int, b: int, c: int, d: int)
    requires 0 <= a <= b <= |s| && 0 <= c <= d <= b - a
    ensures s[a..b][c..d] == s[a + c..a + d]
  {
    forall k | 0 <= k < d - c ensures s[a..b][c..d][k] == s[a + c..a + d][k] {
      assert s[a..b][c + k] == s[a + c + k];
    }
  }

  /** What is left to fold after the line at `at`. */
  lemma FoldPeels(fmt: Format, st: ScanState, enc: Encoding, source: seq<Byte>, at: int)
    requires 0 <= at < |source|
    ensures var l := LineAt(enc, source, at);
            Fold(fmt, st, Lines(enc, source, at)) == Fold(fmt, ProcessedLine(fmt, st, l), Lines(enc, source, at + l.length))
  {
    var l := LineAt(enc, source, at);
    assert ([l] + Lines(enc, source, at + l.length))[1..] == Lines(enc, source, at + l.length);
  }

  // ---------------------------------------------------------------------------
  // The scan
  // ---------------------------------------------------------------------------

  /** The mutable half of the scan: the record vector, the open record and the names of the
      caller's two intern tables, each grown as InternTable.Intern grows it. */
  class Scan {
    const fmt: Format
    var records: seq<Record>
    var currentRecord: int
    var currentIsParsed: bool
    var loggers: seq<string>
    var threads: seq<string>

    constructor (fmt: Format, loggers: seq<string>, threads: seq<string>)
      ensures this.fmt == fmt && Valid()
      ensures State() == ScanState([], -1, false, loggers, threads)
    {
      this.fmt, this.loggers, this.threads := fmt, loggers, threads;
      records, currentRecord, currentIsParsed := [], -1, false;
    }

    ghost predicate Valid()
      reads this
    {
      -1 <= currentRecord < |records|
    }

    function State(): ScanState
      reads this
    {
      ScanState(records, currentRecord, currentIsParsed, loggers, threads)
    }

    method ProcessLine(l: Line)
      requires Valid()
      modifies this
      ensures Valid() && State() == ProcessedLine(fmt, old(State()), l)
    {
      match fmt.Classify(l)
      case Start(priority, logger, thread, timestamp) =>
        var loggerId, threadId := IndexOf(loggers, logger), IndexOf(threads, thread);
        loggers, threads := Interned(loggers, logger), Interned(threads, thread);
        records := records + [Record(l.offset, timestamp, Clamp(l.length), loggerId, threadId, 1, priority)];
        currentRecord := |records| - 1;
        currentIsParsed := true;
      case NoStart =>
        if currentRecord >= 0 && currentIsParsed {
          records := records[currentRecord := Extended(records[currentRecord], l.length)];
        } else {
          records := records + [Unparsed(l)];
          currentRecord := |records| - 1;
          currentIsParsed := false;
        }
    }

    /** What the scan ends with if it goes on over every line from `at`. */
    function Finished(enc: Encoding, source: seq<Byte>, at: int): ScanState
      reads this
      requires 0 <= at
    {
      Fold(fmt, State(), Lines(enc, source, at))
    }

    /** Walks the lines of one window; stops at an incomplete trailing line unless the window
        reaches the end of the source. */
    method ScanWindow(enc: Encoding, source: seq<Byte>, pos: int, w: int) returns (scan: int)
      requires Valid() && 0 <= pos && 0 < w && pos + w <= |source|
      modifies this
      ensures Valid() && 0 <= scan <= w
      ensures Finished(enc, source, pos + scan) == old(Finished(enc, source, pos))
      ensures scan == 0 ==> State() == old(State())
      ensures pos + w == |source| ==> scan == w
    {
      scan := 0;
      while scan < w
        invariant Valid() && 0 <= scan <= w
        invariant Finished(enc, source, pos + scan) == old(Finished(enc, source, pos))
        invariant scan == 0 ==> State() == old(State())
        decreases w - scan
      {
        var end := ScanLine(enc, source, pos, w, scan);
        if end == scan { break; }
        scan := end;
      }
    }

    /** Processes the line at `scan` of the window; answers `scan` when it is incomplete. */
    method ScanLine(enc: Encoding, source: seq<Byte>, pos: int, w: int, scan: int) returns (end: int)
      requires Valid() && 0 <= pos && 0 <= scan < w && pos + w <= |source|
      modifies this
      ensures Valid() && scan <= end <= w
      ensures end == scan ==> State() == old(State()) && pos + w < |source|
      ensures Finished(enc, source, pos + end) == old(Finished(enc, source, pos + scan))
    {
      hide Lines, Fold, LineAt, ProcessedLine;
      var l, complete := ReadLine(enc, source, pos, w, scan);
      if !complete { return scan; }
      FoldPeels(fmt, State(), enc, source, pos + scan);
      ProcessLine(l);
      end := scan + l.length;
    }
  }

  /** Cuts the line at `scan` out of the window; incomplete when its newline is not in the
      window and the window stops short of the end. */
  method ReadLine(enc: Encoding, source: seq<Byte>, pos: int, w: int, scan: int) returns (l: Line, complete: bool)
    requires 0 <= pos && 0 <= scan < w && pos + w <= |source|
    ensures complete ==> l == LineAt(enc, source, pos + scan) && scan + l.length <= w
    ensures pos + w == |source| ==> complete
  {
    var buf := source[pos..pos + w];
    var atEof := pos + w >= |source|;
    var end, hadNl := LineEnd(enc, buf, scan);
    var contentEnd := end - (if hadNl then enc.UnitSize() else 0);
    l := Line(pos + scan, end - scan, buf[scan..contentEnd], hadNl);
    complete := hadNl || atEof;
    if complete { LineOfWindow(enc, source, pos, w, scan, LineBreak(end, hadNl), contentEnd); }
  }

  /** The scan of [startPos, size): windows of `chunk` bytes, a window doubled while its
      first line does not end inside it. Whatever the chunk size, a completed scan is the
      fold of the lines of the whole; a cancelled one stopped at a line boundary `reached`
      from which going on would give that same fold. */
  method ForwardScan(scan: Scan, enc: Encoding, source: seq<Byte>, startPos: int, chunk: int, keepGoing: int -> bool)
    returns (completed: bool, reached: int)
    requires scan.Valid() && 0 <= startPos && 1 <= chunk
    modifies scan
    ensures scan.Valid() && startPos <= reached
    ensures scan.Finished(enc, source, reached) == old(scan.Finished(enc, source, startPos))
    ensures completed ==> reached >= |source| && scan.State() == old(scan.Finished(enc, source, startPos))
    ensures !completed ==> !keepGoing(reached)
  {
    var size := |source|;
    var pos := startPos;
    while pos < size
      invariant startPos <= pos && scan.Valid()
      invariant scan.Finished(enc, source, pos) == old(scan.Finished(enc, source, startPos))
      decreases size - pos
    {
      var moved := ScanGrowing(scan, enc, source, pos, chunk);
      if moved == 0 { break; }
      pos := pos + moved;
      if !keepGoing(pos) { return false, pos; }
    }
    return true, pos;
  }

  /** One round: read a window at `pos`, doubling it until at least one line completes. */
  method ScanGrowing(scan: Scan, enc: Encoding, source: seq<Byte>, pos: int, chunk: int) returns (moved: int)
    requires scan.Valid() && 0 <= pos < |source| && 1 <= chunk
    modifies scan
    ensures scan.Valid() && 0 < moved <= |source| - pos
    ensures scan.Finished(enc, source, pos + moved) == old(scan.Finished(enc, source, pos))
  {
    var rest := |source| - pos;
    var want := if chunk < rest then chunk else rest;
    while true
      invariant 0 < want <= rest && scan.Valid() && scan.State() == old(scan.State())
      decreases rest - want
    {
      moved := scan.ScanWindow(enc, source, pos, want);
      if moved > 0 || want >= rest { break; }
      want := if rest < want * 2 then rest else want * 2;
    }
  }
}
