/** Scanning only what a log appended, against indexing the whole of it again. */
module TailScans {
  import opened Decoders
  import opened InternTables
  import opened Records
  import opened Indexers

  // ---------------------------------------------------------------------------
  // Records with their names resolved: what two scans are compared by
  // ---------------------------------------------------------------------------

  datatype Row = Row(offset: int, timestamp: int, length: nat, logger: string, thread: string, lineCount: nat, priority: Priority)

  function RowOf(r: Record, loggers: seq<string>, threads: seq<string>): Row {
    Row(r.offset, r.timestamp, r.length, NameOf(loggers, r.loggerId), NameOf(threads, r.threadId), r.lineCount, r.priority)
  }

  function Resolved(records: seq<Record>, loggers: seq<string>, threads: seq<string>): seq<Row> {
    seq(|records|, i requires 0 <= i < |records| => RowOf(records[i], loggers, threads))
  }

  /** The rows so far and whether the last one takes continuation lines. */
  datatype RowState = RowState(rows: seq<Row>, open: bool)

  function ExtendedRow(r: Row, byteLen: int): Row {
    r.(length := Clamp(r.length + byteLen),
       lineCount := if r.lineCount < MAX_LINE_COUNT then r.lineCount + 1 else r.lineCount)
  }

  /** The row a line opens when it is not a continuation. */
  function Opened(fmt: Format, l: Line): Row {
    match fmt.Classify(l)
    case Start(priority, logger, thread, timestamp) => Row(l.offset, timestamp, Clamp(l.length), logger, thread, 1, priority)
    case NoStart => Row(l.offset, NO_TIMESTAMP, Clamp(l.length), "", "", 1, Unknown)
  }

  predicate IsStart(fmt: Format, l: Line) { fmt.Classify(l).Start? }

  /** A line continues the record before it only when that record was itself a match. */
  predicate Continues(fmt: Format, st: RowState, l: Line) {
    !IsStart(fmt, l) && st.rows != [] && st.open
  }

  function RowStep(fmt: Format, st: RowState, l: Line): RowState {
    if Continues(fmt, st, l) then
      RowState(st.rows[..|st.rows| - 1] + [ExtendedRow(st.rows[|st.rows| - 1], l.length)], true)
    else RowState(st.rows + [Opened(fmt, l)], IsStart(fmt, l))
  }

  function RowFold(fmt: Format, st: RowState, lines: seq<Line>): RowState
    decreases lines
  {
    if lines == [] then st else RowFold(fmt, RowStep(fmt, st, lines[0]), lines[1..])
  }

  const NOTHING := RowState([], false)

  /** The rows of a full index of `bytes`. */
  function IndexedRows(fmt: Format, enc: Encoding, bytes: seq<Byte>, from: nat): seq<Row> {
    RowFold(fmt, NOTHING, Lines(enc, bytes, from)).rows
  }

  // ---------------------------------------------------------------------------
  // The scan by ids is the scan by names
  // ---------------------------------------------------------------------------

  ghost predicate WellFormed(st: ScanState) {
    && ValidNames(st.loggers) && ValidNames(st.threads)
    && st.currentRecord == |st.records| - 1
    && forall i :: 0 <= i < |st.records| ==> st.records[i].loggerId < |st.loggers| && st.records[i].threadId < |st.threads|
  }

  function RowStateOf(st: ScanState): RowState {
    RowState(Resolved(st.records, st.loggers, st.threads), st.currentIsParsed)
  }

  /** Records keep their names while the tables grow. */
  lemma ResolvedSurvives(records: seq<Record>, loggers: seq<string>, threads: seq<string>, loggers': seq<string>, threads': seq<string>)
    requires loggers <= loggers' && threads <= threads'
    requires forall i :: 0 <= i < |records| ==> records[i].loggerId < |loggers| && records[i].threadId < |threads|
    ensures Resolved(records, loggers', threads') == Resolved(records, loggers, threads)
  {
  }

  lemma ProcessedLineResolves(fmt: Format, st: ScanState, l: Line)
    requires WellFormed(st) && (st.records == [] ==> !st.currentIsParsed)
    ensures var st' := ProcessedLine(fmt, st, l);
            WellFormed(st') && st'.records != [] && st.loggers <= st'.loggers && st.threads <= st'.threads
            && RowStateOf(st') == RowStep(fmt, RowStateOf(st), l)
  {
    var st' := ProcessedLine(fmt, st, l);
    match fmt.Classify(l)
    case Start(priority, logger, thread, timestamp) =>
      InternedKeepsIds(st.loggers, logger);
      InternedKeepsIds(st.threads, thread);
      ResolvedSurvives(st.records, st.loggers, st.threads, st'.loggers, st'.threads);
      assert Resolved(st'.records, st'.loggers, st'.threads)
             == Resolved(st.records, st'.loggers, st'.threads) + [Opened(fmt, l)];
    case NoStart =>
      if Continues(fmt, RowStateOf(st), l) {
        var n := |st.records|;
        assert Resolved(st'.records, st'.loggers, st'.threads)
               == Resolved(st.records, st.loggers, st.threads)[..n - 1]
                  + [ExtendedRow(Resolved(st.records, st.loggers, st.threads)[n - 1], l.length)];
      } else {
        assert Resolved(st'.records, st'.loggers, st'.threads)
               == Resolved(st.records, st.loggers, st.threads) + [Opened(fmt, l)];
      }
  }

  lemma {:induction false} FoldResolves(fmt: Format, st: ScanState, lines: seq<Line>)
    requires WellFormed(st) && (st.records == [] ==> !st.currentIsParsed)
    ensures var st' := Fold(fmt, st, lines);
            WellFormed(st') && st.loggers <= st'.loggers && st.threads <= st'.threads
            && RowStateOf(st') == RowFold(fmt, RowStateOf(st), lines)
    decreases lines
  {
    if lines != [] {
      ProcessedLineResolves(fmt, st, lines[0]);
      FoldResolves(fmt, ProcessedLine(fmt, st, lines[0]), lines[1..]);
    }
  }

  /** A scan from `from` with the caller's tables. */
  function Scanned(fmt: Format, enc: Encoding, bytes: seq<Byte>, from: nat, loggers: seq<string>, threads: seq<string>): ScanState {
    Fold(fmt, ScanState([], -1, false, loggers, threads), Lines(enc, bytes, from))
  }

  // ---------------------------------------------------------------------------
  // Where two folds agree
  // ---------------------------------------------------------------------------

  /** Rows in front of the open one are never touched again. */
  lemma {:induction false} FoldShifts(fmt: Format, front: seq<Row>, st: RowState, lines: seq<Line>)
    requires st.rows != []
    ensures var a := RowFold(fmt, RowState(front + st.rows, st.open), lines);
            var b := RowFold(fmt, st, lines);
            a.rows == front + b.rows && a.open == b.open && |b.rows| >= |st.rows|
    decreases lines
  {
    if lines != [] {
      var n := |st.rows|;
      var whole := RowState(front + st.rows, st.open);
      assert whole.rows[..|front| + n - 1] == front + st.rows[..n - 1];
      assert whole.rows[|front| + n - 1] == st.rows[n - 1];
      var next := RowStep(fmt, st, lines[0]);
      assert RowStep(fmt, whole, lines[0]).rows == front + next.rows;
      FoldShifts(fmt, front, next, lines[1..]);
    }
  }

  /** When the first line opens a record of its own, folding on top of earlier rows is
      folding apart and putting the results together. */
  lemma FreshStartSplits(fmt: Format, st: RowState, lines: seq<Line>)
    requires lines != [] && !Continues(fmt, st, lines[0])
    ensures RowFold(fmt, st, lines).rows == st.rows + RowFold(fmt, NOTHING, lines).rows
    ensures RowFold(fmt, NOTHING, lines).rows != []
  {
    var one := RowStep(fmt, NOTHING, lines[0]);
    assert one.rows == [Opened(fmt, lines[0])];
    assert RowStep(fmt, st, lines[0]) == RowState(st.rows + one.rows, one.open);
    FoldShifts(fmt, st.rows, one, lines[1..]);
  }

  /** Every row a fold adds starts where one of its lines starts. */
  lemma {:induction false} AddedRowsStartLater(fmt: Format, st: RowState, lines: seq<Line>, p: int)
    requires forall i :: 0 <= i < |lines| ==> lines[i].offset > p
    ensures var rows := RowFold(fmt, st, lines).rows;
            |rows| >= |st.rows| && (forall k :: |st.rows| <= k < |rows| ==> rows[k].offset > p)
            && (forall k :: 0 <= k < |st.rows| - 1 ==> rows[k] == st.rows[k])
            && (st.rows != [] ==> rows[|st.rows| - 1].offset == st.rows[|st.rows| - 1].offset)
    decreases lines
  {
    if lines != [] {
      AddedRowsStartLater(fmt, RowStep(fmt, st, lines[0]), lines[1..], p);
    }
  }

  /** When the first line is a continuation instead, the two results differ. */
  lemma ContinuationDiffers(fmt: Format, st: RowState, lines: seq<Line>)
    requires lines != [] && Continues(fmt, st, lines[0])
    requires forall i :: 0 < i < |lines| ==> lines[i].offset > lines[0].offset
    ensures RowFold(fmt, st, lines).rows != st.rows + RowFold(fmt, NOTHING, lines).rows
  {
    var p := lines[0].offset;
    var rest := lines[1..];
    var whole := RowStep(fmt, st, lines[0]);
    var apart := RowStep(fmt, NOTHING, lines[0]);
    AddedRowsStartLater(fmt, whole, rest, p);
    AddedRowsStartLater(fmt, apart, rest, p);
    var x := RowFold(fmt, st, lines).rows;
    var y := RowFold(fmt, NOTHING, lines).rows;
    assert |whole.rows| == |st.rows| && apart.rows == [Opened(fmt, lines[0])];
    assert (st.rows + y)[|st.rows|] == y[0] && y[0].offset == p;
    assert |x| > |st.rows| ==> x[|st.rows|].offset > p;
  }

  // ---------------------------------------------------------------------------
  // Lines under growth
  // ---------------------------------------------------------------------------

  lemma {:induction false} LinesAscend(enc: Encoding, bytes: seq<Byte>, from: nat)
    ensures forall i :: 0 <= i < |Lines(enc, bytes, from)| ==> Lines(enc, bytes, from)[i].offset >= from
    ensures forall i :: 0 < i < |Lines(enc, bytes, from)| ==> Lines(enc, bytes, from)[i].offset > from
    ensures from < |bytes| ==> Lines(enc, bytes, from) != [] && Lines(enc, bytes, from)[0] == LineAt(enc, bytes, from)
    decreases |bytes| - from
  {
    if from < |bytes| { LinesAscend(enc, bytes, from + LineAt(enc, bytes, from).length); }
  }

  /** A terminated line is the same line in any longer file. */
  lemma TerminatedLineSurvives(enc: Encoding, bytes: seq<Byte>, longer: seq<Byte>, at: nat)
    requires at < |bytes| && bytes <= longer && LineAt(enc, bytes, at).terminated
    ensures LineAt(enc, longer, at) == LineAt(enc, bytes, at)
  {
    BreakSurvivesGrowth(enc, bytes, longer, at);
    var l := LineAt(enc, bytes, at);
    var b := FirstBreak(enc, bytes, at);
    assert longer[at..b.end - enc.UnitSize()] == bytes[at..b.end - enc.UnitSize()];
  }

  /** The state of a full fold in front of the record it ends with, and where that record
      starts. */
  datatype LastOpen = LastOpen(before: RowState, offset: nat)

  /** Walks the lines of `bytes`, remembering the state in front of the last record opened. */
  function FindLast(fmt: Format, enc: Encoding, bytes: seq<Byte>, at: nat, st: RowState, last: LastOpen): LastOpen
    decreases |bytes| - at
  {
    if at >= |bytes| then last
    else
      var l := LineAt(enc, bytes, at);
      FindLast(fmt, enc, bytes, at + l.length, RowStep(fmt, st, l), if Continues(fmt, st, l) then last else LastOpen(st, at))
  }

  /** What the walk finds: the rows in front of the last record, and its offset. */
  ghost predicate LastIs(st: RowState, last: LastOpen) {
    st.rows != [] && last.before.rows == st.rows[..|st.rows| - 1] && last.offset == st.rows[|st.rows| - 1].offset
  }

  lemma {:induction false} FindLastRight(fmt: Format, enc: Encoding, bytes: seq<Byte>, at: nat, st: RowState, last: LastOpen)
    requires st.rows != [] ==> LastIs(st, last)
    requires at < |bytes| || st.rows != []
    ensures LastIs(RowFold(fmt, st, Lines(enc, bytes, at)), FindLast(fmt, enc, bytes, at, st, last))
    decreases |bytes| - at
  {
    hide LineAt, Lines, RowFold, RowStep, Continues, LastIs;
    if at < |bytes| {
      var l := LineAt(enc, bytes, at);
      RowFoldPeels(fmt, st, enc, bytes, at);
      StepLastIs(fmt, st, l, last);
      FindLastRight(fmt, enc, bytes, at + l.length, RowStep(fmt, st, l), if Continues(fmt, st, l) then last else LastOpen(st, at));
    } else {
      RowFoldEnds(fmt, st, enc, bytes, at);
    }
  }

  lemma RowFoldEnds(fmt: Format, st: RowState, enc: Encoding, bytes: seq<Byte>, at: nat)
    requires at >= |bytes|
    ensures RowFold(fmt, st, Lines(enc, bytes, at)) == st
  {
  }

  lemma StepLastIs(fmt: Format, st: RowState, l: Line, last: LastOpen)
    requires st.rows != [] ==> LastIs(st, last)
    requires l.offset >= 0
    ensures LastIs(RowStep(fmt, st, l), if Continues(fmt, st, l) then last else LastOpen(st, l.offset))
    ensures RowStep(fmt, st, l).rows != []
  {
    var next := RowStep(fmt, st, l);
    assert next.rows[..|next.rows| - 1] == if Continues(fmt, st, l) then st.rows[..|st.rows| - 1] else st.rows;
  }

  lemma LinesTail(enc: Encoding, bytes: seq<Byte>, at: nat)
    requires at < |bytes|
    ensures var l := LineAt(enc, bytes, at);
            Lines(enc, bytes, at) != [] && Lines(enc, bytes, at)[0] == l
            && Lines(enc, bytes, at)[1..] == Lines(enc, bytes, at + l.length)
  {
  }

  /** Everything in front of the last record folds the same way in the grown file: `total`,
      the full fold of the grown file, is also the fold from the last record on. */
  lemma {:induction false} GrowthReachesLast(fmt: Format, enc: Encoding, bytes: seq<Byte>, longer: seq<Byte>, at: nat,
                                             st: RowState, last: LastOpen, total: RowState)
    requires bytes <= longer
    requires at < |bytes| || st.rows != []
    requires at < |bytes| ==> total == RowFold(fmt, st, Lines(enc, longer, at))
    requires st.rows != [] ==> last.offset < |bytes| && total == RowFold(fmt, last.before, Lines(enc, longer, last.offset))
    ensures var found := FindLast(fmt, enc, bytes, at, st, last);
            found.offset < |bytes| && total == RowFold(fmt, found.before, Lines(enc, longer, found.offset))
    decreases |bytes| - at
  {
    hide Lines, RowFold, LineAt, FirstBreak;
    if at < |bytes| {
      var l := LineAt(enc, bytes, at);
      var last' := if Continues(fmt, st, l) then last else LastOpen(st, at);
      GrowthKeepsLine(fmt, enc, bytes, longer, at, st, total);
      GrowthReachesLast(fmt, enc, bytes, longer, at + l.length, RowStep(fmt, st, l), last', total);
    }
  }

  lemma GrowthKeepsLine(fmt: Format, enc: Encoding, bytes: seq<Byte>, longer: seq<Byte>, at: nat, st: RowState, total: RowState)
    requires bytes <= longer && at < |bytes| && total == RowFold(fmt, st, Lines(enc, longer, at))
    ensures var l := LineAt(enc, bytes, at);
            at + l.length >= |bytes| || total == RowFold(fmt, RowStep(fmt, st, l), Lines(enc, longer, at + l.length))
  {
    var l := LineAt(enc, bytes, at);
    if l.terminated {
      TerminatedLineSurvives(enc, bytes, longer, at);
      RowFoldPeels(fmt, st, enc, longer, at);
    } else {
      UnterminatedIsLast(enc, bytes, at);
    }
  }

  lemma RowFoldPeels(fmt: Format, st: RowState, enc: Encoding, bytes: seq<Byte>, at: nat)
    requires at < |bytes|
    ensures var l := LineAt(enc, bytes, at);
            RowFold(fmt, st, Lines(enc, bytes, at)) == RowFold(fmt, RowStep(fmt, st, l), Lines(enc, bytes, at + l.length))
  {
    LinesTail(enc, bytes, at);
  }

  lemma UnterminatedIsLast(enc: Encoding, bytes: seq<Byte>, at: nat)
    requires at < |bytes| && !LineAt(enc, bytes, at).terminated
    ensures at + LineAt(enc, bytes, at).length == |bytes|
  {
  }

  /** In the file it was found in, the last record's first line opened it. */
  lemma {:induction false} FindLastOpens(fmt: Format, enc: Encoding, bytes: seq<Byte>, at: nat, st: RowState, last: LastOpen)
    requires at < |bytes| || st.rows != []
    requires st.rows != [] ==> last.offset < |bytes| && !Continues(fmt, last.before, LineAt(enc, bytes, last.offset))
    ensures var found := FindLast(fmt, enc, bytes, at, st, last);
            found.offset < |bytes| && !Continues(fmt, found.before, LineAt(enc, bytes, found.offset))
    decreases |bytes| - at
  {
    hide LineAt, FirstBreak;
    if at < |bytes| {
      var l := LineAt(enc, bytes, at);
      FindLastOpens(fmt, enc, bytes, at + l.length, RowStep(fmt, st, l), if Continues(fmt, st, l) then last else LastOpen(st, at));
    }
  }

  // ---------------------------------------------------------------------------
  // Splicing a re-read tail
  // ---------------------------------------------------------------------------

  /** The last record of an index of `bytes`, and the state in front of it. */
  function LastRecord(fmt: Format, enc: Encoding, bytes: seq<Byte>, from: nat): LastOpen {
    FindLast(fmt, enc, bytes, from, NOTHING, LastOpen(NOTHING, from))
  }

  /** The old rows without the provisional last one, and the rows of a scan from where it
      starts. */
  function SplicedRows(fmt: Format, enc: Encoding, rows: seq<Row>, bytes: seq<Byte>, from: nat): seq<Row> {
    if rows == [] then IndexedRows(fmt, enc, bytes, from)
    else if rows[|rows| - 1].offset < 0 then rows
    else
      var tail := IndexedRows(fmt, enc, bytes, rows[|rows| - 1].offset);
      if tail == [] then rows else rows[..|rows| - 1] + tail
  }

  /** The one way a tail scan goes wrong: behind an open record stands a line that matched
      the record-start pattern and, now that it grew, no longer does. */
  predicate StartLost(fmt: Format, enc: Encoding, was: seq<Byte>, now: seq<Byte>, from: nat) {
    var last := LastRecord(fmt, enc, was, from);
    last.before.rows != [] && last.before.open && last.offset < |was| && last.offset < |now|
    && IsStart(fmt, LineAt(enc, was, last.offset)) && !IsStart(fmt, LineAt(enc, now, last.offset))
  }

  /** Only a last line without its newline can lose its match. */
  lemma StartLostIsPartial(fmt: Format, enc: Encoding, was: seq<Byte>, now: seq<Byte>, from: nat)
    requires was <= now && StartLost(fmt, enc, was, now, from)
    ensures var last := LastRecord(fmt, enc, was, from);
            !LineAt(enc, was, last.offset).terminated && last.offset + LineAt(enc, was, last.offset).length == |was|
  {
    var last := LastRecord(fmt, enc, was, from);
    if LineAt(enc, was, last.offset).terminated { TerminatedLineSurvives(enc, was, now, last.offset); }
  }

  /** For append-only bytes, splicing the re-read tail equals one full index of the grown
      file exactly when no start was lost. */
  lemma SpliceEqualsIndex(fmt: Format, enc: Encoding, was: seq<Byte>, now: seq<Byte>, from: nat)
    requires was <= now
    ensures SplicedRows(fmt, enc, IndexedRows(fmt, enc, was, from), now, from) == IndexedRows(fmt, enc, now, from)
            <==> from >= |was| || !StartLost(fmt, enc, was, now, from)
  {
    hide Lines, RowFold, FindLast, LineAt, FirstBreak;
    var rows := IndexedRows(fmt, enc, was, from);
    if from >= |was| {
      RowFoldEnds(fmt, NOTHING, enc, was, from);
    } else {
      var last := LastRecord(fmt, enc, was, from);
      FindLastRight(fmt, enc, was, from, NOTHING, LastOpen(NOTHING, from));
      FindLastOpens(fmt, enc, was, from, NOTHING, LastOpen(NOTHING, from));
      GrowthReachesLast(fmt, enc, was, now, from, NOTHING, LastOpen(NOTHING, from), RowFold(fmt, NOTHING, Lines(enc, now, from)));
      LinesAscend(enc, now, last.offset);
      SpliceAtLast(fmt, last.before, Lines(enc, now, last.offset));
    }
  }

  lemma SpliceAtLast(fmt: Format, st: RowState, lines: seq<Line>)
    requires lines != [] && forall i :: 0 < i < |lines| ==> lines[i].offset > lines[0].offset
    ensures RowFold(fmt, NOTHING, lines).rows != []
    ensures RowFold(fmt, st, lines).rows == st.rows + RowFold(fmt, NOTHING, lines).rows <==> !Continues(fmt, st, lines[0])
  {
    FreshStartSplits(fmt, NOTHING, lines);
    if Continues(fmt, st, lines[0]) { ContinuationDiffers(fmt, st, lines); }
    else { FreshStartSplits(fmt, st, lines); }
  }

  /** Only the line "A" starts a record; a second "A" not yet followed by its newline does too, until the
      rest of its line turns out to be "AB". */
  const ONLY_A := Format(true, (content: seq<Byte>) => if content == [65] then Start(Info, "", "", 0) else NoStart)

  lemma StartLostHappens()
    ensures var was: seq<Byte> := [65, 10, 65];
            var now: seq<Byte> := [65, 10, 65, 66];
            was <= now && StartLost(ONLY_A, Utf8, was, now, 0)
            && SplicedRows(ONLY_A, Utf8, IndexedRows(ONLY_A, Utf8, was, 0), now, 0)
               != IndexedRows(ONLY_A, Utf8, now, 0)
  {
    var was: seq<Byte> := [65, 10, 65];
    var now: seq<Byte> := [65, 10, 65, 66];
    ExampleLines(was, now);
    SpliceEqualsIndex(ONLY_A, Utf8, was, now, 0);
    hide Lines, RowFold, LineAt, FirstBreak, SplicedRows, IndexedRows;
    var first := Line(0, 2, [65], true);
    var second := Line(2, 1, [65], false);
    var one := RowStep(ONLY_A, NOTHING, first);
    assert FindLast(ONLY_A, Utf8, was, 3, RowStep(ONLY_A, one, second), LastOpen(one, 2)) == LastOpen(one, 2);
    assert FindLast(ONLY_A, Utf8, was, 2, one, LastOpen(NOTHING, 0)) == LastOpen(one, 2);
    assert LastRecord(ONLY_A, Utf8, was, 0) == LastOpen(one, 2);
  }

  lemma ExampleLines(was: seq<Byte>, now: seq<Byte>)
    requires was == [65, 10, 65] && now == [65, 10, 65, 66]
    ensures LineAt(Utf8, was, 0) == Line(0, 2, [65], true) && LineAt(Utf8, was, 2) == Line(2, 1, [65], false)
    ensures LineAt(Utf8, now, 2) == Line(2, 2, [65, 66], false)
  {
    assert FirstBreak(Utf8, was, 2) == FirstBreak(Utf8, was, 3) == LineBreak(3, false);
    assert FirstBreak(Utf8, was, 0) == FirstBreak(Utf8, was, 1) == LineBreak(2, true);
    assert FirstBreak(Utf8, now, 2) == FirstBreak(Utf8, now, 3) == FirstBreak(Utf8, now, 4) == LineBreak(4, false);
  }

  // ---------------------------------------------------------------------------
  // Any history of growths
  // ---------------------------------------------------------------------------

  /** What the live index holds: records and the two tables their ids refer to. */
  datatype LiveIndex = LiveIndex(records: seq<Record>, loggers: seq<string>, threads: seq<string>) {
    ghost predicate Valid() {
      && ValidNames(loggers) && ValidNames(threads)
      && forall i :: 0 <= i < |records| ==> records[i].loggerId < |loggers| && records[i].threadId < |threads|
    }

    function Rows(): seq<Row> {
      Resolved(records, loggers, threads)
    }
  }

  function StartOf(idx: LiveIndex, from: nat): int {
    if idx.records == [] then from else idx.records[|idx.records| - 1].offset
  }

  /** One ingest: scan the tail into the live tables, replace the provisional record by the
      first scanned one, append the rest. */
  function Ingested(fmt: Format, enc: Encoding, idx: LiveIndex, bytes: seq<Byte>, from: nat): LiveIndex {
    if StartOf(idx, from) < 0 then idx
    else
      var tail := Scanned(fmt, enc, bytes, StartOf(idx, from), idx.loggers, idx.threads);
      if tail.records == [] then LiveIndex(idx.records, tail.loggers, tail.threads)
      else LiveIndex((if idx.records == [] then [] else idx.records[..|idx.records| - 1]) + tail.records, tail.loggers, tail.threads)
  }

  lemma ResolvedParts(a: seq<Record>, k: nat, b: seq<Record>, loggers: seq<string>, threads: seq<string>)
    requires k <= |a|
    ensures Resolved(a[..k] + b, loggers, threads) == Resolved(a, loggers, threads)[..k] + Resolved(b, loggers, threads)
  {
  }

  /** A scan by ids, its names resolved in the tables it leaves, is the scan by names. */
  lemma ScannedResolves(fmt: Format, enc: Encoding, bytes: seq<Byte>, from: nat, loggers: seq<string>, threads: seq<string>)
    requires ValidNames(loggers) && ValidNames(threads)
    ensures var tail := Scanned(fmt, enc, bytes, from, loggers, threads);
            WellFormed(tail) && loggers <= tail.loggers && threads <= tail.threads
            && Resolved(tail.records, tail.loggers, tail.threads) == IndexedRows(fmt, enc, bytes, from)
  {
    var st := ScanState([], -1, false, loggers, threads);
    FoldResolves(fmt, st, Lines(enc, bytes, from));
    assert RowStateOf(st) == NOTHING;
  }

  /** By name, an ingest is the splice of the rows. */
  lemma IngestedResolves(fmt: Format, enc: Encoding, idx: LiveIndex, bytes: seq<Byte>, from: nat)
    requires idx.Valid()
    ensures Ingested(fmt, enc, idx, bytes, from).Valid()
    ensures Ingested(fmt, enc, idx, bytes, from).Rows() == SplicedRows(fmt, enc, idx.Rows(), bytes, from)
  {
    hide Scanned, IndexedRows;
    var start := StartOf(idx, from);
    if start >= 0 {
      ScannedResolves(fmt, enc, bytes, start, idx.loggers, idx.threads);
      var tail := Scanned(fmt, enc, bytes, start, idx.loggers, idx.threads);
      ResolvedSurvives(idx.records, idx.loggers, idx.threads, tail.loggers, tail.threads);
      var k := if idx.records == [] then 0 else |idx.records| - 1;
      ResolvedParts(idx.records, k, tail.records, tail.loggers, tail.threads);
      assert idx.records == [] ==> idx.records[..k] + tail.records == [] + tail.records;
    }
  }

  function IngestedAll(fmt: Format, enc: Encoding, idx: LiveIndex, growths: seq<seq<Byte>>, from: nat): LiveIndex
    decreases growths
  {
    if growths == [] then idx else IngestedAll(fmt, enc, Ingested(fmt, enc, idx, growths[0], from), growths[1..], from)
  }

  /** Append-only growth in which no start is ever lost. */
  ghost predicate Grows(fmt: Format, enc: Encoding, was: seq<Byte>, growths: seq<seq<Byte>>, from: nat)
    decreases growths
  {
    growths == [] || (was <= growths[0] && (from >= |was| || !StartLost(fmt, enc, was, growths[0], from))
                      && Grows(fmt, enc, growths[0], growths[1..], from))
  }

  /** A log tailed through any sequence of growths holds, name for name, the records one
      full index of its final bytes holds. */
  lemma {:induction false} TailedEqualsIndexed(fmt: Format, enc: Encoding, idx: LiveIndex, was: seq<Byte>, growths: seq<seq<Byte>>, from: nat)
    requires idx.Valid() && idx.Rows() == IndexedRows(fmt, enc, was, from)
    requires Grows(fmt, enc, was, growths, from)
    ensures IngestedAll(fmt, enc, idx, growths, from).Rows()
            == IndexedRows(fmt, enc, if growths == [] then was else growths[|growths| - 1], from)
    decreases growths
  {
    if growths != [] {
      IngestedResolves(fmt, enc, idx, growths[0], from);
      SpliceEqualsIndex(fmt, enc, was, growths[0], from);
      TailedEqualsIndexed(fmt, enc, Ingested(fmt, enc, idx, growths[0], from), growths[0], growths[1..], from);
    }
  }

  // ---------------------------------------------------------------------------
  // Tiling
  // ---------------------------------------------------------------------------

  /** Where the row behind the `i`-th starts, or everything ends. */
  function NextOffset(rows: seq<Row>, i: nat, end: int): int {
    if i + 1 < |rows| then rows[i + 1].offset else end
  }

  /** Rows that start one behind the other, the first at `from`, each with the length up to the
      next one as 32 bits hold it. */
  ghost predicate RowsCover(rows: seq<Row>, from: int, end: int) {
    if rows == [] then from == end
    else rows[0].offset == from
         && forall i :: 0 <= i < |rows| ==> rows[i].offset < NextOffset(rows, i, end) && rows[i].length == Clamp(NextOffset(rows, i, end) - rows[i].offset)
  }

  /** Rows that cover [from, end) with no gap and no overlap. */
  ghost predicate RowsTile(rows: seq<Row>, from: int, end: int) {
    if rows == [] then from == end
    else rows[0].offset == from
         && forall i :: 0 <= i < |rows| ==> rows[i].length > 0 && rows[i].offset + rows[i].length == NextOffset(rows, i, end)
  }

  lemma {:induction false} FoldCovers(fmt: Format, enc: Encoding, bytes: seq<Byte>, from: nat, at: nat, st: RowState)
    requires from <= at <= |bytes| && RowsCover(st.rows, from, at)
    ensures RowsCover(RowFold(fmt, st, Lines(enc, bytes, at)).rows, from, |bytes|)
    decreases |bytes| - at
  {
    hide RowsCover, RowStep, RowFold, Lines, LineAt;
    if at < |bytes| {
      var l := LineAt(enc, bytes, at);
      RowFoldPeels(fmt, st, enc, bytes, at);
      StepCovers(fmt, from, at, st, l);
      FoldCovers(fmt, enc, bytes, from, at + l.length, RowStep(fmt, st, l));
    } else {
      RowFoldEnds(fmt, st, enc, bytes, at);
    }
  }

  lemma StepCovers(fmt: Format, from: int, at: int, st: RowState, l: Line)
    requires 0 <= from <= at && l.offset == at && l.length > 0
    requires RowsCover(st.rows, from, at)
    ensures RowsCover(RowStep(fmt, st, l).rows, from, at + l.length)
  {
    var rows, n := RowStep(fmt, st, l).rows, |st.rows|;
    forall i | 0 <= i < |rows|
      ensures rows[i].offset < NextOffset(rows, i, at + l.length)
              && rows[i].length == Clamp(NextOffset(rows, i, at + l.length) - rows[i].offset)
    {
      if i < n { assert rows[i].offset == st.rows[i].offset && st.rows[i].offset < NextOffset(st.rows, i, at); }
    }
  }

  /** Every file at all: each record is as long as the way to the next one, cut off where 32
      bits end. */
  lemma IndexCovers(fmt: Format, enc: Encoding, bytes: seq<Byte>, from: nat)
    requires from <= |bytes|
    ensures RowsCover(IndexedRows(fmt, enc, bytes, from), from, |bytes|)
  {
    FoldCovers(fmt, enc, bytes, from, from, NOTHING);
  }

  lemma {:induction false} OffsetsBetween(rows: seq<Row>, from: int, end: int, i: nat, j: nat)
    requires RowsCover(rows, from, end) && i <= j < |rows|
    ensures from <= rows[i].offset <= rows[j].offset < end && (i < j ==> rows[i].offset < rows[j].offset)
    decreases j - i
  {
    if i < j {
      OffsetsBetween(rows, from, end, i, j - 1);
      assert rows[j - 1].offset < NextOffset(rows, j - 1, end) == rows[j].offset;
      OffsetsBetween(rows, from, end, j, j);
    } else {
      FirstIsLeast(rows, from, end, i);
      LastIsGreatest(rows, from, end, i);
    }
  }

  lemma {:induction false} FirstIsLeast(rows: seq<Row>, from: int, end: int, i: nat)
    requires RowsCover(rows, from, end) && i < |rows|
    ensures from <= rows[i].offset
  {
    if i > 0 {
      FirstIsLeast(rows, from, end, i - 1);
      assert rows[i - 1].offset < NextOffset(rows, i - 1, end);
    }
  }

  lemma {:induction false} LastIsGreatest(rows: seq<Row>, from: int, end: int, i: nat)
    requires RowsCover(rows, from, end) && i < |rows|
    ensures rows[i].offset < end
    decreases |rows| - i
  {
    assert rows[i].offset < NextOffset(rows, i, end);
    if i + 1 < |rows| { LastIsGreatest(rows, from, end, i + 1); }
  }

  /** The records tile the file from the byte-order mark to the end exactly when none is longer
      than 32 bits hold; and none is when no length stands at the limit. */
  lemma IndexTiles(fmt: Format, enc: Encoding, bytes: seq<Byte>, from: nat)
    requires from <= |bytes|
    ensures var rows := IndexedRows(fmt, enc, bytes, from);
            && (RowsTile(rows, from, |bytes|)
                <==> forall i :: 0 <= i < |rows| ==> NextOffset(rows, i, |bytes|) - rows[i].offset <= MAX_LENGTH)
            && ((forall i :: 0 <= i < |rows| ==> rows[i].length < MAX_LENGTH) ==> RowsTile(rows, from, |bytes|))
  {
    hide IndexedRows;
    IndexCovers(fmt, enc, bytes, from);
  }

  // ---------------------------------------------------------------------------
  // The record-start rule, told of the lines
  // ---------------------------------------------------------------------------

  /** A line opens a record when it matches the record-start pattern, or when no line before it
      did: in front of the first match every line is a record of its own. */
  ghost predicate Opens(fmt: Format, lines: seq<Line>, i: nat)
    requires i < |lines|
  {
    IsStart(fmt, lines[i]) || forall j :: 0 <= j < i ==> !IsStart(fmt, lines[j])
  }

  /** The lines among the first `n` that open a record. */
  ghost function Openers(fmt: Format, lines: seq<Line>, n: nat): (os: seq<nat>)
    requires n <= |lines|
    ensures forall k :: 0 <= k < |os| ==> os[k] < n
  {
    if n == 0 then [] else Openers(fmt, lines, n - 1) + (if Opens(fmt, lines, n - 1) then [n - 1] else [])
  }

  /** How many bytes the lines [i, j) take. */
  function Bytes(lines: seq<Line>, i: nat, j: nat): int
    requires j <= |lines|
    decreases j
  {
    if j <= i then 0 else Bytes(lines, i, j - 1) + lines[j - 1].length
  }

  /** The record of the lines [i, j): the facts of the first, the number of lines and of bytes,
      each as far as it can be counted. */
  ghost predicate RecordOf(fmt: Format, lines: seq<Line>, row: Row, i: nat, j: nat)
    requires i < j <= |lines|
  {
    && row.offset == lines[i].offset
    && row.lineCount == (if j - i < 65535 then j - i else 65535)
    && row.length == (if Bytes(lines, i, j) < 0xFFFF_FFFF then Bytes(lines, i, j) else 0xFFFF_FFFF)
    && match fmt.Classify(lines[i])
       case Start(priority, logger, thread, timestamp) =>
         row.priority == priority && row.logger == logger && row.thread == thread && row.timestamp == timestamp
       case NoStart => row.priority == Unknown && row.logger == "" && row.thread == "" && row.timestamp == NO_TIMESTAMP
  }

  /** Where the record behind the `k`-th opens, or the lines end. */
  function NextOpener(os: seq<nat>, k: nat, n: nat): nat {
    if k + 1 < |os| then os[k + 1] else n
  }

  ghost predicate RecordsOf(fmt: Format, lines: seq<Line>, rows: seq<Row>, n: nat)
    requires n <= |lines|
  {
    var os := Openers(fmt, lines, n);
    |rows| == |os| && forall k :: 0 <= k < |os| ==> os[k] < NextOpener(os, k, n) <= n && RecordOf(fmt, lines, rows[k], os[k], NextOpener(os, k, n))
  }

  lemma {:induction false} RowFoldAppends(fmt: Format, st: RowState, lines: seq<Line>, l: Line)
    ensures RowFold(fmt, st, lines + [l]) == RowStep(fmt, RowFold(fmt, st, lines), l)
    decreases lines
  {
    if lines == [] {
      assert ([] + [l])[1..] == [];
    } else {
      assert (lines + [l])[1..] == lines[1..] + [l];
      RowFoldAppends(fmt, RowStep(fmt, st, lines[0]), lines[1..], l);
    }
  }

  /** The fold opens its records at exactly those lines and gives each the lines up to the next. */
  lemma {:induction false} FoldMeans(fmt: Format, lines: seq<Line>, n: nat)
    requires n <= |lines| && forall i :: 0 <= i < |lines| ==> lines[i].length > 0
    ensures var st := RowFold(fmt, NOTHING, lines[..n]);
            && RecordsOf(fmt, lines, st.rows, n) && (n > 0 ==> st.rows != [])
            && (st.open <==> exists j :: 0 <= j < n && IsStart(fmt, lines[j]))
    decreases n
  {
    if n > 0 {
      var m := n - 1;
      FoldMeans(fmt, lines, m);
      assert lines[..n] == lines[..m] + [lines[m]];
      RowFoldAppends(fmt, NOTHING, lines[..m], lines[m]);
      var st := RowFold(fmt, NOTHING, lines[..m]);
      hide RowFold;
      StepMeans(fmt, lines, st, m);
    }
  }

  lemma StepMeans(fmt: Format, lines: seq<Line>, st: RowState, m: nat)
    requires m < |lines| && (forall i :: 0 <= i < |lines| ==> lines[i].length > 0) && RecordsOf(fmt, lines, st.rows, m) && (m > 0 ==> st.rows != [])
    requires st.open <==> exists j :: 0 <= j < m && IsStart(fmt, lines[j])
    ensures var next := RowStep(fmt, st, lines[m]);
            && RecordsOf(fmt, lines, next.rows, m + 1) && next.rows != []
            && (next.open <==> exists j :: 0 <= j < m + 1 && IsStart(fmt, lines[j]))
  {
    var next := RowStep(fmt, st, lines[m]);
    var os, os' := Openers(fmt, lines, m), Openers(fmt, lines, m + 1);
    assert Continues(fmt, st, lines[m]) <==> !Opens(fmt, lines, m);
    if Opens(fmt, lines, m) {
      NewRecord(fmt, lines, m);
    } else {
      ExtendedRecord(fmt, lines, st.rows[|os| - 1], os[|os| - 1], m);
    }
    hide RecordOf, RowStep, Opens;
    if Opens(fmt, lines, m) { assert RowStep(fmt, st, lines[m]).rows == st.rows + [Opened(fmt, lines[m])] by { OpeningStep(fmt, st, lines[m]); } }
    else { assert next.rows == st.rows[..|os| - 1] + [ExtendedRow(st.rows[|os| - 1], lines[m].length)] by { ContinuingStep(fmt, st, lines[m]); } }
    forall k | 0 <= k < |os'| ensures os'[k] < NextOpener(os', k, m + 1) <= m + 1 && RecordOf(fmt, lines, next.rows[k], os'[k], NextOpener(os', k, m + 1)) {
      if k < |os| - 1 { assert NextOpener(os', k, m + 1) == NextOpener(os, k, m); }
    }
    assert next.open <==> st.open || IsStart(fmt, lines[m]) by { OpenAfter(fmt, st, lines[m]); }
  }

  lemma OpeningStep(fmt: Format, st: RowState, l: Line)
    requires !Continues(fmt, st, l)
    ensures RowStep(fmt, st, l).rows == st.rows + [Opened(fmt, l)]
  {
  }

  lemma ContinuingStep(fmt: Format, st: RowState, l: Line)
    requires Continues(fmt, st, l)
    ensures RowStep(fmt, st, l).rows == st.rows[..|st.rows| - 1] + [ExtendedRow(st.rows[|st.rows| - 1], l.length)]
  {
  }

  lemma OpenAfter(fmt: Format, st: RowState, l: Line)
    ensures RowStep(fmt, st, l).open <==> (st.rows != [] && st.open) || IsStart(fmt, l)
  {
  }

  lemma {:induction false} BytesPositive(lines: seq<Line>, i: nat, j: nat)
    requires j <= |lines| && forall k :: 0 <= k < |lines| ==> lines[k].length > 0
    ensures Bytes(lines, i, j) >= 0 && (i < j ==> Bytes(lines, i, j) > 0)
    decreases j
  {
    if i < j { BytesPositive(lines, i, j - 1); }
  }

  lemma NewRecord(fmt: Format, lines: seq<Line>, m: nat)
    requires m < |lines| && lines[m].length > 0
    ensures RecordOf(fmt, lines, Opened(fmt, lines[m]), m, m + 1)
  {
    assert Bytes(lines, m, m + 1) == Bytes(lines, m, m) + lines[m].length;
  }

  lemma ExtendedRecord(fmt: Format, lines: seq<Line>, row: Row, i: nat, m: nat)
    requires i < m < |lines| && (forall k :: 0 <= k < |lines| ==> lines[k].length > 0) && RecordOf(fmt, lines, row, i, m)
    ensures RecordOf(fmt, lines, ExtendedRow(row, lines[m].length), i, m + 1)
  {
    BytesPositive(lines, i, m);
    assert Bytes(lines, i, m + 1) == Bytes(lines, i, m) + lines[m].length;
  }

  /** The index of a file, told of its lines: a record opens at every line that matches and, in
      front of the first match, at every line; it carries the facts of the line that opens it and
      counts the lines up to the next, to 65535, and their bytes, to 32 bits. */
  lemma IndexedRowsMean(fmt: Format, enc: Encoding, bytes: seq<Byte>, from: nat)
    ensures RecordsOf(fmt, Lines(enc, bytes, from), IndexedRows(fmt, enc, bytes, from), |Lines(enc, bytes, from)|)
  {
    var lines := Lines(enc, bytes, from);
    LinesPositive(enc, bytes, from);
    FoldMeans(fmt, lines, |lines|);
    assert lines[..|lines|] == lines;
  }

  lemma {:induction false} LinesPositive(enc: Encoding, bytes: seq<Byte>, from: nat)
    ensures forall i :: 0 <= i < |Lines(enc, bytes, from)| ==> Lines(enc, bytes, from)[i].length > 0
    decreases |bytes| - from
  {
    if from < |bytes| { LinesPositive(enc, bytes, from + LineAt(enc, bytes, from).length); }
  }

  lemma {:induction false} AllOpen(fmt: Format, lines: seq<Line>, n: nat)
    requires n <= |lines| && forall i :: 0 <= i < |lines| ==> !IsStart(fmt, lines[i])
    ensures |Openers(fmt, lines, n)| == n && forall k :: 0 <= k < n ==> Openers(fmt, lines, n)[k] == k
  {
    if n > 0 {
      AllOpen(fmt, lines, n - 1);
      assert Opens(fmt, lines, n - 1);
    }
  }

  /** Without a format no line matches: every line is a record, of no priority. */
  lemma PlainTextIsLines(fmt: Format, enc: Encoding, bytes: seq<Byte>, from: nat)
    requires !fmt.haveFormat
    ensures var rows, lines := IndexedRows(fmt, enc, bytes, from), Lines(enc, bytes, from);
            |rows| == |lines| && forall i :: 0 <= i < |rows| ==> rows[i].offset == lines[i].offset && rows[i].lineCount == 1 && rows[i].priority == Unknown
  {
    var rows, lines := IndexedRows(fmt, enc, bytes, from), Lines(enc, bytes, from);
    IndexedRowsMean(fmt, enc, bytes, from);
    AllOpen(fmt, lines, |lines|);
    hide IndexedRows, Lines, Openers;
    forall i | 0 <= i < |rows| ensures rows[i].offset == lines[i].offset && rows[i].lineCount == 1 && rows[i].priority == Unknown {
      assert Openers(fmt, lines, |lines|)[i] == i;
      assert RecordOf(fmt, lines, rows[i], i, i + 1);
    }
  }
}
