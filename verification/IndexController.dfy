/** Streaming a scan to the view in batches while its last record is still growing. */
module IndexControllers {
  import opened Decoders
  import opened InternTables
  import opened Records
  import opened Indexers

  /** The worker's index at a flush point. */
  datatype Snapshot = Snapshot(records: seq<Record>, loggers: seq<string>, threads: seq<string>)

  datatype Batch = Batch(records: seq<Record>, newLoggers: seq<string>, newThreads: seq<string>, final: bool)

  function SnapshotOf(st: ScanState): Snapshot {
    Snapshot(st.records, st.loggers, st.threads)
  }

  /** How a scan's index may move between two flush points: every record but the last is
      settled, and the tables only grow. */
  ghost predicate Grew(a: Snapshot, b: Snapshot) {
    && |a.records| <= |b.records|
    && (forall i :: 0 <= i < |a.records| - 1 ==> a.records[i] == b.records[i])
    && a.loggers <= b.loggers && a.threads <= b.threads
  }

  /** The scan moves its index exactly so. */
  lemma {:induction false} ScanGrows(fmt: Format, st: ScanState, lines: seq<Line>)
    requires st.currentRecord == |st.records| - 1
    ensures var st' := Fold(fmt, st, lines);
            Grew(SnapshotOf(st), SnapshotOf(st')) && st'.currentRecord == |st'.records| - 1
    decreases lines
  {
    if lines != [] { ScanGrows(fmt, ProcessedLine(fmt, st, lines[0]), lines[1..]); }
  }

  /** What has been streamed so far; id 0 of each table is never streamed. */
  datatype Emitted = Emitted(records: nat, loggers: nat, threads: nat)

  const NOTHING_EMITTED := Emitted(0, 1, 1)

  function Upto(e: Emitted, idx: Snapshot, final: bool): int {
    if final then |idx.records| else if |idx.records| - 1 > e.records then |idx.records| - 1 else e.records
  }

  ghost predicate CanFlush(e: Emitted, idx: Snapshot) {
    e.records <= |idx.records| && e.loggers <= |idx.loggers| && e.threads <= |idx.threads|
  }

  function FlushedBatch(e: Emitted, idx: Snapshot, final: bool): Batch
    requires CanFlush(e, idx)
  {
    Batch(idx.records[e.records..Upto(e, idx, final)], idx.loggers[e.loggers..], idx.threads[e.threads..], final)
  }

  function AfterFlush(e: Emitted, idx: Snapshot, final: bool): Emitted {
    var upto := Upto(e, idx, final);
    Emitted(if upto > e.records then upto else e.records, |idx.loggers|, |idx.threads|)
  }

  class IndexWorker {
    var emittedRecords: nat
    var emittedLoggers: nat
    var emittedThreads: nat

    constructor ()
      ensures State() == NOTHING_EMITTED
    {
      emittedRecords, emittedLoggers, emittedThreads := 0, 1, 1;
    }

    function State(): Emitted
      reads this
    {
      Emitted(emittedRecords, emittedLoggers, emittedThreads)
    }

    /** The flush closure; a batch with nothing in it is sent only when it is the final one. */
    method Flush(idx: Snapshot, final: bool) returns (batch: Batch, sent: bool)
      requires CanFlush(State(), idx)
      modifies this
      ensures batch == FlushedBatch(old(State()), idx, final) && State() == AfterFlush(old(State()), idx, final)
      ensures sent <==> final || batch.records != [] || batch.newLoggers != [] || batch.newThreads != []
    {
      var n := |idx.records|;
      var upto := if final then n else if n - 1 > emittedRecords then n - 1 else emittedRecords;
      var newLoggers, newThreads, records := [], [], [];
      var i := emittedLoggers;
      while i < |idx.loggers|
        invariant emittedLoggers <= i <= |idx.loggers| && newLoggers == idx.loggers[emittedLoggers..i]
      {
        newLoggers := newLoggers + [idx.loggers[i]];
        i := i + 1;
      }
      i := emittedThreads;
      while i < |idx.threads|
        invariant emittedThreads <= i <= |idx.threads| && newThreads == idx.threads[emittedThreads..i]
      {
        newThreads := newThreads + [idx.threads[i]];
        i := i + 1;
      }
      i := emittedRecords;
      while i < upto
        invariant emittedRecords <= i && (i <= upto || i == emittedRecords) && records == idx.records[emittedRecords..i]
      {
        records := records + [idx.records[i]];
        i := i + 1;
      }
      emittedLoggers, emittedThreads := |idx.loggers|, |idx.threads|;
      if upto > emittedRecords { emittedRecords := upto; }
      batch := Batch(records, newLoggers, newThreads, final);
      sent := records != [] || newLoggers != [] || newThreads != [] || final;
    }
  }

  /** The receiving side: records held back, names interned at once. */
  datatype Received = Received(pending: seq<Record>, loggers: seq<string>, threads: seq<string>)

  const NOTHING_RECEIVED := Received([], [""], [""])

  function AfterBatch(r: Received, b: Batch): Received {
    Received(r.pending + b.records, InternedAll(r.loggers, b.newLoggers), InternedAll(r.threads, b.newThreads))
  }

  class IndexController {
    const loggers: InternTable
    const threads: InternTable
    var records: seq<Record>
    var pending: seq<Record>

    constructor ()
      ensures fresh(loggers) && fresh(threads) && Valid()
      ensures State() == NOTHING_RECEIVED && records == []
    {
      loggers := new InternTable();
      threads := new InternTable();
      records, pending := [], [];
    }

    ghost predicate Valid()
      reads this, loggers, threads
    {
      loggers != threads && loggers.Valid() && threads.Valid()
    }

    function State(): Received
      reads this, loggers, threads
    {
      Received(pending, loggers.names, threads.names)
    }

    method OnBatch(batch: Batch)
      requires Valid()
      modifies this`pending, loggers, threads
      ensures Valid() && State() == AfterBatch(old(State()), batch)
    {
      InternEach(loggers, batch.newLoggers);
      InternEach(threads, batch.newThreads);
      pending := pending + batch.records;
    }

    static method InternEach(table: InternTable, names: seq<string>)
      requires table.Valid()
      modifies table
      ensures table.Valid() && table.names == InternedAll(old(table.names), names)
    {
      var i := 0;
      assert names[0..] == names;
      while i < |names|
        invariant 0 <= i <= |names| && table.Valid()
        invariant InternedAll(table.names, names[i..]) == InternedAll(old(table.names), names)
      {
        assert names[i..][1..] == names[i + 1..];
        var id := table.Intern(names[i]);
        i := i + 1;
      }
    }

    /** Publishes everything held, completed scan or cancelled one alike. */
    method OnFinished()
      modifies this
      ensures records == old(records) + old(pending) && pending == []
    {
      records := records + pending;
      pending := [];
    }
  }

  // ---------------------------------------------------------------------------
  // The stream rebuilds the index
  // ---------------------------------------------------------------------------

  ghost predicate InStep(e: Emitted, r: Received, idx: Snapshot) {
    && e.records <= |idx.records| && (e.records > 0 ==> e.records < |idx.records|)
    && r.pending == idx.records[..e.records]
    && r.loggers == idx.loggers && e.loggers == |idx.loggers|
    && r.threads == idx.threads && e.threads == |idx.threads|
    && ValidNames(idx.loggers) && ValidNames(idx.threads)
  }

  lemma FlushKeepsStep(e: Emitted, r: Received, was: Snapshot, idx: Snapshot, final: bool)
    requires InStep(e, r, was) && Grew(was, idx) && ValidNames(idx.loggers) && ValidNames(idx.threads)
    ensures CanFlush(e, idx)
    ensures var r' := AfterBatch(r, FlushedBatch(e, idx, final));
            r'.loggers == idx.loggers && r'.threads == idx.threads
            && (if final then r'.pending == idx.records else InStep(AfterFlush(e, idx, final), r', idx))
  {
    assert was.records[..e.records] == idx.records[..e.records];
    assert was.loggers == idx.loggers[..e.loggers] && was.threads == idx.threads[..e.threads];
    StreamedNamesRebuild(idx.loggers, e.loggers);
    StreamedNamesRebuild(idx.threads, e.threads);
    var upto := Upto(e, idx, final);
    assert idx.records[..e.records] + idx.records[e.records..upto] == idx.records[..upto];
  }

  ghost predicate Stream(was: Snapshot, points: seq<Snapshot>)
    decreases points
  {
    points == [] || (Grew(was, points[0]) && ValidNames(points[0].loggers) && ValidNames(points[0].threads)
                     && Stream(points[0], points[1..]))
  }

  /** Everything received over a stream whose last flush point is the final one. */
  function ReceivedOver(e: Emitted, r: Received, points: seq<Snapshot>): Received
    decreases points
  {
    if points == [] || !(e.records <= |points[0].records| && e.loggers <= |points[0].loggers| && e.threads <= |points[0].threads|) then r
    else
      var final := |points| == 1;
      ReceivedOver(AfterFlush(e, points[0], final), AfterBatch(r, FlushedBatch(e, points[0], final)), points[1..])
  }

  /** Wherever the flush points fall, the batches rebuild the worker's final record list and
      both tables, id for id. */
  lemma {:induction false} StreamRebuilds(e: Emitted, r: Received, was: Snapshot, points: seq<Snapshot>)
    requires points != [] && InStep(e, r, was) && Stream(was, points)
    ensures var last := points[|points| - 1];
            ReceivedOver(e, r, points) == Received(last.records, last.loggers, last.threads)
    decreases points
  {
    hide FlushedBatch, AfterBatch, AfterFlush, Grew, ValidNames;
    FlushKeepsStep(e, r, was, points[0], |points| == 1);
    if |points| > 1 {
      StreamRebuilds(AfterFlush(e, points[0], false), AfterBatch(r, FlushedBatch(e, points[0], false)), points[0], points[1..]);
    }
  }

  /** Nothing is delivered before it is settled: a record of a non-final batch is the record
      every later flush point has at its place. */
  lemma DeliveredIsSettled(e: Emitted, idx: Snapshot, later: Snapshot, k: nat)
    requires CanFlush(e, idx) && Grew(idx, later) && k < |FlushedBatch(e, idx, false).records|
    ensures e.records + k < |later.records| && FlushedBatch(e, idx, false).records[k] == later.records[e.records + k]
  {
  }

  /** And nothing settled is held back: what a flush leaves unsent is the last record at most, and
      of the final one nothing. */
  lemma FlushSendsSettled(e: Emitted, idx: Snapshot, final: bool)
    requires CanFlush(e, idx)
    ensures AfterFlush(e, idx, final).records == if final then |idx.records| else if e.records == |idx.records| then e.records else |idx.records| - 1
    ensures |FlushedBatch(e, idx, final).records| == AfterFlush(e, idx, final).records - e.records
  {
  }

  /** A batch that is not sent carries nothing. */
  lemma UnsentIsEmpty(r: Received, b: Batch)
    requires b.records == [] && b.newLoggers == [] && b.newThreads == []
    ensures AfterBatch(r, b) == r
  {
    assert r.pending + [] == r.pending;
  }

  // ---------------------------------------------------------------------------
  // A whole scan, delivered
  // ---------------------------------------------------------------------------

  const START := ScanState([], -1, false, [""], [""])

  /** The scan's state at each flush point: it folds one chunk of lines after the other. */
  function FlushPoints(fmt: Format, st: ScanState, chunks: seq<seq<Line>>): (points: seq<Snapshot>)
    ensures |points| == |chunks|
    decreases chunks
  {
    if chunks == [] then []
    else
      var next := Fold(fmt, st, chunks[0]);
      [SnapshotOf(next)] + FlushPoints(fmt, next, chunks[1..])
  }

  function Joined(chunks: seq<seq<Line>>): seq<Line>
    decreases chunks
  {
    if chunks == [] then [] else chunks[0] + Joined(chunks[1..])
  }

  lemma {:induction false} FoldKeepsNames(fmt: Format, st: ScanState, lines: seq<Line>)
    requires ValidNames(st.loggers) && ValidNames(st.threads)
    ensures ValidNames(Fold(fmt, st, lines).loggers) && ValidNames(Fold(fmt, st, lines).threads)
    decreases lines
  {
    if lines != [] {
      match fmt.Classify(lines[0]) {
        case Start(_, logger, thread, _) => InternedKeepsIds(st.loggers, logger); InternedKeepsIds(st.threads, thread);
        case NoStart =>
      }
      FoldKeepsNames(fmt, ProcessedLine(fmt, st, lines[0]), lines[1..]);
    }
  }

  /** The flush points of a scan are a stream, and end with the fold of all its lines. */
  lemma {:induction false} ScanStreams(fmt: Format, st: ScanState, chunks: seq<seq<Line>>)
    requires st.currentRecord == |st.records| - 1 && ValidNames(st.loggers) && ValidNames(st.threads)
    ensures var points := FlushPoints(fmt, st, chunks);
            Stream(SnapshotOf(st), points)
            && (chunks != [] ==> points[|points| - 1] == SnapshotOf(Fold(fmt, st, Joined(chunks))))
    decreases chunks
  {
    if chunks != [] {
      var next := Fold(fmt, st, chunks[0]);
      ScanGrows(fmt, st, chunks[0]);
      FoldKeepsNames(fmt, st, chunks[0]);
      ScanStreams(fmt, next, chunks[1..]);
      FoldAppends(fmt, st, chunks[0], Joined(chunks[1..]));
    }
  }

  /** Worker and receiver over a whole scan. However its lines fall into flushes, and wherever
      a cancelled scan stopped, what is published is the index of the lines scanned: every
      record, and both tables, id for id. */
  method ScanDelivered(worker: IndexWorker, controller: IndexController, fmt: Format, chunks: seq<seq<Line>>)
    requires worker.State() == NOTHING_EMITTED && controller.Valid() && controller.State() == NOTHING_RECEIVED && controller.records == []
    requires chunks != []
    modifies worker, controller, controller.loggers, controller.threads
    ensures controller.Valid() && controller.pending == []
    ensures var scanned := Fold(fmt, START, Joined(chunks));
            && controller.records == scanned.records
            && controller.loggers.names == scanned.loggers && controller.threads.names == scanned.threads
  {
    var points := FlushPoints(fmt, START, chunks);
    ScanStreams(fmt, START, chunks);
    Deliver(worker, controller, points);
    controller.OnFinished();
  }

  /** Every flush that is sent is received; one that is not would have changed nothing. */
  method Deliver(worker: IndexWorker, controller: IndexController, points: seq<Snapshot>)
    requires worker.State() == NOTHING_EMITTED && controller.Valid() && controller.State() == NOTHING_RECEIVED
    requires points != [] && Stream(SnapshotOf(START), points)
    modifies worker, controller`pending, controller.loggers, controller.threads
    ensures controller.Valid()
    ensures var last := points[|points| - 1];
            controller.State() == Received(last.records, last.loggers, last.threads)
  {
    hide Grew, ValidNames, FlushedBatch, AfterBatch, AfterFlush;
    var i := 0;
    ghost var was := SnapshotOf(START);
    StartInStep();
    assert points[0..] == points;
    while i < |points|
      invariant 0 <= i <= |points| && controller.Valid()
      invariant i < |points| ==> InStep(worker.State(), controller.State(), was) && Stream(was, points[i..])
      invariant i == |points| ==> controller.State() == Received(points[i - 1].records, points[i - 1].loggers, points[i - 1].threads)
    {
      ghost var r := controller.State();
      assert points[i..][0] == points[i] && points[i..][1..] == points[i + 1..];
      FlushKeepsStep(worker.State(), r, was, points[i], i == |points| - 1);
      var batch, sent := worker.Flush(points[i], i == |points| - 1);
      if sent { controller.OnBatch(batch); } else { UnsentIsEmpty(r, batch); }
      was := points[i];
      i := i + 1;
    }
  }

  lemma StartInStep()
    ensures InStep(NOTHING_EMITTED, NOTHING_RECEIVED, SnapshotOf(START))
  {
  }
}
