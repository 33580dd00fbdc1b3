/** One open log: its index, its run list, its filter and the visible subset. */
module Documents {
  import opened Records
  import opened Filter
  import opened RecordIndexes
  import opened FilteredIndexes
  import opened ContextEmitter
  import opened LiveView
  import opened Runs

  /** Everything that decides a record's place in the view. */
  datatype ViewConfig = ViewConfig(bounds: Bounds, filters: FilterSet, message: Record -> string) {
    predicate InContextStream(r: Record) {
      InRunBound(bounds, r) && filters.AcceptsIntegerAxes(r)
    }

    predicate MatchesTextAxis(r: Record) {
      if !filters.text.Active() then true else filters.AcceptsText(message(r))
    }

    predicate AcceptsInView(r: Record) {
      InRunBound(bounds, r) && filters.Accepts(r, message)
    }
  }

  /** The view predicate is exactly its two halves, so the emitter's "match" is "accepted". */
  lemma ViewPredicateSplits(c: ViewConfig, r: Record)
    ensures c.AcceptsInView(r) <==> c.InContextStream(r) && c.MatchesTextAxis(r)
  {
  }

  function FlagsOf(records: seq<Record>, c: ViewConfig): seq<RowFlags> {
    seq(|records|, i requires 0 <= i < |records| => RowFlags(c.InContextStream(records[i]), c.MatchesTextAxis(records[i])))
  }

  /** The list of every row, none of them context. */
  function AllRows(n: nat): seq<Emitted> {
    seq(n, i => Emitted(i, false))
  }

  /** A search that every row passes lists every row. */
  lemma {:induction false} AllPassAllShown(s: seq<RowFlags>, k: nat, before: nat, after: nat)
    requires k <= |s| && forall i :: 0 <= i < |s| ==> s[i].inBound && s[i].matches
    ensures VisibleBelow(s, |s|, k, before, after) == AllRows(k)
  {
    if k > 0 {
      AllPassAllShown(s, k - 1, before, after);
      assert Visible(s, |s|, k - 1, before, after);
    }
  }

  /** With no run bound and every axis off the view is every record. */
  lemma UnfilteredShowsAll(c: ViewConfig, records: seq<Record>, before: nat, after: nat)
    requires !c.bounds.restricted && EveryAxisOff(c.filters)
    ensures forall i :: 0 <= i < |records| ==> c.AcceptsInView(records[i])
    ensures AllRows(|records|) == Widened(FlagsOf(records, c), before, after)
  {
    var s := FlagsOf(records, c);
    forall i | 0 <= i < |records| ensures c.AcceptsInView(records[i]) && s[i].inBound && s[i].matches {
      OffAcceptsAll(c.filters, records[i], c.message);
      ViewPredicateSplits(c, records[i]);
    }
    AllPassAllShown(s, |s|, before, after);
  }

  ghost predicate OffsetsAscend(records: seq<Record>) {
    (forall i, j :: 0 <= i < j < |records| ==> records[i].offset < records[j].offset)
    && forall i :: 0 <= i < |records| ==> records[i].offset < MAX_OFFSET
  }

  class Document {
    const idx: RecordIndex
    const filtered: FilteredIndex
    const message: Record -> string
    const marker: Marker
    var runStartActive: bool
    var filters: FilterSet
    var contextBefore: nat
    var contextAfter: nat
    var runs: seq<Run>
    var selectedRun: int
    var followLastRun: bool
    var bounds: Bounds
    var runStatsMemos: seq<StatsMemo>
    var fileStatsMemo: StatsMemo
    var runBases: seq<Baseline>
    var fileBase: Baseline
    var runHint: int

    constructor (message: Record -> string, marker: Marker, filters: FilterSet)
      ensures fresh(idx) && fresh(filtered) && fresh(filtered.compact)
      ensures Valid() && idx.records == [] && !filtered.active
      ensures this.message == message && this.marker == marker && this.filters == filters
      ensures MemosSound()
    {
      var index := new RecordIndex();
      var subset := new FilteredIndex(index);
      this.idx := index;
      this.filtered := subset;
      this.message := message;
      this.marker := marker;
      this.filters := filters;
      runStartActive := false;
      contextBefore, contextAfter := 0, 0;
      runs, selectedRun, followLastRun := [], -1, true;
      bounds := Bounds(false, -0x8000_0000_0000_0000, MAX_OFFSET);
      runStatsMemos, fileStatsMemo := [], NO_MEMO;
      runBases, fileBase, runHint := [], NO_BASE, -1;
    }

    ghost predicate Valid()
      reads this, filtered, filtered.compact, idx
    {
      && filtered.Valid() && filtered.source == idx && filtered.compact != idx
      && -1 <= selectedRun < |runs|
      && bounds == ViewBounds(runStartActive, selectedRun, runs)
      && (!runStartActive ==> runs == []) && Shaped(runs, |idx.records|)
      && OffsetsAscend(idx.records)
    }

    function Config(): ViewConfig
      reads this
    {
      ViewConfig(bounds, filters, message)
    }

    function Flags(): seq<RowFlags>
      reads this, idx
    {
      FlagsOf(idx.records, Config())
    }

    /** The materialised subset is what a search of the index as it stands would list. */
    ghost predicate ViewIsFresh()
      reads this, filtered, filtered.compact, idx
      requires |filtered.visible| == |filtered.context|
    {
      && filtered.View() == Widened(Flags(), contextBefore, contextAfter)
      && Copies(idx.records, filtered.visible, filtered.compact.records)
      && filtered.compact.SumsFresh()
    }

    /** The materialised subset lists rows of the index, ascending, with copies of their records:
        what a tick needs, whatever filter built it. */
    ghost predicate ViewIsSane()
      reads this, filtered, filtered.compact, idx
      requires |filtered.visible| == |filtered.context|
    {
      && Sane(filtered.View(), |idx.records|)
      && Copies(idx.records, filtered.visible, filtered.compact.records)
      && filtered.compact.SumsFresh()
    }

    lemma FreshIsSane()
      requires |filtered.visible| == |filtered.context| && ViewIsFresh()
      ensures ViewIsSane()
    {
      VisibleBelowExact(Flags(), |Flags()|, |Flags()|, contextBefore, contextAfter);
    }

    method ContextWindowStart(row: int, before: int) returns (start: int)
      requires row <= |idx.records|
      ensures start == WindowStart(Flags(), row, before)
      ensures before <= 0 ==> start == if row < 0 then 0 else row
    {
      if before <= 0 {
        return if row < 0 then 0 else row;
      }
      var need := before;
      var r := row - 1;
      while r >= 0
        invariant -1 <= r || row < 0
        invariant r < |idx.records| && need > 0
        invariant WindowStart(Flags(), row, before) == WalkBack(Flags(), r, need)
        decreases r
      {
        if Config().InContextStream(idx.records[r]) {
          need := need - 1;
          if need == 0 { break; }
        }
        r := r - 1;
      }
      start := if r < 0 then 0 else r;
    }

    /** The one-shot recomputation of the subset. Without one every record is in the view, and
        the view that lists them all is the fresh one. */
    method ApplyFilters()
      requires Valid()
      modifies filtered, filtered.compact
      ensures Valid()
      ensures idx.records == old(idx.records) && idx.blockSums == old(idx.blockSums)
      ensures filtered.active <==> bounds.restricted || !EveryAxisOff(filters)
      ensures filtered.active ==> ViewIsFresh()
      ensures !filtered.active ==>
                (forall i :: 0 <= i < |idx.records| ==> Config().AcceptsInView(idx.records[i]))
                && AllRows(|idx.records|) == Widened(Flags(), contextBefore, contextAfter)
    {
      if !bounds.restricted && !filters.AnyActive() {
        filtered.Clear();
        UnfilteredShowsAll(Config(), idx.records, contextBefore, contextAfter);
        return;
      }
      if !bounds.restricted { assert !EveryAxisOff(filters) by { OffIsInactive(filters); } }
      var rows, isContext := SearchFromScratch(FlagsOf(idx.records, Config()), contextBefore, contextAfter);
      filtered.SetVisible(rows, isContext);
    }

    /** The emitter over every row, gathered into the two parallel vectors. */
    static method SearchFromScratch(flags: seq<RowFlags>, before: nat, after: nat) returns (rows: seq<int>, isContext: seq<bool>)
      ensures |rows| == |isContext| && Zip(rows, isContext) == Widened(flags, before, after)
      ensures forall i :: 0 <= i < |rows| ==> 0 <= rows[i] < |flags|
    {
      var st, out := EmitWithContext(flags, 0, |flags| - 1, before, after, FRESH);
      OneShotIsWidened(flags, before, after);
      VisibleBelowExact(flags, |flags|, |flags|, before, after);
      rows := seq(|out|, i requires 0 <= i < |out| => out[i].row);
      isContext := seq(|out|, i requires 0 <= i < |out| => out[i].isContext);
      forall i | 0 <= i < |rows| ensures 0 <= rows[i] < |flags| {
        assert out[i] in out;
      }
      assert Zip(rows, isContext) == out;
    }

    // -------------------------------------------------------------------------
    // Runs
    // -------------------------------------------------------------------------

    function LastRunIndex(): int
      reads this
    {
      if runs == [] then -1 else |runs| - 1
    }

    method RecomputeViewBounds()
      modifies this`bounds
      ensures bounds == ViewBounds(runStartActive, selectedRun, runs)
    {
      bounds := Bounds(false, -0x8000_0000_0000_0000, MAX_OFFSET);
      if !runStartActive || selectedRun < 0 || selectedRun >= |runs| { return; }
      var start := runs[selectedRun].startOffset;
      var end := if selectedRun + 1 < |runs| then runs[selectedRun + 1].startOffset else MAX_OFFSET;
      bounds := Bounds(true, start, end);
    }

    /** Full detection over the index. A marker that is not configured finds no run. */
    method DetectRuns()
      requires -1 <= selectedRun
      modifies this
      ensures runs == if runStartActive then DetectedRuns(marker, idx.records) else []
      ensures selectedRun == if followLastRun || old(selectedRun) >= |runs| then |runs| - 1 else old(selectedRun)
      ensures -1 <= selectedRun < |runs|
      ensures bounds == ViewBounds(runStartActive, selectedRun, runs)
      ensures AllMemos() == NO_MEMOS && MemosSound()
      ensures runStartActive == old(runStartActive) && filters == old(filters) && followLastRun == old(followLastRun)
      ensures contextBefore == old(contextBefore) && contextAfter == old(contextAfter)
    {
      hide Sound, DetectedRuns, ViewBounds;
      InvalidateRunMemos();
      runs := [];
      if runStartActive { runs := FindRuns(); }
      if followLastRun || selectedRun >= |runs| {
        selectedRun := if runs == [] then -1 else |runs| - 1;
      }
      RecomputeViewBounds();
      if runStartActive { DetectedIsShaped(marker, idx.records); }
      NoMemosAreSound(runs, idx.records);
    }

    method FindRuns() returns (found: seq<Run>)
      ensures found == DetectedRuns(marker, idx.records)
    {
      found := [];
      var firstMarker := -1;
      var i := 0;
      while i < |idx.records|
        invariant 0 <= i <= |idx.records|
        invariant found == RunsAfter(marker, idx.records, [], 0, i)
        invariant firstMarker < 0 <==> found == []
      {
        if marker.isStart(idx.records[i]) {
          if firstMarker < 0 {
            firstMarker := i;
            if i > 0 { found := found + [RunAt(marker, idx.records, 0, true)]; }
          }
          found := found + [RunAt(marker, idx.records, i, false)];
        }
        i := i + 1;
      }
    }

    /** Drops every memo; none is then wrong. */
    method InvalidateRunMemos()
      modifies this`runStatsMemos, this`fileStatsMemo, this`runBases, this`fileBase, this`runHint
      ensures AllMemos() == NO_MEMOS
    {
      runStatsMemos, fileStatsMemo := [], NO_MEMO;
      runBases, fileBase, runHint := [], NO_BASE, -1;
    }

    function AllMemos(): Memos
      reads this
    {
      Memos(runStatsMemos, fileStatsMemo, runBases, fileBase)
    }

    /** Every memo remembers what the records it has seen still say. */
    ghost predicate MemosSound()
      reads this, idx
    {
      Sound(AllMemos(), runs, idx.records)
    }

    /** Extends the run list over records past `oldRecordCount`; `changed` says it grew. */
    method UpdateRunsAfterAppend(oldRecordCount: nat) returns (changed: bool)
      requires oldRecordCount <= |idx.records|
      requires bounds == ViewBounds(runStartActive, selectedRun, runs)
      modifies this`runs, this`bounds
      ensures runs == if runStartActive then RunsAfter(marker, idx.records, old(runs), oldRecordCount, |idx.records|) else old(runs)
      ensures changed <==> runs != old(runs)
      ensures bounds == ViewBounds(runStartActive, selectedRun, runs)
    {
      changed := false;
      if !runStartActive { return; }
      var found := runs;
      var i := oldRecordCount;
      while i < |idx.records|
        invariant oldRecordCount <= i <= |idx.records|
        invariant found == RunsAfter(marker, idx.records, old(runs), oldRecordCount, i)
        invariant |found| >= |old(runs)| && (changed <==> |found| > |old(runs)|)
        invariant !changed ==> found == old(runs)
      {
        if marker.isStart(idx.records[i]) {
          if found == [] && i > 0 { found := found + [RunAt(marker, idx.records, 0, true)]; }
          found := found + [RunAt(marker, idx.records, i, false)];
          changed := true;
        }
        i := i + 1;
      }
      runs := found;
      if changed { RecomputeViewBounds(); }
    }

    /** Selects a run, or none. Choosing the newest turns following on, choosing any other off. */
    method SelectRun(index: int)
      requires Valid()
      modifies this`selectedRun, this`followLastRun, this`bounds
      ensures Valid()
      ensures selectedRun == if 0 <= index < |runs| then index else -1
      ensures followLastRun <==> 0 <= index && index == |runs| - 1
    {
      selectedRun := if 0 <= index < |runs| then index else -1;
      followLastRun := selectedRun >= 0 && selectedRun == LastRunIndex();
      RecomputeViewBounds();
    }

    /** Folds [from, end) into a memo: on from its cursor, or afresh when that is out of range. */
    method FoldStats(memo: StatsMemo, from: nat, end: nat) returns (done: StatsMemo)
      requires from <= end <= |idx.records|
      ensures done == StatsMemo(Resumed(memo, idx.records, from, end), end)
      ensures MemoFor(memo, idx.records, from) ==> done.stats == StatsOf(idx.records, from, end) && MemoFor(done, idx.records, from)
    {
      done := memo;
      if done.scanned < from || done.scanned > end {
        done := StatsMemo(NO_STATS, from);
      }
      ghost var start := done;
      while done.scanned < end
        invariant from <= start.scanned <= done.scanned <= end
        invariant done.stats == FoldOn(start.stats, idx.records, start.scanned, done.scanned)
        decreases end - done.scanned
      {
        done := StatsMemo(StatsStep(done.stats, idx.records[done.scanned]), done.scanned + 1);
      }
      if MemoFor(memo, idx.records, from) { ResumedIsFresh(memo, idx.records, from, end); }
    }

    /** The statistics of a run: what its memo, resumed, answers; the fresh fold when the memos
        are sound, which asking leaves them. */
    method RunStatsOf(i: int) returns (st: RunStats)
      requires Shaped(runs, |idx.records|)
      modifies this`runStatsMemos
      ensures st == if 0 <= i < |runs| then Resumed(MemoAt(old(runStatsMemos), i), idx.records, runs[i].startRecord, RunEnd(runs, i, |idx.records|))
                    else NO_STATS
      ensures old(MemosSound()) ==>
                MemosSound()
                && (0 <= i < |runs| ==> st == StatsOf(idx.records, runs[i].startRecord, RunEnd(runs, i, |idx.records|)))
    {
      if i < 0 || i >= |runs| { return NO_STATS; }
      if |runStatsMemos| != |runs| {
        runStatsMemos := Sized(runStatsMemos, |runs|, NO_MEMO);
      }
      var from := runs[i].startRecord;
      var end := if i + 1 < |runs| then runs[i + 1].startRecord else |idx.records|;
      var memo := FoldStats(runStatsMemos[i], from, end);
      runStatsMemos := runStatsMemos[i := memo];
      st := memo.stats;
    }

    method FileStats() returns (st: RunStats)
      modifies this`fileStatsMemo
      ensures st == Resumed(old(fileStatsMemo), idx.records, 0, |idx.records|)
      ensures old(MemosSound()) ==> MemosSound() && st == StatsOf(idx.records, 0, |idx.records|)
    {
      fileStatsMemo := FoldStats(fileStatsMemo, 0, |idx.records|);
      st := fileStatsMemo.stats;
    }

    /** The first timestamp of [from, end), resuming where the last attempt gave up. */
    method ResolveBaseline(b0: Baseline, from: nat, end: nat) returns (b: Baseline, ts: int)
      requires from <= end <= |idx.records|
      ensures b.ts == ts
      ensures ts == if b0.ts != NO_TIMESTAMP then b0.ts
                    else TimestampFrom(idx.records, if b0.scanned < 0 then from else b0.scanned, end)
      ensures BaselineFor(b0, idx.records, from, end) ==>
                BaselineFor(b, idx.records, from, end) && ts == TimestampFrom(idx.records, from, end)
    {
      b := b0;
      if b.ts != NO_TIMESTAMP { return b, b.ts; }
      if b.scanned < 0 { b := b.(scanned := from); }
      ghost var at := b.scanned;
      ghost var sound := BaselineFor(b0, idx.records, from, end);
      if sound { TimestampFromSkips(idx.records, from, at, end); }
      while b.scanned < end
        invariant 0 <= at <= b.scanned && (b.scanned <= end || b.scanned == at) && b.ts == NO_TIMESTAMP
        invariant TimestampFrom(idx.records, at, end) == TimestampFrom(idx.records, b.scanned, end)
        decreases end - b.scanned
      {
        var t := idx.records[b.scanned].timestamp;
        if t != NO_TIMESTAMP {
          b := b.(ts := t);
          return b, t;
        }
        b := b.(scanned := b.scanned + 1);
      }
      ts := NO_TIMESTAMP;
    }

    /** The last run starting at or before a row. */
    method RunOfRow(row: nat) returns (i: int)
      requires Shaped(runs, |idx.records|)
      ensures -1 <= i < |runs|
      ensures forall k :: 0 <= k <= i ==> runs[k].startRecord <= row
      ensures forall k :: i < k < |runs| ==> row < runs[k].startRecord
    {
      var lo, hi := 0, |runs|;
      while lo < hi
        invariant 0 <= lo <= hi <= |runs|
        invariant forall k :: 0 <= k < lo ==> runs[k].startRecord <= row
        invariant forall k :: hi <= k < |runs| ==> row < runs[k].startRecord
      {
        var mid := (lo + hi) / 2;
        if runs[mid].startRecord <= row { lo := mid + 1; } else { hi := mid; }
      }
      return lo - 1;
    }

    /** The run of a row, by the hint of the last answer or by the search. */
    method FindRun(row: nat) returns (i: int)
      requires Shaped(runs, |idx.records|) && row < |idx.records| && runs != []
      modifies this`runHint
      ensures -1 <= i < |runs|
      ensures forall k :: 0 <= k < |runs| && runs[k].startRecord <= row < RunEnd(runs, k, |idx.records|) ==> k == i
    {
      i := runHint;
      if i < 0 || i >= |runs| || row < runs[i].startRecord || row >= RunEnd(runs, i, |idx.records|) {
        i := RunOfRow(row);
        if i >= 0 { runHint := i; }
      }
    }

    /** The first instant of one run, through its memo. */
    method BaseOfRun(i: nat) returns (ts: int)
      requires Shaped(runs, |idx.records|) && i < |runs|
      modifies this`runBases
      ensures old(MemosSound()) ==> MemosSound() && ts == TimestampFrom(idx.records, runs[i].startRecord, RunEnd(runs, i, |idx.records|))
    {
      hide TimestampFrom, BaselineFor, Sound;
      if MemosSound() { SizedBasesAreSound(AllMemos(), runs, idx.records); }
      if |runBases| != |runs| { runBases := Sized(runBases, |runs|, NO_BASE); }
      if MemosSound() { BaseIsSound(AllMemos(), runs, idx.records, i); }
      var b: Baseline;
      b, ts := ResolveBaseline(runBases[i], runs[i].startRecord, RunEnd(runs, i, |idx.records|));
      runBases := runBases[i := b];
    }

    /** The instant a row's "seconds into the run" counts from. */
    method RunBaseTimestamp(sourceRow: int) returns (ts: int)
      requires Shaped(runs, |idx.records|)
      modifies this`runBases, this`fileBase, this`runHint
      ensures !(0 <= sourceRow < |idx.records|) ==> ts == NO_TIMESTAMP
      ensures old(MemosSound()) ==> MemosSound()
      ensures old(MemosSound()) && 0 <= sourceRow < |idx.records| && runs == [] ==> ts == TimestampFrom(idx.records, 0, |idx.records|)
      ensures old(MemosSound()) && 0 <= sourceRow < |idx.records| ==>
                forall k :: 0 <= k < |runs| && runs[k].startRecord <= sourceRow < RunEnd(runs, k, |idx.records|) ==>
                              ts == TimestampFrom(idx.records, runs[k].startRecord, RunEnd(runs, k, |idx.records|))
    {
      hide TimestampFrom, MemoFor, BaselineFor;
      if sourceRow < 0 || sourceRow >= |idx.records| { return NO_TIMESTAMP; }
      if runs == [] {
        fileBase, ts := ResolveBaseline(fileBase, 0, |idx.records|);
        return;
      }
      var i := FindRun(sourceRow);
      if i < 0 { return NO_TIMESTAMP; }
      ts := BaseOfRun(i);
    }
  }
}
