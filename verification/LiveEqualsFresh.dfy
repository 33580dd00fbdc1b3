/** A tailed log against a fresh open of the same bytes: the tail scan feeding the ingest, and
    the two views compared by the names their filters were given. */
module LiveEqualsFresh {
  import opened Records
  import opened Decoders
  import opened InternTables
  import opened Filter
  import opened ContextEmitter
  import opened Documents
  import opened TailScans
  import opened LiveControllers
  import LiveView
  import Indexers
  import Runs

  // ---------------------------------------------------------------------------
  // The tail scan is what the ingest takes
  // ---------------------------------------------------------------------------

  /** Offsets ascend, and the provisional record lies in the file. */
  ghost predicate Anchored(records: seq<Record>) {
    OffsetsAscend(records) && (records != [] ==> 0 <= records[|records| - 1].offset)
  }

  /** What the scan of a tail finds lies behind the provisional record, one record behind the
      other. */
  lemma ScanOffsets(fmt: Indexers.Format, enc: Encoding, bytes: seq<Byte>, start: nat, loggers: seq<string>, threads: seq<string>)
    requires ValidNames(loggers) && ValidNames(threads) && |bytes| <= MAX_OFFSET
    ensures var tail := Scanned(fmt, enc, bytes, start, loggers, threads).records;
            && OffsetsAscend(tail) && (tail != [] ==> tail[0].offset == start)
            && forall i :: 0 <= i < |tail| ==> start <= tail[i].offset
  {
    hide Scanned, IndexedRows, RowsCover;
    var st := Scanned(fmt, enc, bytes, start, loggers, threads);
    var rows := IndexedRows(fmt, enc, bytes, start);
    ScannedResolves(fmt, enc, bytes, start, loggers, threads);
    assert |rows| == |st.records|;
    assert forall i :: 0 <= i < |rows| ==> rows[i].offset == st.records[i].offset;
    if start <= |bytes| {
      IndexCovers(fmt, enc, bytes, start);
      forall i, j | 0 <= i <= j < |rows| ensures start <= rows[i].offset <= rows[j].offset < |bytes| && (i < j ==> rows[i].offset < rows[j].offset) {
        OffsetsBetween(rows, start, |bytes|, i, j);
      }
      if rows != [] { FirstRowAt(rows, start, |bytes|); }
    } else {
      NothingBehind(fmt, enc, bytes, start);
    }
  }

  lemma FirstRowAt(rows: seq<Row>, from: int, end: int)
    requires RowsCover(rows, from, end) && rows != []
    ensures rows[0].offset == from
  {
  }

  lemma NothingBehind(fmt: Indexers.Format, enc: Encoding, bytes: seq<Byte>, start: nat)
    requires start >= |bytes|
    ensures IndexedRows(fmt, enc, bytes, start) == []
  {
  }

  /** The scan from the provisional record on hands over a tail of the index, and splicing it
      in is the ingest. */
  lemma ScanIsTail(fmt: Indexers.Format, enc: Encoding, idx: LiveIndex, bytes: seq<Byte>, from: nat)
    requires ValidNames(idx.loggers) && ValidNames(idx.threads) && Anchored(idx.records) && |bytes| <= MAX_OFFSET
    ensures var start := StartOf(idx, from);
            var now := Ingested(fmt, enc, idx, bytes, from);
            0 <= start
            && var tail := Scanned(fmt, enc, bytes, start, idx.loggers, idx.threads);
               TailOf(idx.records, tail.records) && now == LiveIndex(Spliced(idx.records, tail.records), tail.loggers, tail.threads)
               && Anchored(now.records)
  {
    var start := StartOf(idx, from);
    ScanOffsets(fmt, enc, bytes, start, idx.loggers, idx.threads);
    var tail := Scanned(fmt, enc, bytes, start, idx.loggers, idx.threads);
    hide Scanned;
    SplicedAscends(idx.records, tail.records);
  }

  lemma SplicedAscends(was: seq<Record>, tail: seq<Record>)
    requires Anchored(was) && OffsetsAscend(tail)
    requires tail != [] && was != [] ==> tail[0].offset == was[|was| - 1].offset
    requires forall i :: 0 <= i < |tail| ==> 0 <= tail[i].offset
    ensures TailOf(was, tail) && Anchored(Spliced(was, tail))
  {
    if tail != [] && was != [] {
      var now, n := Spliced(was, tail), |was| - 1;
      forall i, j | 0 <= i < j < |now| ensures now[i].offset < now[j].offset {
        if i < n <= j {
          assert now[i] == was[i] && now[j] == tail[j - n];
          assert was[i].offset < was[n].offset == tail[0].offset;
          assert j == n || tail[0].offset < tail[j - n].offset;
        } else if n <= i {
          assert now[i] == tail[i - n] && now[j] == tail[j - n];
        }
      }
      forall i | 0 <= i < |now| ensures now[i].offset < MAX_OFFSET { if n <= i { assert now[i] == tail[i - n]; } }
      assert now[|now| - 1] == tail[|tail| - 1];
    }
  }

  /** The provisional record reads differently after a tick. */
  predicate Rewritten(was: seq<Record>, now: seq<Record>) {
    was != [] && |was| <= |now| && now[|was| - 1] != was[|was| - 1]
  }

  lemma ChangedIsRewritten(was: seq<Record>, tail: seq<Record>)
    ensures |was| <= |Spliced(was, tail)| && (Changed(was, tail) <==> Rewritten(was, Spliced(was, tail)))
  {
  }

  /** One tick over the bytes themselves: scan the tail with the live tables, ingest it. */
  method IngestGrowth(doc: Document, loggers: seq<string>, threads: seq<string>,
                      fmt: Indexers.Format, enc: Encoding, bytes: seq<Byte>, from: nat, chunk: int)
    returns (loggers': seq<string>, threads': seq<string>)
    requires doc.Valid() && doc.idx.SumsFresh() && (doc.filtered.active ==> doc.ViewIsSane())
    requires ValidNames(loggers) && ValidNames(threads) && Anchored(doc.idx.records)
    requires |bytes| <= MAX_OFFSET && 1 <= chunk
    modifies doc.idx, doc.filtered, doc.filtered.compact, doc`runs, doc`bounds
    ensures doc.Valid() && doc.idx.SumsFresh() && Anchored(doc.idx.records)
    ensures LiveIndex(doc.idx.records, loggers', threads')
            == Ingested(fmt, enc, LiveIndex(old(doc.idx.records), loggers, threads), bytes, from)
    ensures doc.filtered.active == old(doc.filtered.active) && (doc.filtered.active ==> doc.ViewIsSane())
    ensures |old(doc.idx.records)| <= |doc.idx.records|
    ensures doc.filtered.active ==>
              doc.filtered.View() == LiveView.Tick(old(doc.filtered.View()), doc.Flags(), |old(doc.idx.records)|,
                                                   Rewritten(old(doc.idx.records), doc.idx.records), doc.contextBefore, doc.contextAfter)
    ensures old(doc.filtered.active && doc.ViewIsFresh()) ==> doc.ViewIsFresh()
    ensures forall i :: 0 <= i < |old(doc.idx.records)| ==>
                          Runs.InRunBound(old(doc.bounds), old(doc.idx.records)[i]) == Runs.InRunBound(doc.bounds, old(doc.idx.records)[i])
  {
    hide Indexers.Fold, Indexers.Lines, TailOf, Ingested, OffsetsAscend, FlagsOf, LiveView.Tick, LiveView.Sane, Widened, Runs.InRunBound, Rewritten, Changed,
         Runs.Sound, Runs.TickHarmless, Runs.RunsAfter, Runs.Shaped, Runs.ViewBounds;
    ghost var idx := LiveIndex(doc.idx.records, loggers, threads);
    ScanIsTail(fmt, enc, idx, bytes, from);
    var n := |doc.idx.records|;
    var start := if n > 0 then doc.idx.records[n - 1].offset else from;
    var scan := new Indexers.Scan(fmt, loggers, threads);
    var completed, reached := Indexers.ForwardScan(scan, enc, bytes, start, chunk, _ => true);
    assert scan.State() == Scanned(fmt, enc, bytes, start, loggers, threads);
    ChangedIsRewritten(doc.idx.records, scan.records);
    IngestAppended(doc, scan.records);
    loggers', threads' := scan.loggers, scan.threads;
  }

  /** Any number of them. */
  method TailGrowths(doc: Document, loggers: seq<string>, threads: seq<string>,
                     fmt: Indexers.Format, enc: Encoding, growths: seq<seq<Byte>>, from: nat, chunk: int)
    returns (loggers': seq<string>, threads': seq<string>)
    requires doc.Valid() && doc.idx.SumsFresh() && (doc.filtered.active ==> doc.ViewIsFresh())
    requires LiveIndex(doc.idx.records, loggers, threads).Valid() && Anchored(doc.idx.records)
    requires forall i :: 0 <= i < |growths| ==> |growths[i]| <= MAX_OFFSET
    requires 1 <= chunk
    modifies doc.idx, doc.filtered, doc.filtered.compact, doc`runs, doc`bounds
    ensures doc.Valid() && doc.idx.SumsFresh()
    ensures LiveIndex(doc.idx.records, loggers', threads')
            == IngestedAll(fmt, enc, LiveIndex(old(doc.idx.records), loggers, threads), growths, from)
    ensures doc.filtered.active == old(doc.filtered.active) && (doc.filtered.active ==> doc.ViewIsFresh())
    decreases growths
  {
    hide Ingested, Anchored, FlagsOf, LiveView.Tick, Widened, Runs.InRunBound, Rewritten;
    loggers', threads' := loggers, threads;
    if growths != [] {
      if doc.filtered.active { doc.FreshIsSane(); }
      IngestedResolves(fmt, enc, LiveIndex(doc.idx.records, loggers, threads), growths[0], from);
      loggers', threads' := IngestGrowth(doc, loggers, threads, fmt, enc, growths[0], from, chunk);
      loggers', threads' := TailGrowths(doc, loggers', threads', fmt, enc, growths[1..], from, chunk);
    }
  }

  // ---------------------------------------------------------------------------
  // Filters given by names
  // ---------------------------------------------------------------------------

  /** The criteria as the user gave them: `rest` holds every axis but the two name lists, whose
      ids it leaves empty. */
  datatype Criteria = Criteria(rest: FilterSet, loggerNames: set<string>, threadNames: set<string>) {
    /** The ids of the names the tables hold. */
    function Resolve(loggers: seq<string>, threads: seq<string>): FilterSet {
      rest.(loggerIds := IdsOf(loggers, loggerNames), threadIds := IdsOf(threads, threadNames))
    }

    /** The integer axes, by name. */
    predicate Admits(row: Row) {
      && (rest.priorityEnabled ==> if row.priority == Unknown then rest.absentFieldMatches else rest.minPriority.Level() <= row.priority.Level())
      && (rest.loggerEnabled ==> if row.logger == "" then rest.absentFieldMatches else row.logger in loggerNames)
      && (rest.threadEnabled ==> if row.thread == "" then rest.absentFieldMatches else row.thread in threadNames)
      && (rest.timeEnabled ==> if row.timestamp == NO_TIMESTAMP then rest.absentFieldMatches else rest.startMs <= row.timestamp <= rest.endMs)
    }

    /** A name an axis looks at was not in the tables yet when they were asked for its id. */
    predicate Late(row: Row, loggers: seq<string>, threads: seq<string>) {
      (rest.loggerEnabled && row.logger != "" && row.logger !in loggers) || (rest.threadEnabled && row.thread != "" && row.thread !in threads)
    }
  }

  function IdsOf(table: seq<string>, names: set<string>): set<nat> {
    set i: nat | i < |table| && table[i] in names
  }

  /** An id resolved in a table still names its string in any later one. */
  lemma IdByName(was: seq<string>, now: seq<string>, names: set<string>, id: nat)
    requires ValidNames(was) && ValidNames(now) && was <= now && id < |now|
    ensures id in IdsOf(was, names) <==> now[id] in names && now[id] in was
    ensures id == 0 <==> now[id] == ""
  {
    if now[id] in was {
      var k :| 0 <= k < |was| && was[k] == now[id];
      assert now[k] == now[id];
    }
  }

  /** What a filter resolved earlier answers now: what the names ask for, but for names that
      came late. */
  lemma ResolvedByName(c: Criteria, r: Record, was: LiveIndex, loggers: seq<string>, threads: seq<string>)
    requires ValidNames(was.loggers) && ValidNames(was.threads) && ValidNames(loggers) && ValidNames(threads)
    requires was.loggers <= loggers && was.threads <= threads && r.loggerId < |loggers| && r.threadId < |threads|
    ensures var row := RowOf(r, loggers, threads);
            c.Resolve(was.loggers, was.threads).AcceptsIntegerAxes(r) <==> c.Admits(row) && !c.Late(row, was.loggers, was.threads)
  {
    IdByName(was.loggers, loggers, c.loggerNames, r.loggerId);
    IdByName(was.threads, threads, c.threadNames, r.threadId);
    hide IdsOf, ValidNames;
  }

  // ---------------------------------------------------------------------------
  // The two views
  // ---------------------------------------------------------------------------

  /** A configuration that stands for criteria resolved in `tables`, and decodes a record's
      message from its bytes alone. */
  ghost predicate Stands(vc: ViewConfig, c: Criteria, bounds: Runs.Bounds, text: (int, nat) -> string, tables: LiveIndex) {
    vc.bounds == bounds && vc.filters == c.Resolve(tables.loggers, tables.threads)
    && forall r :: vc.message(r) == text(r.offset, r.length)
  }

  /** What a row is in a view, by name. */
  function FlagsByName(row: Row, c: Criteria, bounds: Runs.Bounds, text: (int, nat) -> string, was: LiveIndex): RowFlags {
    RowFlags(InBounds(row, bounds) && c.Admits(row) && !c.Late(row, was.loggers, was.threads),
             TextPasses(row, c, text))
  }

  predicate InBounds(row: Row, bounds: Runs.Bounds) {
    !bounds.restricted || bounds.start <= row.offset < bounds.end
  }

  lemma FlagsAreByName(idx: LiveIndex, vc: ViewConfig, c: Criteria, bounds: Runs.Bounds, text: (int, nat) -> string, was: LiveIndex, i: nat)
    requires idx.Valid() && ValidNames(was.loggers) && ValidNames(was.threads) && was.loggers <= idx.loggers && was.threads <= idx.threads
    requires Stands(vc, c, bounds, text, was) && i < |idx.records|
    ensures FlagsOf(idx.records, vc)[i] == FlagsByName(idx.Rows()[i], c, bounds, text, was)
  {
    ResolvedByName(c, idx.records[i], was, idx.loggers, idx.threads);
    hide FilterSet.AcceptsIntegerAxes, Criteria.Admits, Criteria.Late;
  }

  /** A row of a fresh open whose name came too late for the filter of the tailed one. */
  predicate Missed(row: Row, c: Criteria, bounds: Runs.Bounds, was: LiveIndex) {
    InBounds(row, bounds) && c.Admits(row) && c.Late(row, was.loggers, was.threads)
  }

  lemma NothingIsLate(row: Row, c: Criteria, idx: LiveIndex, i: nat)
    requires idx.Valid() && i < |idx.records| && row == idx.Rows()[i]
    ensures !c.Late(row, idx.loggers, idx.threads)
  {
  }

  /** In a tab whose filter is resolved once and stays. A log tailed through any growths, in none
      of which a start is lost, and a fresh open of its final bytes hold the same rows by name,
      and give them the same place in the view exactly when no row of the view carries a name that
      appeared after the filter was resolved. Then the two lists of rows and context flags are
      one. */
  lemma {:induction false} TailedShowsTheFreshView(fmt: Indexers.Format, enc: Encoding, idx: LiveIndex, was: seq<Byte>, growths: seq<seq<Byte>>, from: nat,
                                anew: LiveIndex, c: Criteria, bounds: Runs.Bounds, text: (int, nat) -> string,
                                live: ViewConfig, reopened: ViewConfig, before: nat, after: nat)
    requires idx.Valid() && idx.Rows() == IndexedRows(fmt, enc, was, from) && Grows(fmt, enc, was, growths, from)
    requires anew.Valid() && anew.Rows() == IndexedRows(fmt, enc, if growths == [] then was else growths[|growths| - 1], from)
    requires Stands(live, c, bounds, text, idx) && Stands(reopened, c, bounds, text, anew)
    ensures var now := IngestedAll(fmt, enc, idx, growths, from);
            && now.Rows() == anew.Rows()
            && (FlagsOf(now.records, live) == FlagsOf(anew.records, reopened)
                <==> forall i :: 0 <= i < |anew.records| ==> !Missed(anew.Rows()[i], c, bounds, idx))
            && ((forall i :: 0 <= i < |anew.records| ==> !Missed(anew.Rows()[i], c, bounds, idx)) ==>
                  Widened(FlagsOf(now.records, live), before, after) == Widened(FlagsOf(anew.records, reopened), before, after))
  {
    var now := IngestedAll(fmt, enc, idx, growths, from);
    TailedEqualsIndexed(fmt, enc, idx, was, growths, from);
    IngestedAllGrows(fmt, enc, idx, growths, from);
    hide IngestedAll, Grows, IndexedRows, Widened;
    SameFlags(now, anew, idx, c, bounds, text, live, reopened);
  }

  lemma SameFlags(now: LiveIndex, anew: LiveIndex, was: LiveIndex, c: Criteria, bounds: Runs.Bounds, text: (int, nat) -> string,
                  live: ViewConfig, reopened: ViewConfig)
    requires now.Valid() && anew.Valid() && now.Rows() == anew.Rows()
    requires ValidNames(was.loggers) && ValidNames(was.threads) && was.loggers <= now.loggers && was.threads <= now.threads
    requires Stands(live, c, bounds, text, was) && Stands(reopened, c, bounds, text, anew)
    ensures FlagsOf(now.records, live) == FlagsOf(anew.records, reopened)
            <==> forall i :: 0 <= i < |anew.records| ==> !Missed(anew.Rows()[i], c, bounds, was)
  {
    var a, b := FlagsOf(now.records, live), FlagsOf(anew.records, reopened);
    var rows := anew.Rows();
    assert |a| == |b| == |rows|;
    forall i | 0 <= i < |rows| ensures a[i] == b[i] <==> !Missed(rows[i], c, bounds, was) {
      FlagsAreByName(now, live, c, bounds, text, was, i);
      FlagsAreByName(anew, reopened, c, bounds, text, anew, i);
      NothingIsLate(rows[i], c, anew, i);
    }
  }

  /** The tables a tailed log starts from are in front of the ones it ends with. */
  lemma {:induction false} IngestedAllGrows(fmt: Indexers.Format, enc: Encoding, idx: LiveIndex, growths: seq<seq<Byte>>, from: nat)
    requires idx.Valid()
    ensures var now := IngestedAll(fmt, enc, idx, growths, from);
            now.Valid() && idx.loggers <= now.loggers && idx.threads <= now.threads
    decreases growths
  {
    if growths != [] {
      var next := Ingested(fmt, enc, idx, growths[0], from);
      IngestedResolves(fmt, enc, idx, growths[0], from);
      if StartOf(idx, from) >= 0 { ScannedResolves(fmt, enc, growths[0], StartOf(idx, from), idx.loggers, idx.threads); }
      IngestedAllGrows(fmt, enc, next, growths[1..], from);
    }
  }

  predicate TextPasses(row: Row, c: Criteria, text: (int, nat) -> string) {
    !c.rest.text.Active() || c.rest.AcceptsText(text(row.offset, row.length))
  }

  /** A missed row the text axis passes is a row the fresh view lists and the tailed one does
      not; so without a text axis the views are one exactly when no row is missed. */
  lemma MissedRowIsHidden(now: LiveIndex, anew: LiveIndex, was: LiveIndex, c: Criteria, bounds: Runs.Bounds, text: (int, nat) -> string,
                          live: ViewConfig, reopened: ViewConfig, before: nat, after: nat, i: nat)
    requires now.Valid() && anew.Valid() && now.Rows() == anew.Rows()
    requires ValidNames(was.loggers) && ValidNames(was.threads) && was.loggers <= now.loggers && was.threads <= now.threads
    requires Stands(live, c, bounds, text, was) && Stands(reopened, c, bounds, text, anew)
    requires i < |anew.records| && Missed(anew.Rows()[i], c, bounds, was) && TextPasses(anew.Rows()[i], c, text)
    ensures Emitted(i, false) in Widened(FlagsOf(anew.records, reopened), before, after)
    ensures forall e :: e in Widened(FlagsOf(now.records, live), before, after) ==> e.row != i
  {
    var a, b := FlagsOf(now.records, live), FlagsOf(anew.records, reopened);
    FlagsAreByName(now, live, c, bounds, text, was, i);
    FlagsAreByName(anew, reopened, c, bounds, text, anew, i);
    NothingIsLate(anew.Rows()[i], c, anew, i);
    hide FlagsOf, Stands, Criteria.Admits, Criteria.Late;
    assert |a| == |now.records| && |b| == |anew.records| && |now.Rows()| == |now.records| && |anew.Rows()| == |anew.records|;
    assert Visible(b, |b|, i, before, after);
    VisibleBelowExact(a, |a|, |a|, before, after);
    VisibleBelowExact(b, |b|, |b|, before, after);
  }

  /** Two open documents over the same bytes, one tailed under a filter resolved once and one just
      opened, show one list. */
  lemma SameScreen(live: Document, again: Document, now: LiveIndex, anew: LiveIndex, was: LiveIndex,
                   c: Criteria, bounds: Runs.Bounds, text: (int, nat) -> string)
    requires live.Valid() && live.filtered.active && live.ViewIsFresh() && again.Valid() && again.filtered.active && again.ViewIsFresh()
    requires now.records == live.idx.records && anew.records == again.idx.records
    requires now.Valid() && anew.Valid() && now.Rows() == anew.Rows()
    requires ValidNames(was.loggers) && ValidNames(was.threads) && was.loggers <= now.loggers && was.threads <= now.threads
    requires Stands(live.Config(), c, bounds, text, was) && Stands(again.Config(), c, bounds, text, anew)
    requires live.contextBefore == again.contextBefore && live.contextAfter == again.contextAfter
    ensures (forall i :: 0 <= i < |anew.records| ==> !Missed(anew.Rows()[i], c, bounds, was)) ==> live.filtered.View() == again.filtered.View()
    ensures !c.rest.text.Active() && live.filtered.View() == again.filtered.View() ==>
              forall i :: 0 <= i < |anew.records| ==> !Missed(anew.Rows()[i], c, bounds, was)
  {
    var shown := Widened(live.Flags(), live.contextBefore, live.contextAfter);
    var wanted := Widened(again.Flags(), again.contextBefore, again.contextAfter);
    assert live.filtered.View() == shown && again.filtered.View() == wanted;
    hide Document.Valid, Document.ViewIsFresh, Stands, Widened, Missed;
    SameFlags(now, anew, was, c, bounds, text, live.Config(), again.Config());
    if !c.rest.text.Active() {
      forall i | 0 <= i < |anew.records| && Missed(anew.Rows()[i], c, bounds, was) ensures shown != wanted {
        MissedRowIsHidden(now, anew, was, c, bounds, text, live.Config(), again.Config(), live.contextBefore, live.contextAfter, i);
      }
    }
  }

  // ---------------------------------------------------------------------------
  // A name that comes late
  // ---------------------------------------------------------------------------

  /** Every line opens a record: "A" one of the logger "app", any other one of "net". */
  const APP_AND_NET := Indexers.Format(true, (content: seq<Byte>) => Indexers.Start(Info, if content == [65] then "app" else "net", "", 0))

  const ONLY_NET := Criteria(FilterSet(false, Trace, true, {}, false, {}, false, 0, 0, TextFilter(false, false, true, m => false), true), {"net"}, {})

  /** The index of a log with one record of "app". */
  const APP_ONLY := LiveIndex([Record(0, 0, 2, 1, 0, 1, Info)], ["", "app"], [""])

  /** It happens: a filter on "net" is set while the log holds "app" alone. The record that brings
      the name is ingested without being shown; a fresh open shows it, and so would the same
      filter resolved again. */
  lemma LateNameIsHidden() returns (r: Record)
    ensures Ingested(APP_AND_NET, Utf8, APP_ONLY, [65, 10, 66, 10], 0) == LiveIndex(APP_ONLY.records + [r], ["", "app", "net"], [""])
    ensures !ONLY_NET.Resolve(["", "app"], [""]).AcceptsIntegerAxes(r) && ONLY_NET.Resolve(["", "app", "net"], [""]).AcceptsIntegerAxes(r)
    ensures Missed(RowOf(r, ["", "app", "net"], [""]), ONLY_NET, Runs.Bounds(false, 0, 0), APP_ONLY)
  {
    var bytes: seq<Byte> := [65, 10, 66, 10];
    var a := APP_ONLY.records[0];
    r := Record(2, 0, 2, 2, 0, 1, Info);
    TwoLines(bytes);
    assert Scanned(APP_AND_NET, Utf8, bytes, 0, ["", "app"], [""]) == Indexers.ScanState([a, r], 1, true, ["", "app", "net"], [""]) by {
      TwoRecords(a, r);
    }
    hide Scanned;
    assert APP_ONLY.records[..0] + [a, r] == APP_ONLY.records + [r];
    IdByName(["", "app"], ["", "app", "net"], {"net"}, 2);
    IdByName(["", "app", "net"], ["", "app", "net"], {"net"}, 2);
  }

  lemma TwoRecords(a: Record, r: Record)
    requires a == Record(0, 0, 2, 1, 0, 1, Info) && r == Record(2, 0, 2, 2, 0, 1, Info)
    ensures Indexers.Fold(APP_AND_NET, Indexers.ScanState([], -1, false, ["", "app"], [""]),
                          [Indexers.Line(0, 2, [65], true), Indexers.Line(2, 2, [66], true)])
            == Indexers.ScanState([a, r], 1, true, ["", "app", "net"], [""])
  {
    var st := Indexers.ScanState([], -1, false, ["", "app"], [""]);
    var one := Indexers.ScanState([a], 0, true, ["", "app"], [""]);
    var both := Indexers.ScanState([a, r], 1, true, ["", "app", "net"], [""]);
    var first, second := Indexers.Line(0, 2, [65], true), Indexers.Line(2, 2, [66], true);
    Named(["", "app"]);
    assert Indexers.ProcessedLine(APP_AND_NET, st, first) == one;
    assert [a] + [r] == [a, r];
    assert Indexers.ProcessedLine(APP_AND_NET, one, second) == both;
    hide Indexers.ProcessedLine;
    assert [first, second][1..] == [second] && [second][1..] == [];
    assert Indexers.Fold(APP_AND_NET, both, []) == both;
    assert Indexers.Fold(APP_AND_NET, one, [second]) == both;
  }

  lemma Named(names: seq<string>)
    requires names == ["", "app"]
    ensures IndexOf(names, "app") == 1 && Interned(names, "app") == names
    ensures IndexOf(names, "net") == 2 && Interned(names, "net") == ["", "app", "net"]
    ensures IndexOf([""], "") == 0 && Interned([""], "") == [""]
  {
    assert names[1..] == ["app"] && names[1..][1..] == [];
    assert names[1] == "app";
    assert "net" !in names by { assert "net"[0] != "app"[0]; }
  }

  lemma TwoLines(bytes: seq<Byte>)
    requires bytes == [65, 10, 66, 10]
    ensures Indexers.Lines(Utf8, bytes, 0) == [Indexers.Line(0, 2, [65], true), Indexers.Line(2, 2, [66], true)]
  {
    assert FirstBreak(Utf8, bytes, 0) == FirstBreak(Utf8, bytes, 1) == LineBreak(2, true);
    assert FirstBreak(Utf8, bytes, 2) == FirstBreak(Utf8, bytes, 3) == LineBreak(4, true);
    assert Indexers.LineAt(Utf8, bytes, 0) == Indexers.Line(0, 2, [65], true);
    assert Indexers.LineAt(Utf8, bytes, 2) == Indexers.Line(2, 2, [66], true);
    assert Indexers.Lines(Utf8, bytes, 4) == [];
    assert Indexers.Lines(Utf8, bytes, 2) == [Indexers.Line(2, 2, [66], true)];
  }
}
