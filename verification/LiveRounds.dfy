/** A tailed log whose filter is resolved again between ticks: which tick evaluated a row last, and
    what that makes of the view next to a fresh one. */
module LiveRounds {
  import opened Records
  import opened Decoders
  import opened InternTables
  import opened ContextEmitter
  import opened LiveView
  import opened Documents
  import opened TailScans
  import opened LiveEqualsFresh
  import Indexers
  import Runs

  /** What stays the same over the whole history. */
  datatype Setting = Setting(fmt: Indexers.Format, enc: Encoding, start: nat, c: Criteria, text: (int, nat) -> string, before: nat, after: nat)

  /** One tick: the bytes it finds, the index in whose tables the filter in force was resolved, and
      the run bound in force when it evaluates its candidates. */
  datatype Round = Round(bytes: seq<Byte>, tables: LiveIndex, bounds: Runs.Bounds)

  /** What a tailed log shows. `seen` has, row by row, the tables of the filter that evaluated the
      row last. */
  datatype Screen = Screen(idx: LiveIndex, bounds: Runs.Bounds, view: seq<Emitted>, seen: seq<LiveIndex>)

  function NameFlags(g: Setting, rows: seq<Row>, bounds: Runs.Bounds, tables: LiveIndex): seq<RowFlags> {
    seq(|rows|, i requires 0 <= i < |rows| => FlagsByName(rows[i], g.c, bounds, g.text, tables))
  }

  lemma IngestedLonger(g: Setting, idx: LiveIndex, bytes: seq<Byte>)
    ensures |idx.records| <= |Ingested(g.fmt, g.enc, idx, bytes, g.start).records|
  {
  }

  /** The screen after a tick: rows from the resume row on were evaluated by its filter. */
  function AfterRound(g: Setting, sc: Screen, round: Round): (t: Screen)
    requires |sc.seen| == |sc.idx.records|
    ensures |t.seen| == |t.idx.records|
  {
    var now := Ingested(g.fmt, g.enc, sc.idx, round.bytes, g.start);
    var had := NameFlags(g, now.Rows(), round.bounds, round.tables);
    var n := |sc.idx.records|;
    IngestedLonger(g, sc.idx, round.bytes);
    var changed := Rewritten(sc.idx.records, now.records);
    var c := ResumeAt(sc.view, had, n, changed, g.before);
    if n > 0 then ResumeInRange(sc.view, had, n, changed, g.before); assert 0 <= c <= n;
      Screen(now, round.bounds, Tick(sc.view, had, n, changed, g.before, g.after), sc.seen[..c] + seq(|had| - c, _ => round.tables))
    else Screen(now, round.bounds, Tick(sc.view, had, n, changed, g.before, g.after), seq(|had|, _ => round.tables))
  }

  /** A filter was resolved in tables the index has since only grown from. */
  ghost predicate Earlier(tables: LiveIndex, idx: LiveIndex) {
    ValidNames(tables.loggers) && ValidNames(tables.threads) && tables.loggers <= idx.loggers && tables.threads <= idx.threads
  }

  /** A tick's filter was resolved before it, and its run bound moves no row it finds. */
  ghost predicate Plays(sc: Screen, round: Round) {
    Earlier(round.tables, sc.idx)
    && forall i :: 0 <= i < |sc.idx.records| ==> InBounds(sc.idx.Rows()[i], sc.bounds) == InBounds(sc.idx.Rows()[i], round.bounds)
  }

  /** The row is a match for a filter resolved in `tables`. */
  predicate Passes(g: Setting, row: Row, bounds: Runs.Bounds, tables: LiveIndex) {
    InBounds(row, bounds) && g.c.Admits(row) && !g.c.Late(row, tables.loggers, tables.threads) && TextPasses(row, g.c, g.text)
  }

  /** The matches on a screen are the rows that passed when they were evaluated last. */
  ghost predicate Told(g: Setting, sc: Screen) {
    && sc.idx.Valid() && |sc.seen| == |sc.idx.records| && Sane(sc.view, |sc.idx.records|)
    && (forall i :: 0 <= i < |sc.seen| ==> Earlier(sc.seen[i], sc.idx))
    && (forall i :: 0 <= i < |sc.seen| ==> (Emitted(i, false) in sc.view <==> Passes(g, sc.idx.Rows()[i], sc.bounds, sc.seen[i])))
  }

  /** Without windows there is no context row, and without a text axis only a row that came too
      late for the filter that evaluated it can be one. */
  ghost predicate ContextTold(g: Setting, sc: Screen)
    requires |sc.seen| == |sc.idx.records|
  {
    && (g.before == 0 && g.after == 0 ==> forall e :: e in sc.view ==> !e.isContext)
    && (!g.c.rest.text.Active() ==>
          forall e :: e in sc.view && e.isContext && 0 <= e.row < |sc.seen| ==> Missed(sc.idx.Rows()[e.row], g.c, sc.bounds, sc.seen[e.row]))
  }

  /** A tick rewrites the provisional record at most, and adds behind it. */
  lemma RowsKept(g: Setting, idx: LiveIndex, bytes: seq<Byte>)
    requires idx.Valid()
    ensures var now := Ingested(g.fmt, g.enc, idx, bytes, g.start);
            && now.Valid() && Earlier(idx, now) && |idx.records| <= |now.records|
            && forall i :: 0 <= i < |idx.records| && (i < |idx.records| - 1 || !Rewritten(idx.records, now.records)) ==>
                             now.records[i] == idx.records[i] && now.Rows()[i] == idx.Rows()[i]
  {
    var now := Ingested(g.fmt, g.enc, idx, bytes, g.start);
    IngestedResolves(g.fmt, g.enc, idx, bytes, g.start);
    if StartOf(idx, g.start) >= 0 { ScannedResolves(g.fmt, g.enc, bytes, StartOf(idx, g.start), idx.loggers, idx.threads); }
    hide Scanned;
    forall i | 0 <= i < |idx.records| && (i < |idx.records| - 1 || !Rewritten(idx.records, now.records))
      ensures now.records[i] == idx.records[i] && now.Rows()[i] == idx.Rows()[i]
    {
    }
  }

  lemma NameFlagsAt(g: Setting, rows: seq<Row>, bounds: Runs.Bounds, tables: LiveIndex)
    ensures var s := NameFlags(g, rows, bounds, tables);
            |s| == |rows|
            && (forall i :: 0 <= i < |rows| ==> (IsMatch(s, i) <==> Passes(g, rows[i], bounds, tables)))
            && (!g.c.rest.text.Active() ==> forall i :: 0 <= i < |s| && s[i].inBound ==> s[i].matches)
            && (forall i :: 0 <= i < |rows| && s[i].inBound ==> InBounds(rows[i], bounds) && g.c.Admits(rows[i]))
  {
  }

  /** What a tick leaves, with the row it resumed at. */
  lemma RoundIs(g: Setting, sc: Screen, round: Round) returns (c: int)
    requires Told(g, sc)
    ensures var now := Ingested(g.fmt, g.enc, sc.idx, round.bytes, g.start);
            var had := NameFlags(g, now.Rows(), round.bounds, round.tables);
            var t := AfterRound(g, sc, round);
            && t.idx == now && t.bounds == round.bounds && |t.seen| == |had| == |now.records|
            && 0 <= c <= |sc.seen| && (Rewritten(sc.idx.records, now.records) ==> c < |sc.seen|)
            && (forall i :: 0 <= i < |t.seen| ==> t.seen[i] == if i < c then sc.seen[i] else round.tables)
            && Sane(t.view, |had|)
            && (forall q :: Emitted(q, false) in t.view <==> if q < c then Emitted(q, false) in sc.view else IsMatch(had, q))
            && (g.before == 0 && g.after == 0 ==> forall e :: e in t.view && e.isContext ==> e in sc.view && e.row < c)
            && (!g.c.rest.text.Active() ==>
                  forall e :: e in t.view && e.isContext ==> e.row < c && (e in sc.view || (had[e.row].inBound && Emitted(e.row, false) !in sc.view)))
  {
    var now := Ingested(g.fmt, g.enc, sc.idx, round.bytes, g.start);
    var had := NameFlags(g, now.Rows(), round.bounds, round.tables);
    var n := |sc.idx.records|;
    var changed := Rewritten(sc.idx.records, now.records);
    assert Sane(sc.view, n) && n == |sc.seen|;
    IngestedLonger(g, sc.idx, round.bytes);
    NameFlagsAt(g, now.Rows(), round.bounds, round.tables);
    c := ResumeAt(sc.view, had, n, changed, g.before);
    hide Told, Ingested, Tick, CandidateStart, Cut, Pass, NameFlags, Rebuilt, Passes, InBounds, Criteria.Admits, Sane, IsMatch;
    if n > 0 { ResumeInRange(sc.view, had, n, changed, g.before); }
    TickMeans(sc.view, had, n, changed, g.before, g.after);
  }

  /** Every tick keeps the meaning of the screen, whichever earlier tables its filter was resolved
      in. */
  lemma RoundTells(g: Setting, sc: Screen, round: Round)
    requires Told(g, sc) && Plays(sc, round)
    ensures Told(g, AfterRound(g, sc, round))
  {
    var t := AfterRound(g, sc, round);
    var c := RoundIs(g, sc, round);
    RowsKept(g, sc.idx, round.bytes);
    NameFlagsAt(g, t.idx.Rows(), round.bounds, round.tables);
    assert Earlier(round.tables, sc.idx);
    forall i | 0 <= i < |t.seen|
      ensures Earlier(t.seen[i], t.idx) && (Emitted(i, false) in t.view <==> Passes(g, t.idx.Rows()[i], t.bounds, t.seen[i]))
    {
      hide Ingested, AfterRound, NameFlags, IsMatch, Passes, Sane, Earlier, Rewritten, Told, Plays;
      if i < c {
        assert t.idx.Rows()[i] == sc.idx.Rows()[i];
        RowToldBefore(g, sc, round, i);
        StaysEarlier(sc.seen[i], sc.idx, t.idx);
      } else {
        StaysEarlier(round.tables, sc.idx, t.idx);
      }
    }
  }

  lemma StaysEarlier(tables: LiveIndex, a: LiveIndex, b: LiveIndex)
    ensures Earlier(tables, a) && Earlier(a, b) ==> Earlier(tables, b)
  {
  }

  /** What was told of a row stays told under the bound of the tick. */
  lemma RowToldBefore(g: Setting, sc: Screen, round: Round, i: nat)
    requires Told(g, sc) && Plays(sc, round) && i < |sc.seen|
    ensures Earlier(sc.seen[i], sc.idx)
    ensures Emitted(i, false) in sc.view <==> Passes(g, sc.idx.Rows()[i], round.bounds, sc.seen[i])
  {
  }

  lemma {:induction false} RoundTellsContext(g: Setting, sc: Screen, round: Round)
    requires Told(g, sc) && ContextTold(g, sc) && Plays(sc, round)
    ensures ContextTold(g, AfterRound(g, sc, round))
  {
    var t := AfterRound(g, sc, round);
    var c := RoundIs(g, sc, round);
    RowsKept(g, sc.idx, round.bytes);
    NameFlagsAt(g, t.idx.Rows(), round.bounds, round.tables);
    hide Ingested, AfterRound, NameFlags, IsMatch, Criteria.Admits, Criteria.Late, TextPasses, InBounds, ValidNames, Rewritten, Sane, Earlier, Told, Passes;
    if !g.c.rest.text.Active() {
      forall e | e in t.view && e.isContext && 0 <= e.row < |t.seen| ensures Missed(t.idx.Rows()[e.row], g.c, t.bounds, t.seen[e.row]) {
        var q := e.row;
        assert t.idx.Rows()[q] == sc.idx.Rows()[q];
        if e !in sc.view { LateNotShown(g, sc, q, round.bounds); }
      }
    }
  }

  /** A row that now is in bound and was not listed was late for the filter that evaluated it. */
  lemma LateNotShown(g: Setting, sc: Screen, q: int, bounds: Runs.Bounds)
    requires Told(g, sc) && !g.c.rest.text.Active() && 0 <= q < |sc.seen| && Emitted(q, false) !in sc.view
    requires InBounds(sc.idx.Rows()[q], sc.bounds) == InBounds(sc.idx.Rows()[q], bounds)
    requires InBounds(sc.idx.Rows()[q], bounds) && g.c.Admits(sc.idx.Rows()[q])
    ensures Missed(sc.idx.Rows()[q], g.c, bounds, sc.seen[q])
  {
  }

  // ---------------------------------------------------------------------------
  // Histories
  // ---------------------------------------------------------------------------

  function AfterRounds(g: Setting, sc: Screen, rounds: seq<Round>): Screen
    requires |sc.seen| == |sc.idx.records|
    decreases |rounds|
  {
    if rounds == [] then sc
    else
      IngestedLonger(g, sc.idx, rounds[0].bytes);
      AfterRounds(g, AfterRound(g, sc, rounds[0]), rounds[1..])
  }

  ghost predicate AllPlay(g: Setting, sc: Screen, rounds: seq<Round>)
    requires |sc.seen| == |sc.idx.records|
    decreases |rounds|
  {
    rounds == [] || (Plays(sc, rounds[0]) && AllPlay(g, AfterRound(g, sc, rounds[0]), rounds[1..]))
  }

  function BytesOf(rounds: seq<Round>): seq<seq<Byte>> {
    seq(|rounds|, i requires 0 <= i < |rounds| => rounds[i].bytes)
  }

  lemma {:induction false} RoundsTell(g: Setting, sc: Screen, rounds: seq<Round>)
    requires Told(g, sc) && ContextTold(g, sc) && AllPlay(g, sc, rounds)
    ensures Told(g, AfterRounds(g, sc, rounds)) && ContextTold(g, AfterRounds(g, sc, rounds))
    decreases |rounds|
  {
    assert |sc.seen| == |sc.idx.records|;
    hide Told, ContextTold, Plays, AfterRound;
    if rounds != [] {
      RoundTells(g, sc, rounds[0]);
      RoundTellsContext(g, sc, rounds[0]);
      RoundsTell(g, AfterRound(g, sc, rounds[0]), rounds[1..]);
    }
  }

  /** The index of the screen is the ingested one. */
  lemma {:induction false} RoundsIngest(g: Setting, sc: Screen, rounds: seq<Round>)
    requires |sc.seen| == |sc.idx.records|
    ensures AfterRounds(g, sc, rounds).idx == IngestedAll(g.fmt, g.enc, sc.idx, BytesOf(rounds), g.start)
    decreases |rounds|
  {
    if rounds != [] {
      NextIndex(g, sc, rounds[0]);
      hide AfterRound, Ingested;
      RoundsIngest(g, AfterRound(g, sc, rounds[0]), rounds[1..]);
      assert BytesOf(rounds)[1..] == BytesOf(rounds[1..]) && BytesOf(rounds)[0] == rounds[0].bytes;
    }
  }

  lemma NextIndex(g: Setting, sc: Screen, round: Round)
    requires |sc.seen| == |sc.idx.records|
    ensures AfterRound(g, sc, round).idx == Ingested(g.fmt, g.enc, sc.idx, round.bytes, g.start)
  {
  }

  /** The screen of a filter that was just applied: every row evaluated in the same tables. */
  ghost function Applied(g: Setting, idx: LiveIndex, bounds: Runs.Bounds, tables: LiveIndex): Screen {
    Screen(idx, bounds, Widened(NameFlags(g, idx.Rows(), bounds, tables), g.before, g.after), seq(|idx.records|, _ => tables))
  }

  lemma AppliedTells(g: Setting, idx: LiveIndex, bounds: Runs.Bounds, tables: LiveIndex)
    requires idx.Valid() && Earlier(tables, idx)
    ensures Told(g, Applied(g, idx, bounds, tables)) && ContextTold(g, Applied(g, idx, bounds, tables))
  {
    var s := NameFlags(g, idx.Rows(), bounds, tables);
    NameFlagsAt(g, idx.Rows(), bounds, tables);
    ListMeans(s, g.before, g.after);
    hide NameFlags, Widened, Passes;
  }

  /** What a fresh list holds, told in the terms of a screen. */
  lemma ListMeans(s: seq<RowFlags>, before: nat, after: nat)
    ensures var view := Widened(s, before, after);
            && Sane(view, |s|) && (forall i :: Emitted(i, false) in view <==> IsMatch(s, i))
            && (before == 0 && after == 0 ==> forall e :: e in view ==> !e.isContext)
            && ((forall q :: 0 <= q < |s| && s[q].inBound ==> s[q].matches) ==> forall e :: e in view ==> !e.isContext)
  {
    VisibleBelowExact(s, |s|, |s|, before, after);
    if before == 0 && after == 0 {
      forall e | e in Widened(s, before, after) ensures !e.isContext { NoContextIsTheFilter(s, e.row); }
    }
    if forall q :: 0 <= q < |s| && s[q].inBound ==> s[q].matches { InertWhenAllMatch(s, |s|, |s|, before, after); }
  }

  // ---------------------------------------------------------------------------
  // Next to a fresh open
  // ---------------------------------------------------------------------------

  /** The view a fresh open of the final rows lists: nothing is late for it. */
  ghost function Wanted(g: Setting, rows: seq<Row>, bounds: Runs.Bounds): seq<Emitted> {
    Widened(AllWanted(g, rows, bounds), g.before, g.after)
  }

  function AllWanted(g: Setting, rows: seq<Row>, bounds: Runs.Bounds): seq<RowFlags> {
    seq(|rows|, i requires 0 <= i < |rows| => WantedFlags(g, rows[i], bounds))
  }

  function WantedFlags(g: Setting, row: Row, bounds: Runs.Bounds): RowFlags {
    RowFlags(InBounds(row, bounds) && g.c.Admits(row), TextPasses(row, g.c, g.text))
  }

  /** It is what a fresh index, its filter resolved in its own tables, lists. */
  lemma WantedIsFresh(g: Setting, anew: LiveIndex, reopened: ViewConfig, bounds: Runs.Bounds)
    requires anew.Valid() && Stands(reopened, g.c, bounds, g.text, anew)
    ensures Widened(FlagsOf(anew.records, reopened), g.before, g.after) == Wanted(g, anew.Rows(), bounds)
  {
    var want := AllWanted(g, anew.Rows(), bounds);
    forall i | 0 <= i < |anew.records| ensures FlagsOf(anew.records, reopened)[i] == want[i] {
      FlagsAreByName(anew, reopened, g.c, bounds, g.text, anew, i);
      NothingIsLate(anew.Rows()[i], g.c, anew, i);
    }
    hide Widened;
    assert FlagsOf(anew.records, reopened) == want;
  }

  /** The row would be listed as a match by a fresh open, and was too late for the filter that
      evaluated it last. */
  predicate MissedAtLast(g: Setting, sc: Screen, i: nat)
    requires i < |sc.seen| == |sc.idx.records|
  {
    Missed(sc.idx.Rows()[i], g.c, sc.bounds, sc.seen[i]) && TextPasses(sc.idx.Rows()[i], g.c, g.text)
  }

  /** The matches a screen lists are the fresh ones without those that were late when evaluated
      last; and where there is no context to speak of, the two lists are one exactly when there
      is no such row. */
  ghost predicate Compared(g: Setting, sc: Screen, wanted: seq<Emitted>) {
    && |sc.seen| == |sc.idx.records|
    && (forall i :: 0 <= i < |sc.seen| ==> (Emitted(i, false) in sc.view <==> Emitted(i, false) in wanted && !MissedAtLast(g, sc, i)))
    && (forall i :: 0 <= i < |sc.seen| && MissedAtLast(g, sc, i) ==> Emitted(i, false) in wanted)
    && ((g.before == 0 && g.after == 0) || !g.c.rest.text.Active() ==>
          (sc.view == wanted <==> forall i :: 0 <= i < |sc.seen| ==> !MissedAtLast(g, sc, i)))
  }

  lemma ScreenAgainstFresh(g: Setting, sc: Screen)
    requires Told(g, sc) && ContextTold(g, sc)
    ensures Compared(g, sc, Wanted(g, sc.idx.Rows(), sc.bounds))
  {
    var rows := sc.idx.Rows();
    var want := AllWanted(g, rows, sc.bounds);
    var wanted := Wanted(g, rows, sc.bounds);
    ListMeans(want, g.before, g.after);
    hide Widened, Criteria.Admits, Criteria.Late, InBounds;
    forall i | 0 <= i < |sc.seen| ensures Emitted(i, false) in sc.view <==> Emitted(i, false) in wanted && !MissedAtLast(g, sc, i)
      ensures MissedAtLast(g, sc, i) ==> Emitted(i, false) in wanted
    {
      assert IsMatch(want, i) <==> want[i].inBound && want[i].matches;
    }
    if ((g.before == 0 && g.after == 0) || !g.c.rest.text.Active()) && forall i :: 0 <= i < |sc.seen| ==> !MissedAtLast(g, sc, i) {
      NoContextLeft(g, sc, want);
      SameElements(sc.view, wanted, |rows|);
    }
  }

  lemma NoContextLeft(g: Setting, sc: Screen, want: seq<RowFlags>)
    requires Told(g, sc) && ContextTold(g, sc) && ((g.before == 0 && g.after == 0) || !g.c.rest.text.Active())
    requires |want| == |sc.seen| && forall i :: 0 <= i < |want| ==> want[i] == WantedFlags(g, sc.idx.Rows()[i], sc.bounds)
    requires forall i :: 0 <= i < |sc.seen| ==> !MissedAtLast(g, sc, i)
    ensures forall e :: e in sc.view ==> !e.isContext
    ensures forall e :: e in Widened(want, g.before, g.after) ==> !e.isContext
  {
    ListMeans(want, g.before, g.after);
    hide Widened, Criteria.Admits, Criteria.Late, InBounds;
    if !g.c.rest.text.Active() {
      forall e | e in sc.view ensures !e.isContext { assert !MissedAtLast(g, sc, e.row); }
    }
  }

  /** Two ascending lists of matches with the same rows are one. */
  lemma {:induction false} SameElements(a: seq<Emitted>, b: seq<Emitted>, n: nat)
    requires Sane(a, n) && Sane(b, n) && (forall e :: e in a ==> !e.isContext) && (forall e :: e in b ==> !e.isContext)
    requires forall i :: 0 <= i < n ==> (Emitted(i, false) in a <==> Emitted(i, false) in b)
    ensures a == b
    decreases n
  {
    if n > 0 {
      var x, y := Below(a, n - 1), Below(b, n - 1);
      BelowMeans(a, n - 1);
      BelowMeans(b, n - 1);
      hide Below, Sane;
      SameElements(x, y, n - 1);
      assert Emitted(n - 1, false) in a <==> Emitted(n - 1, false) in b;
    }
  }

  /** The list without the row `m`, when that is its last. */
  function Below(a: seq<Emitted>, m: int): seq<Emitted> {
    if a != [] && a[|a| - 1].row == m then a[..|a| - 1] else a
  }

  lemma BelowMeans(a: seq<Emitted>, m: int)
    requires Sane(a, m + 1) && forall e :: e in a ==> !e.isContext
    ensures Sane(Below(a, m), m) && (forall e :: e in Below(a, m) ==> !e.isContext)
    ensures forall i :: i < m ==> (Emitted(i, false) in a <==> Emitted(i, false) in Below(a, m))
    ensures a == if Emitted(m, false) in a then Below(a, m) + [Emitted(m, false)] else Below(a, m)
  {
    if a != [] {
      var front, last := a[..|a| - 1], a[|a| - 1];
      assert a == front + [last] && last in a;
      FrontIsBelow(a);
      hide Sane;
      if last.row == m { assert last == Emitted(m, false); }
    }
  }

  /** Everything in front of the last entry of an ascending list lies below it. */
  lemma FrontIsBelow(a: seq<Emitted>)
    requires a != [] && Ascending(a) && forall e :: e in a ==> 0 <= e.row
    ensures Sane(a[..|a| - 1], a[|a| - 1].row) && Sane(a, a[|a| - 1].row + 1)
  {
    forall e | e in a ensures e.row <= a[|a| - 1].row { var k :| 0 <= k < |a| && a[k] == e; }
    forall e | e in a[..|a| - 1] ensures e.row < a[|a| - 1].row { var k :| 0 <= k < |a| - 1 && a[k] == e; }
  }

  lemma LastBytes(rounds: seq<Round>, was: seq<Byte>)
    ensures (if BytesOf(rounds) == [] then was else BytesOf(rounds)[|BytesOf(rounds)| - 1])
            == (if rounds == [] then was else rounds[|rounds| - 1].bytes)
  {
  }

  /** By name the screen's rows are those of the final bytes. */
  lemma RoundsIndexed(g: Setting, sc: Screen, was: seq<Byte>, rounds: seq<Round>)
    requires |sc.seen| == |sc.idx.records| && sc.idx.Valid()
    requires sc.idx.Rows() == IndexedRows(g.fmt, g.enc, was, g.start) && Grows(g.fmt, g.enc, was, BytesOf(rounds), g.start)
    ensures AfterRounds(g, sc, rounds).idx.Rows()
            == IndexedRows(g.fmt, g.enc, if rounds == [] then was else rounds[|rounds| - 1].bytes, g.start)
  {
    RoundsIngest(g, sc, rounds);
    LastBytes(rounds, was);
    hide IndexedRows, Grows, AfterRounds, IngestedAll, LiveIndex.Valid, BytesOf;
    TailedEqualsIndexed(g.fmt, g.enc, sc.idx, was, BytesOf(rounds), g.start);
  }

  /** A log tailed through any growths in which no start is lost, its filter resolved again before
      any of the ticks in the tables of any earlier moment, next to a fresh open of the final
      bytes under the same names: the rows are the same, and the lists compare as above. */
  lemma {:induction false} RoundsAgainstFresh(g: Setting, sc: Screen, was: seq<Byte>, rounds: seq<Round>, anew: LiveIndex, reopened: ViewConfig)
    requires Told(g, sc) && ContextTold(g, sc) && sc.idx.Rows() == IndexedRows(g.fmt, g.enc, was, g.start)
    requires Grows(g.fmt, g.enc, was, BytesOf(rounds), g.start) && AllPlay(g, sc, rounds)
    requires anew.Valid() && anew.Rows() == IndexedRows(g.fmt, g.enc, if rounds == [] then was else rounds[|rounds| - 1].bytes, g.start)
    requires Stands(reopened, g.c, AfterRounds(g, sc, rounds).bounds, g.text, anew)
    ensures var t := AfterRounds(g, sc, rounds);
            t.idx.Rows() == anew.Rows() && Compared(g, t, Widened(FlagsOf(anew.records, reopened), g.before, g.after))
  {
    RoundsTell(g, sc, rounds);
    RoundsIndexed(g, sc, was, rounds);
    hide IndexedRows, Grows, AfterRounds, AllPlay, Widened, Wanted, Stands, FlagsOf, Told, ContextTold, BytesOf, ValidNames, Compared;
    WantedIsFresh(g, anew, reopened, AfterRounds(g, sc, rounds).bounds);
    ScreenAgainstFresh(g, AfterRounds(g, sc, rounds));
  }

  /** At every tick no row of the index is late for the tick's filter. */
  ghost predicate AllTimely(g: Setting, sc: Screen, rounds: seq<Round>)
    requires |sc.seen| == |sc.idx.records|
    decreases |rounds|
  {
    rounds == [] || (Timely(g, AfterRound(g, sc, rounds[0]).idx.Rows(), rounds[0]) && AllTimely(g, AfterRound(g, sc, rounds[0]), rounds[1..]))
  }

  ghost predicate Timely(g: Setting, rows: seq<Row>, round: Round) {
    forall i :: 0 <= i < |rows| ==> !Missed(rows[i], g.c, round.bounds, round.tables)
  }

  /** A timely tick takes the fresh list to the fresh list, whatever the windows and the text. */
  lemma {:induction false} TimelyRound(g: Setting, sc: Screen, round: Round)
    requires Told(g, sc) && Plays(sc, round) && sc.view == Wanted(g, sc.idx.Rows(), sc.bounds)
    requires Timely(g, AfterRound(g, sc, round).idx.Rows(), round)
    ensures var t := AfterRound(g, sc, round);
            t.view == Wanted(g, t.idx.Rows(), t.bounds)
  {
    var now := Ingested(g.fmt, g.enc, sc.idx, round.bytes, g.start);
    var changed := Rewritten(sc.idx.records, now.records);
    RowsKept(g, sc.idx, round.bytes);
    NextIndex(g, sc, round);
    var s, t := AllWanted(g, sc.idx.Rows(), sc.bounds), AllWanted(g, now.Rows(), round.bounds);
    TimelyFlags(g, now.Rows(), round);
    hide Ingested, Criteria.Admits, Criteria.Late, TextPasses, InBounds, ValidNames, Widened, Tick, NameFlags, Told, Missed;
    forall i | 0 <= i < |s| && (i < |s| - 1 || !changed) ensures s[i] == t[i] { assert now.Rows()[i] == sc.idx.Rows()[i]; }
    TickIsFresh(s, t, changed, g.before, g.after);
    ViewAfter(g, sc, round);
  }

  lemma TimelyFlags(g: Setting, rows: seq<Row>, round: Round)
    requires Timely(g, rows, round)
    ensures NameFlags(g, rows, round.bounds, round.tables) == AllWanted(g, rows, round.bounds)
  {
    hide Criteria.Admits, Criteria.Late, TextPasses, InBounds;
    forall i | 0 <= i < |rows| ensures NameFlags(g, rows, round.bounds, round.tables)[i] == AllWanted(g, rows, round.bounds)[i] {
      assert !Missed(rows[i], g.c, round.bounds, round.tables);
    }
  }

  lemma ViewAfter(g: Setting, sc: Screen, round: Round)
    requires |sc.seen| == |sc.idx.records|
    ensures var now := Ingested(g.fmt, g.enc, sc.idx, round.bytes, g.start);
            var had := NameFlags(g, now.Rows(), round.bounds, round.tables);
            |sc.seen| <= |had| && AfterRound(g, sc, round).bounds == round.bounds
            && AfterRound(g, sc, round).view == Tick(sc.view, had, |sc.seen|, Rewritten(sc.idx.records, now.records), g.before, g.after)
  {
    IngestedLonger(g, sc.idx, round.bytes);
  }

  /** So for any schedule in which no tick meets a row late for its filter, the tailed list is the
      fresh one, context rows included. */
  lemma {:induction false} TimelyRoundsAreFresh(g: Setting, sc: Screen, rounds: seq<Round>)
    requires Told(g, sc) && AllPlay(g, sc, rounds) && AllTimely(g, sc, rounds)
    requires sc.view == Wanted(g, sc.idx.Rows(), sc.bounds)
    ensures var t := AfterRounds(g, sc, rounds);
            t.view == Wanted(g, t.idx.Rows(), t.bounds)
    decreases |rounds|
  {
    assert |sc.seen| == |sc.idx.records|;
    hide Told, Plays, Timely, AfterRound, Wanted;
    if rounds != [] {
      RoundTells(g, sc, rounds[0]);
      TimelyRound(g, sc, rounds[0]);
      TimelyRoundsAreFresh(g, AfterRound(g, sc, rounds[0]), rounds[1..]);
    }
  }

  // ---------------------------------------------------------------------------
  // The program's ticks
  // ---------------------------------------------------------------------------

  /** The document has the windows of the setting, and decodes a message from the bytes alone. */
  ghost predicate Configured(doc: Document, g: Setting)
    reads doc
  {
    doc.contextBefore == g.before && doc.contextAfter == g.after && forall r :: doc.message(r) == g.text(r.offset, r.length)
  }

  /** One tick of a document whose filter was resolved in `tables`: its view is the screen's. */
  method PlayRound(doc: Document, g: Setting, loggers: seq<string>, threads: seq<string>, tables: LiveIndex, bytes: seq<Byte>, chunk: int,
                   ghost seen: seq<LiveIndex>)
    returns (loggers': seq<string>, threads': seq<string>)
    requires doc.Valid() && doc.idx.SumsFresh() && doc.filtered.active && doc.ViewIsSane() && Configured(doc, g)
    requires LiveIndex(doc.idx.records, loggers, threads).Valid() && Anchored(doc.idx.records) && |seen| == |doc.idx.records|
    requires Earlier(tables, LiveIndex(doc.idx.records, loggers, threads)) && |bytes| <= MAX_OFFSET && 1 <= chunk
    modifies doc.idx, doc.filtered, doc.filtered.compact, doc`runs, doc`bounds, doc`filters
    ensures doc.Valid() && doc.idx.SumsFresh() && doc.filtered.active && doc.ViewIsSane() && Configured(doc, g) && Anchored(doc.idx.records)
    ensures var sc := Screen(LiveIndex(old(doc.idx.records), loggers, threads), old(doc.bounds), old(doc.filtered.View()), seen);
            var t := AfterRound(g, sc, Round(bytes, tables, doc.bounds));
            && Plays(sc, Round(bytes, tables, doc.bounds))
            && t.idx == LiveIndex(doc.idx.records, loggers', threads') && t.idx.Valid() && Earlier(sc.idx, t.idx)
            && t.bounds == doc.bounds && t.view == doc.filtered.View()
  {
    ghost var sc := Screen(LiveIndex(doc.idx.records, loggers, threads), doc.bounds, doc.filtered.View(), seen);
    RowsKept(g, sc.idx, bytes);
    hide Ingested, NameFlags, FlagsOf, Tick, Sane, OffsetsAscend, ValidNames, Runs.InRunBound, Rewritten, Criteria.Resolve, Widened, AfterRound, Earlier, Configured;
    StaysEarlier(tables, sc.idx, Ingested(g.fmt, g.enc, sc.idx, bytes, g.start));
    doc.filters := g.c.Resolve(tables.loggers, tables.threads);
    assert Configured(doc, g);
    loggers', threads' := IngestGrowth(doc, loggers, threads, g.fmt, g.enc, bytes, g.start, chunk);
    assert Configured(doc, g);
    BoundsAgree(sc, Round(bytes, tables, doc.bounds));
    TickIsRound(doc, g, sc, Round(bytes, tables, doc.bounds));
  }

  /** The view a tick left is the screen's. */
  lemma TickIsRound(doc: Document, g: Setting, sc: Screen, round: Round)
    requires |sc.seen| == |sc.idx.records| && Configured(doc, g) && doc.filters == g.c.Resolve(round.tables.loggers, round.tables.threads)
    requires doc.bounds == round.bounds && |doc.filtered.visible| == |doc.filtered.context|
    requires var now := Ingested(g.fmt, g.enc, sc.idx, round.bytes, g.start);
             && now.Valid() && Earlier(round.tables, now) && now.records == doc.idx.records && |sc.idx.records| <= |now.records|
             && doc.filtered.View() == Tick(sc.view, doc.Flags(), |sc.idx.records|, Rewritten(sc.idx.records, now.records),
                                            doc.contextBefore, doc.contextAfter)
    ensures var t := AfterRound(g, sc, round);
            t.idx == Ingested(g.fmt, g.enc, sc.idx, round.bytes, g.start) && t.bounds == doc.bounds && t.view == doc.filtered.View()
  {
    FlagsAreNamed(g, doc, Ingested(g.fmt, g.enc, sc.idx, round.bytes, g.start), round.tables);
    hide Ingested, NameFlags, Tick, FlagsOf, AfterRound, Rewritten, Earlier;
    NextIndex(g, sc, round);
    ViewAfter(g, sc, round);
  }

  lemma FlagsAreNamed(g: Setting, doc: Document, now: LiveIndex, tables: LiveIndex)
    requires now.Valid() && Earlier(tables, now) && now.records == doc.idx.records
    requires Configured(doc, g) && doc.filters == g.c.Resolve(tables.loggers, tables.threads)
    ensures doc.Flags() == NameFlags(g, now.Rows(), doc.bounds, tables)
  {
    forall i | 0 <= i < |now.records| ensures doc.Flags()[i] == NameFlags(g, now.Rows(), doc.bounds, tables)[i] {
      FlagsAreByName(now, doc.Config(), g.c, doc.bounds, g.text, tables, i);
    }
  }

  lemma BoundsAgree(sc: Screen, round: Round)
    requires Earlier(round.tables, sc.idx)
    requires forall i :: 0 <= i < |sc.idx.records| ==>
                           Runs.InRunBound(sc.bounds, sc.idx.records[i]) == Runs.InRunBound(round.bounds, sc.idx.records[i])
    ensures Plays(sc, round)
  {
    forall i | 0 <= i < |sc.idx.records| ensures InBounds(sc.idx.Rows()[i], sc.bounds) == InBounds(sc.idx.Rows()[i], round.bounds) {
      assert Runs.InRunBound(sc.bounds, sc.idx.records[i]) == Runs.InRunBound(round.bounds, sc.idx.records[i]);
    }
  }

  /** In a foreground tab the filter is resolved again after every tick, in the tables as they are. */
  ghost predicate Foreground(g: Setting, sc: Screen, rounds: seq<Round>)
    requires |sc.seen| == |sc.idx.records|
    decreases |rounds|
  {
    rounds == [] || (rounds[0].tables == sc.idx && Foreground(g, AfterRound(g, sc, rounds[0]), rounds[1..]))
  }

  /** Tailing in the foreground: before each tick the filter is resolved in the tables so far. */
  method TailInForeground(doc: Document, g: Setting, loggers: seq<string>, threads: seq<string>, growths: seq<seq<Byte>>, chunk: int,
                          ghost seen: seq<LiveIndex>)
    returns (loggers': seq<string>, threads': seq<string>, ghost rounds: seq<Round>)
    requires doc.Valid() && doc.idx.SumsFresh() && doc.filtered.active && doc.ViewIsSane() && Configured(doc, g)
    requires LiveIndex(doc.idx.records, loggers, threads).Valid() && Anchored(doc.idx.records) && |seen| == |doc.idx.records|
    requires (forall i :: 0 <= i < |growths| ==> |growths[i]| <= MAX_OFFSET) && 1 <= chunk
    modifies doc.idx, doc.filtered, doc.filtered.compact, doc`runs, doc`bounds, doc`filters
    ensures doc.Valid() && doc.filtered.active && doc.ViewIsSane() && BytesOf(rounds) == growths
    ensures var sc := Screen(LiveIndex(old(doc.idx.records), loggers, threads), old(doc.bounds), old(doc.filtered.View()), seen);
            var t := AfterRounds(g, sc, rounds);
            && AllPlay(g, sc, rounds) && Foreground(g, sc, rounds)
            && t.idx == LiveIndex(doc.idx.records, loggers', threads') && t.bounds == doc.bounds && t.view == doc.filtered.View()
    decreases growths
  {
    hide Sane, Anchored, AfterRound, Plays, OffsetsAscend, LiveIndex.Valid;
    loggers', threads', rounds := loggers, threads, [];
    if growths != [] {
      var tables := LiveIndex(doc.idx.records, loggers, threads);
      ghost var sc := Screen(tables, doc.bounds, doc.filtered.View(), seen);
      OwnTables(tables);
      loggers', threads' := PlayRound(doc, g, loggers, threads, tables, growths[0], chunk, seen);
      ghost var round := Round(growths[0], tables, doc.bounds);
      ghost var rest;
      loggers', threads', rest := TailInForeground(doc, g, loggers', threads', growths[1..], chunk, AfterRound(g, sc, round).seen);
      rounds := [round] + rest;
      assert rounds[1..] == rest;
      assert BytesOf(rounds) == [growths[0]] + BytesOf(rest) == growths;
    }
  }

  lemma OwnTables(idx: LiveIndex)
    requires idx.Valid()
    ensures Earlier(idx, idx)
  {
  }

  /** There a name is late in the tick that brings it and in no later one: a row added behind
      `sc` whose names `sc` knows is never missed. */
  lemma {:induction false} KnownNamesAreShown(g: Setting, sc: Screen, rounds: seq<Round>, i: nat)
    requires Told(g, sc) && ContextTold(g, sc) && AllPlay(g, sc, rounds) && Foreground(g, sc, rounds)
    ensures var t := AfterRounds(g, sc, rounds);
            |t.seen| == |t.idx.records|
            && (|sc.seen| <= i < |t.seen| && t.idx.Rows()[i].logger in sc.idx.loggers && t.idx.Rows()[i].thread in sc.idx.threads ==>
                  !MissedAtLast(g, t, i))
  {
    SeenBehind(g, sc, rounds, sc.idx, |sc.seen|);
    RoundsTell(g, sc, rounds);
    hide Told, ContextTold, AllPlay, Foreground, AfterRounds;
    var t := AfterRounds(g, sc, rounds);
    if |sc.seen| <= i < |t.seen| { assert Knows(sc.idx, t.seen[i]); }
  }

  ghost predicate AllKnow(base: LiveIndex, seen: seq<LiveIndex>, n: nat) {
    forall i :: n <= i < |seen| ==> Knows(base, seen[i])
  }

  predicate Knows(base: LiveIndex, tables: LiveIndex) {
    base.loggers <= tables.loggers && base.threads <= tables.threads
  }

  lemma {:induction false} SeenBehind(g: Setting, sc: Screen, rounds: seq<Round>, base: LiveIndex, n: nat)
    requires Told(g, sc) && AllPlay(g, sc, rounds) && Foreground(g, sc, rounds)
    requires n <= |sc.seen| && Knows(base, sc.idx) && AllKnow(base, sc.seen, n)
    ensures var t := AfterRounds(g, sc, rounds);
            AllKnow(base, t.seen, n)
    decreases |rounds|
  {
    assert |sc.seen| == |sc.idx.records|;
    hide Told, Plays, AfterRound, Knows, AllKnow;
    if rounds != [] {
      RoundTells(g, sc, rounds[0]);
      SeenAfter(g, sc, rounds[0], base, n);
      SeenBehind(g, AfterRound(g, sc, rounds[0]), rounds[1..], base, n);
    }
  }

  lemma SeenAfter(g: Setting, sc: Screen, round: Round, base: LiveIndex, n: nat)
    requires Told(g, sc) && round.tables == sc.idx
    requires n <= |sc.seen| && Knows(base, sc.idx) && AllKnow(base, sc.seen, n)
    ensures var t := AfterRound(g, sc, round);
            n <= |t.seen| && Knows(base, t.idx) && AllKnow(base, t.seen, n)
  {
    var c := RoundIs(g, sc, round);
    RowsKept(g, sc.idx, round.bytes);
    KnowsMore(base, sc.idx, AfterRound(g, sc, round).idx);
    hide Told, AfterRound, Ingested, NameFlags, Knows, Earlier, IsMatch, Sane;
  }

  lemma KnowsMore(base: LiveIndex, a: LiveIndex, b: LiveIndex)
    requires Knows(base, a) && Earlier(a, b)
    ensures Knows(base, b)
  {
  }
}
