/** Runs: the stretches of a log between run-start markers, and what is summed over them. */
module Runs {
  import opened Records

  datatype Run = Run(startRecord: nat, startOffset: int, startTimestamp: int, firstLine: string, isPreamble: bool)

  /** The run-start matcher and the first-line decode, uninterpreted over a record: the bytes
      of a record never change while the record does not. */
  datatype Marker = Marker(isStart: Record -> bool, firstLine: Record -> string)

  function RunAt(m: Marker, recs: seq<Record>, i: nat, preamble: bool): Run
    requires i < |recs|
  {
    Run(i, recs[i].offset, recs[i].timestamp, m.firstLine(recs[i]), preamble)
  }

  /** The run list after record `i`: a marker opens a run, and the first marker turns the
      records in front of it into a preamble. */
  function RunsStep(m: Marker, recs: seq<Record>, runs: seq<Run>, i: nat): seq<Run>
    requires i < |recs|
  {
    if !m.isStart(recs[i]) then runs
    else runs + (if runs == [] && i > 0 then [RunAt(m, recs, 0, true)] else []) + [RunAt(m, recs, i, false)]
  }

  function RunsAfter(m: Marker, recs: seq<Record>, runs: seq<Run>, from: nat, hi: nat): seq<Run>
    requires hi <= |recs|
    decreases hi
  {
    if hi <= from then runs else RunsStep(m, recs, RunsAfter(m, recs, runs, from, hi - 1), hi - 1)
  }

  /** The run list a full detection finds. */
  function DetectedRuns(m: Marker, recs: seq<Record>): seq<Run> {
    RunsAfter(m, recs, [], 0, |recs|)
  }

  /** First record past run `k`. */
  function RunEnd(runs: seq<Run>, k: nat, n: nat): nat {
    if k + 1 < |runs| then runs[k + 1].startRecord else n
  }

  /** The runs tile the records: the first starts at record 0, each ends where the next
      begins, and every marker starts a run of its own. */
  ghost predicate Tiles(m: Marker, recs: seq<Record>, n: nat, runs: seq<Run>)
    requires n <= |recs|
  {
    && (runs != [] ==> runs[0].startRecord == 0)
    && (forall k :: 0 <= k < |runs| ==> RunOk(m, recs, n, runs[k]))
    && (forall j, k :: 0 <= j < k < |runs| ==> runs[j].startRecord < runs[k].startRecord)
    && (forall k :: 0 < k < |runs| ==> !runs[k].isPreamble)
    && MarkersCovered(m, recs, n, runs)
  }

  /** A run carries the facts of the record it starts at; only a preamble starts at no marker. */
  ghost predicate RunOk(m: Marker, recs: seq<Record>, n: nat, r: Run)
    requires n <= |recs|
  {
    && r.startRecord < n && r.startOffset == recs[r.startRecord].offset && r.startTimestamp == recs[r.startRecord].timestamp
    && r.firstLine == m.firstLine(recs[r.startRecord])
    && (r.isPreamble <==> !m.isStart(recs[r.startRecord]))
  }

  ghost predicate MarkersCovered(m: Marker, recs: seq<Record>, n: nat, runs: seq<Run>)
    requires n <= |recs|
  {
    forall i :: 0 <= i < n && m.isStart(recs[i]) ==> exists k :: 0 <= k < |runs| && runs[k].startRecord == i
  }

  lemma {:induction false} DetectedRunsTile(m: Marker, recs: seq<Record>, n: nat)
    requires n <= |recs|
    ensures Tiles(m, recs, n, RunsAfter(m, recs, [], 0, n))
    decreases n
  {
    if n > 0 {
      DetectedRunsTile(m, recs, n - 1);
      TilesStep(m, recs, n, RunsAfter(m, recs, [], 0, n - 1));
    }
  }

  lemma TilesStep(m: Marker, recs: seq<Record>, n: nat, runs: seq<Run>)
    requires 0 < n <= |recs| && Tiles(m, recs, n - 1, runs)
    ensures Tiles(m, recs, n, RunsStep(m, recs, runs, n - 1))
  {
    if m.isStart(recs[n - 1]) {
      if runs == [] && n > 1 {
        FirstMarkerTiles(m, recs, n, runs);
      } else {
        MarkerTiles(m, recs, n, runs);
      }
    }
  }

  /** The first marker, with records in front of it: a preamble and a run. */
  lemma FirstMarkerTiles(m: Marker, recs: seq<Record>, n: nat, runs: seq<Run>)
    requires 1 < n <= |recs| && Tiles(m, recs, n - 1, runs) && runs == [] && m.isStart(recs[n - 1])
    ensures Tiles(m, recs, n, RunsStep(m, recs, runs, n - 1))
  {
    var now := RunsStep(m, recs, runs, n - 1);
    assert now == [RunAt(m, recs, 0, true), RunAt(m, recs, n - 1, false)];
    assert now[1].startRecord == n - 1;
  }

  lemma MarkerTiles(m: Marker, recs: seq<Record>, n: nat, runs: seq<Run>)
    requires 0 < n <= |recs| && Tiles(m, recs, n - 1, runs) && (runs != [] || n == 1) && m.isStart(recs[n - 1])
    ensures Tiles(m, recs, n, RunsStep(m, recs, runs, n - 1))
  {
    var now := RunsStep(m, recs, runs, n - 1);
    assert now == runs + [RunAt(m, recs, n - 1, false)];
    MarkersStayCovered(m, recs, n, runs, now);
    hide MarkersCovered, RunsStep;
    forall k | 0 <= k < |now| ensures RunOk(m, recs, n, now[k]) {
      if k < |runs| { assert RunOk(m, recs, n - 1, runs[k]); }
    }
    hide RunOk, RunAt;
    forall j, k | 0 <= j < k < |now| ensures now[j].startRecord < now[k].startRecord {
      StartsBefore(m, recs, n - 1, runs[j]);
    }
  }

  lemma StartsBefore(m: Marker, recs: seq<Record>, n: nat, r: Run)
    requires n <= |recs| && RunOk(m, recs, n, r)
    ensures r.startRecord < n
  {
  }

  lemma MarkersStayCovered(m: Marker, recs: seq<Record>, n: nat, runs: seq<Run>, now: seq<Run>)
    requires 0 < n <= |recs| && MarkersCovered(m, recs, n - 1, runs)
    requires runs <= now && |runs| < |now| && now[|now| - 1] == RunAt(m, recs, n - 1, false)
    ensures MarkersCovered(m, recs, n, now)
  {
    forall i | 0 <= i < n && m.isStart(recs[i]) ensures exists k :: 0 <= k < |now| && now[k].startRecord == i {
      if i < n - 1 {
        var k :| 0 <= k < |runs| && runs[k].startRecord == i;
        assert now[k].startRecord == i;
      } else {
        assert now[|now| - 1].startRecord == i;
      }
    }
  }

  lemma {:induction false} RunsAgree(m: Marker, a: seq<Record>, b: seq<Record>, n: nat)
    requires n <= |a| && n <= |b| && a[..n] == b[..n]
    ensures RunsAfter(m, a, [], 0, n) == RunsAfter(m, b, [], 0, n)
    decreases n
  {
    if n > 0 {
      assert a[..n - 1] == a[..n][..n - 1] == b[..n][..n - 1] == b[..n - 1];
      assert forall i :: 0 <= i < n ==> a[i] == a[..n][i] == b[..n][i] == b[i];
      RunsAgree(m, a, b, n - 1);
    }
  }

  lemma {:induction false} RunsSplit(m: Marker, recs: seq<Record>, mid: nat, hi: nat)
    requires mid <= hi <= |recs|
    ensures RunsAfter(m, recs, RunsAfter(m, recs, [], 0, mid), mid, hi) == RunsAfter(m, recs, [], 0, hi)
    decreases hi
  {
    if mid < hi { RunsSplit(m, recs, mid, hi - 1); }
  }

  /** An extension leaves the list it started from in place; the first new entry is a run
      starting at or past `from`, or a preamble. */
  lemma {:induction false} RunsExtend(m: Marker, recs: seq<Record>, runs: seq<Run>, from: nat, hi: nat)
    requires from <= hi <= |recs|
    ensures runs <= RunsAfter(m, recs, runs, from, hi)
    ensures var out := RunsAfter(m, recs, runs, from, hi);
            forall k :: |runs| <= k < |out| ==> out[k].startRecord >= from || (k == 0 && runs == [] && out[k].isPreamble)
    ensures var out := RunsAfter(m, recs, runs, from, hi);
            forall k :: |runs| <= k < |out| ==> out[k].startRecord < |recs| && out[k] == RunAt(m, recs, out[k].startRecord, out[k].isPreamble)
    decreases hi
  {
    if from < hi { RunsExtend(m, recs, runs, from, hi - 1); }
  }

  /** The incremental update started from the runs of `was` equals a full detection over
      `now` exactly when the re-read trailing record keeps its marker status and, being a
      marker, the facts its run was labelled with. */
  lemma {:induction false} UpdateEqualsDetect(m: Marker, was: seq<Record>, now: seq<Record>)
    requires 0 < |was| <= |now|
    requires was[..|was| - 1] == now[..|was| - 1]
    ensures var base := |was| - 1;
            RunsAfter(m, now, DetectedRuns(m, was), |was|, |now|) == DetectedRuns(m, now)
            <==> m.isStart(was[base]) == m.isStart(now[base])
                 && (m.isStart(now[base]) ==> RunAt(m, was, base, false) == RunAt(m, now, base, false))
  {
    var base := |was| - 1;
    RunsAgree(m, was, now, base);
    RunsSplit(m, now, |was|, |now|);
    if base > 0 { assert was[0] == was[..base][0] == now[..base][0] == now[0]; }
    UpdateDecidedByBase(m, RunsAfter(m, now, [], 0, base), was, now);
  }

  lemma UpdateDecidedByBase(m: Marker, runs: seq<Run>, was: seq<Record>, now: seq<Record>)
    requires 0 < |was| <= |now| && (|was| > 1 ==> was[0] == now[0])
    ensures var base := |was| - 1;
            RunsAfter(m, now, RunsStep(m, was, runs, base), |was|, |now|)
            == RunsAfter(m, now, RunsStep(m, now, runs, base), |was|, |now|)
            <==> m.isStart(was[base]) == m.isStart(now[base])
                 && (m.isStart(now[base]) ==> RunAt(m, was, base, false) == RunAt(m, now, base, false))
  {
    var base := |was| - 1;
    var a := RunsStep(m, was, runs, base);
    var b := RunsStep(m, now, runs, base);
    if m.isStart(was[base]) && m.isStart(now[base]) {
      var x := RunsAfter(m, now, a, |was|, |now|);
      var y := RunsAfter(m, now, b, |was|, |now|);
      RunsExtend(m, now, a, |was|, |now|);
      RunsExtend(m, now, b, |was|, |now|);
      LastsPinned(x, y, a, b);
    } else if m.isStart(was[base]) {
      RunsExtend(m, now, a, |was|, |now|);
      NotBehind(m, now, runs, a, |was|);
    } else if m.isStart(now[base]) {
      RunsExtend(m, now, b, |was|, |now|);
      NotBehind(m, now, runs, b, |was|);
    }
  }

  lemma LastsPinned(x: seq<Run>, y: seq<Run>, a: seq<Run>, b: seq<Run>)
    requires |a| == |b| > 0 && a <= x && b <= y
    ensures x == y ==> a[|a| - 1] == b[|b| - 1]
  {
    if x == y { assert x[|a| - 1] == a[|a| - 1] && y[|b| - 1] == b[|b| - 1]; }
  }

  /** A run of a record before `from` cannot be recovered by an update that starts there. */
  lemma NotBehind(m: Marker, now: seq<Record>, runs: seq<Run>, a: seq<Run>, from: nat)
    requires from <= |now| && |runs| < |a| && a[|a| - 1].startRecord < from && !a[|a| - 1].isPreamble
    ensures !(a <= RunsAfter(m, now, runs, from, |now|))
  {
    RunsExtend(m, now, runs, from, |now|);
    var out := RunsAfter(m, now, runs, from, |now|);
    assert |a| <= |out| ==> out[|a| - 1] != a[|a| - 1];
  }

  // ---------------------------------------------------------------------------
  // The run list over a whole history
  // ---------------------------------------------------------------------------

  /** How the index may move in one append: everything but the trailing record stays. */
  ghost predicate Appended(was: seq<Record>, now: seq<Record>) {
    |was| <= |now| && forall i :: 0 <= i < |was| - 1 ==> was[i] == now[i]
  }

  /** The index at the detection and after every append since. */
  ghost predicate History(h: seq<seq<Record>>) {
    h != [] && (|h| > 1 ==> History(h[..|h| - 1]) && Appended(h[|h| - 2], h[|h| - 1]))
  }

  /** The list a detection and an update per append leave. */
  function UpdatedOver(m: Marker, h: seq<seq<Record>>): seq<Run>
    requires h != []
  {
    if |h| == 1 then DetectedRuns(m, h[0])
    else RunsAfter(m, h[|h| - 1], UpdatedOver(m, h[..|h| - 1]), |h[|h| - 2]|, |h[|h| - 1]|)
  }

  /** Each record as it was when the update came across it. */
  function FirstSeen(h: seq<seq<Record>>): seq<Record>
    requires h != []
  {
    if |h| == 1 then h[0]
    else
      var front := FirstSeen(h[..|h| - 1]);
      if |h[|h| - 1]| < |front| then front else front + h[|h| - 1][|front|..]
  }

  /** The list over the records as they were first seen; a preamble is labelled with the
      first record as it ended up. */
  function RunsSeen(m: Marker, seen: seq<Record>, final: seq<Record>, n: nat): seq<Run>
    requires n <= |seen| && n <= |final|
  {
    if n == 0 then []
    else
      var runs := RunsSeen(m, seen, final, n - 1);
      if !m.isStart(seen[n - 1]) then runs
      else runs + (if runs == [] && n > 1 then [RunAt(m, final, 0, true)] else []) + [RunAt(m, seen, n - 1, false)]
  }

  lemma {:induction false} RunsSeenAgree(m: Marker, seen: seq<Record>, final: seq<Record>, seen': seq<Record>, final': seq<Record>, n: nat)
    requires n <= |seen| && n <= |final| && n <= |seen'| && n <= |final'|
    requires forall i :: 0 <= i < n ==> seen[i] == seen'[i]
    requires n > 1 ==> final[0] == final'[0]
    ensures RunsSeen(m, seen, final, n) == RunsSeen(m, seen', final', n)
  {
    if n > 0 { RunsSeenAgree(m, seen, final, seen', final', n - 1); }
  }

  lemma {:induction false} RunsSeenExtend(m: Marker, seen: seq<Record>, final: seq<Record>, k: nat, n: nat)
    requires k <= n <= |seen| && n <= |final| && forall i :: k <= i < n ==> seen[i] == final[i]
    ensures RunsAfter(m, final, RunsSeen(m, seen, final, k), k, n) == RunsSeen(m, seen, final, n)
    decreases n
  {
    if k < n { RunsSeenExtend(m, seen, final, k, n - 1); }
  }

  /** Over any history the list is the one of the records as they were first seen. */
  lemma {:induction false} UpdatedIsSeen(m: Marker, h: seq<seq<Record>>)
    requires History(h)
    ensures |FirstSeen(h)| == |h[|h| - 1]|
    ensures UpdatedOver(m, h) == RunsSeen(m, FirstSeen(h), h[|h| - 1], |h[|h| - 1]|)
    decreases |h|
  {
    var final := h[|h| - 1];
    if |h| == 1 {
      RunsSeenExtend(m, final, final, 0, |final|);
    } else {
      var front := h[..|h| - 1];
      UpdatedIsSeen(m, front);
      var was := h[|h| - 2];
      var seen := FirstSeen(h);
      RunsSeenAgree(m, FirstSeen(front), was, seen, final, |was|);
      RunsSeenExtend(m, seen, final, |was|, |final|);
    }
  }

  /** A record's first reading gave the run its final reading would give. */
  predicate KeptFromFirst(m: Marker, seen: seq<Record>, final: seq<Record>, i: nat)
    requires i < |seen| && i < |final|
  {
    m.isStart(seen[i]) == m.isStart(final[i]) && (m.isStart(final[i]) ==> RunAt(m, seen, i, false) == RunAt(m, final, i, false))
  }

  /** Runs that start below `n`, the last of them a proper one. */
  ghost predicate EndsProper(runs: seq<Run>, n: nat) {
    (forall k :: 0 <= k < |runs| ==> runs[k].startRecord < n) && (runs != [] ==> !runs[|runs| - 1].isPreamble)
  }

  lemma {:induction false} RunsSeenShape(m: Marker, seen: seq<Record>, final: seq<Record>, n: nat)
    requires n <= |seen| && n <= |final|
    ensures EndsProper(RunsSeen(m, seen, final, n), n)
  {
    if n > 0 { RunsSeenShape(m, seen, final, n - 1); }
  }

  /** The list equals the final one exactly when every record was first read as it ended. */
  lemma {:induction false} SeenIsDetected(m: Marker, seen: seq<Record>, final: seq<Record>, n: nat)
    requires n <= |seen| && n <= |final|
    ensures RunsSeen(m, seen, final, n) == RunsSeen(m, final, final, n) <==> forall i :: 0 <= i < n ==> KeptFromFirst(m, seen, final, i)
  {
    if n > 0 {
      SeenIsDetected(m, seen, final, n - 1);
      RunsSeenShape(m, seen, final, n - 1);
      RunsSeenShape(m, final, final, n - 1);
      var pre := if n > 1 then [RunAt(m, final, 0, true)] else [];
      StepDecides(RunsSeen(m, seen, final, n - 1), RunsSeen(m, final, final, n - 1), n - 1, pre,
                  m.isStart(seen[n - 1]), RunAt(m, seen, n - 1, false), m.isStart(final[n - 1]), RunAt(m, final, n - 1, false));
      assert RunsSeen(m, seen, final, n) == Stepped(RunsSeen(m, seen, final, n - 1), pre, m.isStart(seen[n - 1]), RunAt(m, seen, n - 1, false));
      assert RunsSeen(m, final, final, n) == Stepped(RunsSeen(m, final, final, n - 1), pre, m.isStart(final[n - 1]), RunAt(m, final, n - 1, false));
      assert KeptFromFirst(m, seen, final, n - 1)
             <==> m.isStart(seen[n - 1]) == m.isStart(final[n - 1])
                  && (m.isStart(final[n - 1]) ==> RunAt(m, seen, n - 1, false) == RunAt(m, final, n - 1, false));
      assert (forall i :: 0 <= i < n ==> KeptFromFirst(m, seen, final, i))
             <==> (forall i :: 0 <= i < n - 1 ==> KeptFromFirst(m, seen, final, i)) && KeptFromFirst(m, seen, final, n - 1);
    }
  }

  /** One record more: `a` and `b` so far, and what the record adds to each. */
  function Stepped(a: seq<Run>, pre: seq<Run>, start: bool, run: Run): seq<Run> {
    if !start then a else a + (if a == [] then pre else []) + [run]
  }

  lemma StepDecides(a: seq<Run>, b: seq<Run>, i: nat, pre: seq<Run>, sa: bool, ra: Run, sb: bool, rb: Run)
    requires EndsProper(a, i) && EndsProper(b, i) && ra.startRecord == rb.startRecord == i
    requires |pre| <= 1 && (pre != [] ==> pre[0].isPreamble) && (pre == [] ==> i == 0)
    ensures Stepped(a, pre, sa, ra) == Stepped(b, pre, sb, rb) <==> a == b && sa == sb && (sb ==> ra == rb)
  {
    var x, y := Stepped(a, pre, sa, ra), Stepped(b, pre, sb, rb);
    if sa && sb {
      var p, q := a + (if a == [] then pre else []), b + (if b == [] then pre else []);
      AppendEqual(p, ra, q, rb);
      assert (a == [] ==> p == pre) && (a != [] ==> p == a) && (b == [] ==> q == pre) && (b != [] ==> q == b);
      PreambleTells(a, b, i, pre);
      PreambleTells(b, a, i, pre);
    } else if sa {
      assert x[|x| - 1].startRecord == i;
    } else if sb {
      assert y[|y| - 1].startRecord == i;
    }
  }

  /** A list that has no run yet and one that has some stay apart. */
  lemma PreambleTells(a: seq<Run>, b: seq<Run>, i: nat, pre: seq<Run>)
    requires EndsProper(b, i) && |pre| <= 1 && (pre != [] ==> pre[0].isPreamble) && (pre == [] ==> i == 0)
    ensures a == [] && b != [] ==> pre != b
  {
    assert b != [] ==> b[0].startRecord < i && !b[|b| - 1].isPreamble;
  }

  lemma AppendEqual(p: seq<Run>, x: Run, q: seq<Run>, y: Run)
    ensures p + [x] == q + [y] <==> p == q && x == y
  {
    if p + [x] == q + [y] {
      assert p == (p + [x])[..|p|] && q == (q + [y])[..|q|];
      assert x == (p + [x])[|p|] && y == (q + [y])[|q|];
    }
  }

  ghost predicate AllKept(m: Marker, seen: seq<Record>, final: seq<Record>)
    requires |seen| == |final|
  {
    forall i :: 0 <= i < |final| ==> KeptFromFirst(m, seen, final, i)
  }

  /** Over any history of appends the updated list equals a full detection over the final
      index exactly when every record that the update came across while it was still
      growing kept its marker status and its run's facts. */
  lemma HistoryEqualsDetect(m: Marker, h: seq<seq<Record>>)
    requires History(h)
    ensures var final := h[|h| - 1];
            |FirstSeen(h)| == |final|
            && (UpdatedOver(m, h) == DetectedRuns(m, final) <==> AllKept(m, FirstSeen(h), final))
  {
    var final := h[|h| - 1];
    UpdatedIsSeen(m, h);
    SeenIsDetected(m, FirstSeen(h), final, |final|);
    RunsSeenExtend(m, final, final, 0, |final|);
  }

  /** The only line of a log, written in two halves. */
  const START_LINE := "APP START"

  /** The marker that asks for that line, read off a record of the log. */
  const APP_STARTS := Marker((r: Record) => 0 <= r.offset && r.offset + r.length <= |START_LINE|
                                            && START_LINE[r.offset..r.offset + r.length] == START_LINE,
                             (r: Record) => "")

  /** A first line that was still unterminated grows into a marker, and the run list never
      hears of it. */
  lemma GrownMarkerIsMissed() returns (h: seq<seq<Record>>)
    ensures h == [[Record(0, NO_TIMESTAMP, 4, 0, 0, 1, Unknown)], [Record(0, NO_TIMESTAMP, 9, 0, 0, 1, Unknown)]]
    ensures History(h) && UpdatedOver(APP_STARTS, h) == [] && |DetectedRuns(APP_STARTS, h[|h| - 1])| == 1
  {
    var m := APP_STARTS;
    var was := [Record(0, NO_TIMESTAMP, 4, 0, 0, 1, Unknown)];
    var now := [Record(0, NO_TIMESTAMP, 9, 0, 0, 1, Unknown)];
    h := [was, now];
    assert |START_LINE| == 9 && |START_LINE[0..4]| == 4 && START_LINE[0..9] == START_LINE;
    assert !m.isStart(was[0]) && m.isStart(now[0]);
    assert h[..1] == [was] && History([was]);
    assert RunsAfter(m, was, [], 0, 0) == [] && RunsAfter(m, now, [], 0, 0) == [];
    assert DetectedRuns(m, was) == [] && DetectedRuns(m, now) == [RunAt(m, now, 0, false)];
    assert UpdatedOver(m, [was]) == [];
    assert RunsAfter(m, now, [], 1, 1) == [];
  }

  // ---------------------------------------------------------------------------
  // The run bound of the view
  // ---------------------------------------------------------------------------

  datatype Bounds = Bounds(restricted: bool, start: int, end: int)

  function ViewBounds(runStartActive: bool, selected: int, runs: seq<Run>): Bounds {
    if !runStartActive || selected < 0 || selected >= |runs| then Bounds(false, -0x8000_0000_0000_0000, MAX_OFFSET)
    else Bounds(true, runs[selected].startOffset,
                if selected + 1 < |runs| then runs[selected + 1].startOffset else MAX_OFFSET)
  }

  predicate InRunBound(b: Bounds, r: Record) {
    !b.restricted || b.start <= r.offset < b.end
  }

  /** Runs opened by new records never move a record that was already there across the
      bound of the selected run. */
  lemma BoundKept(active: bool, selected: int, m: Marker, was: seq<Record>, now: seq<Record>, runs: seq<Run>, i: nat)
    requires i < |was| <= |now| && selected < |runs|
    requires forall j, k :: 0 <= j < k < |now| ==> now[j].offset < now[k].offset
    requires now[i].offset == was[i].offset < MAX_OFFSET
    ensures InRunBound(ViewBounds(active, selected, runs), was[i])
            == InRunBound(ViewBounds(active, selected, RunsAfter(m, now, runs, |was|, |now|)), now[i])
  {
    RunsExtend(m, now, runs, |was|, |now|);
    var out := RunsAfter(m, now, runs, |was|, |now|);
    assert forall k :: 0 <= k < |runs| ==> out[k] == runs[k];
  }

  /** With a run selected the bound admits exactly the records of that run: the byte offsets
      stand for the record numbers of the tiling. */
  lemma BoundIsTheRun(m: Marker, recs: seq<Record>, runs: seq<Run>, selected: nat, i: nat)
    requires Tiles(m, recs, |recs|, runs) && selected < |runs| && i < |recs|
    requires forall j, k :: 0 <= j < k < |recs| ==> recs[j].offset < recs[k].offset
    requires recs[i].offset < MAX_OFFSET
    ensures InRunBound(ViewBounds(true, selected, runs), recs[i])
            <==> runs[selected].startRecord <= i < RunEnd(runs, selected, |recs|)
  {
    assert RunOk(m, recs, |recs|, runs[selected]);
    if selected + 1 < |runs| { assert RunOk(m, recs, |recs|, runs[selected + 1]); }
  }

  /** Run starts that lie in the index and ascend. */
  ghost predicate Shaped(runs: seq<Run>, n: nat) {
    && (forall k :: 0 <= k < |runs| ==> runs[k].startRecord < n)
    && forall j, k :: 0 <= j < k < |runs| ==> runs[j].startRecord < runs[k].startRecord
  }

  lemma DetectedIsShaped(m: Marker, recs: seq<Record>)
    ensures Shaped(DetectedRuns(m, recs), |recs|)
  {
    DetectedRunsTile(m, recs, |recs|);
    var runs := DetectedRuns(m, recs);
    forall k | 0 <= k < |runs| ensures runs[k].startRecord < |recs| { assert RunOk(m, recs, |recs|, runs[k]); }
  }

  lemma {:induction false} UpdatedIsShaped(m: Marker, recs: seq<Record>, runs: seq<Run>, from: nat, hi: nat)
    requires from <= hi <= |recs| && Shaped(runs, from)
    ensures Shaped(RunsAfter(m, recs, runs, from, hi), hi)
    decreases hi
  {
    if from < hi { UpdatedIsShaped(m, recs, runs, from, hi - 1); }
  }

  // ---------------------------------------------------------------------------
  // Statistics folded over a run
  // ---------------------------------------------------------------------------

  datatype RunStats = RunStats(firstTimestamp: int, lastTimestamp: int, fatal: nat, error: nat, warn: nat)

  const NO_STATS := RunStats(NO_TIMESTAMP, NO_TIMESTAMP, 0, 0, 0)

  function StatsStep(st: RunStats, r: Record): RunStats {
    var st1 :=
      if r.timestamp == NO_TIMESTAMP then st
      else st.(firstTimestamp := if st.firstTimestamp == NO_TIMESTAMP then r.timestamp else st.firstTimestamp,
               lastTimestamp := r.timestamp);
    match r.priority
    case Fatal => st1.(fatal := st1.fatal + 1)
    case Error => st1.(error := st1.error + 1)
    case Warn => st1.(warn := st1.warn + 1)
    case _ => st1
  }

  /** The fresh fold over records [from, end). */
  function StatsOf(recs: seq<Record>, from: nat, end: nat): RunStats
    requires end <= |recs|
    decreases end
  {
    if end <= from then NO_STATS else StatsStep(StatsOf(recs, from, end - 1), recs[end - 1])
  }

  /** How many records of [from, end) have a priority. */
  ghost function CountOf(recs: seq<Record>, from: nat, end: nat, p: Priority): nat
    requires end <= |recs|
    decreases end
  {
    if end <= from then 0 else CountOf(recs, from, end - 1, p) + (if recs[end - 1].priority == p then 1 else 0)
  }

  ghost predicate FirstTimestampIs(recs: seq<Record>, from: nat, end: nat, t: int)
    requires end <= |recs|
  {
    if t == NO_TIMESTAMP then forall i :: from <= i < end ==> recs[i].timestamp == NO_TIMESTAMP
    else exists i :: from <= i < end && recs[i].timestamp == t && forall j :: from <= j < i ==> recs[j].timestamp == NO_TIMESTAMP
  }

  ghost predicate LastTimestampIs(recs: seq<Record>, from: nat, end: nat, t: int)
    requires end <= |recs|
  {
    if t == NO_TIMESTAMP then forall i :: from <= i < end ==> recs[i].timestamp == NO_TIMESTAMP
    else exists i :: from <= i < end && recs[i].timestamp == t && forall j :: i < j < end ==> recs[j].timestamp == NO_TIMESTAMP
  }

  /** What the fold means. */
  lemma {:induction false} StatsMeaning(recs: seq<Record>, from: nat, end: nat)
    requires from <= end <= |recs|
    ensures var st := StatsOf(recs, from, end);
            st.fatal == CountOf(recs, from, end, Fatal) && st.error == CountOf(recs, from, end, Error)
            && st.warn == CountOf(recs, from, end, Warn)
            && FirstTimestampIs(recs, from, end, st.firstTimestamp)
            && LastTimestampIs(recs, from, end, st.lastTimestamp)
    decreases end
  {
    if from < end { StatsMeaning(recs, from, end - 1); }
  }

  lemma {:induction false} CountSplits(recs: seq<Record>, from: nat, mid: nat, end: nat, p: Priority)
    requires from <= mid <= end <= |recs|
    ensures CountOf(recs, from, end, p) == CountOf(recs, from, mid, p) + CountOf(recs, mid, end, p)
    decreases end
  {
    if mid < end { CountSplits(recs, from, mid, end - 1, p); }
  }

  /** The count of one priority summed run by run, the first `k` runs. */
  ghost function SumOverRuns(recs: seq<Record>, runs: seq<Run>, k: nat, p: Priority): nat
    requires k <= |runs|
    requires forall j :: 0 <= j < |runs| ==> runs[j].startRecord <= |recs|
  {
    if k == 0 then 0
    else SumOverRuns(recs, runs, k - 1, p) + CountOf(recs, runs[k - 1].startRecord, RunEnd(runs, k - 1, |recs|), p)
  }

  /** The rows of the pane add up to its "All runs" row. */
  lemma {:induction false} RunsSumToFile(m: Marker, recs: seq<Record>, runs: seq<Run>, k: nat, p: Priority)
    requires Tiles(m, recs, |recs|, runs) && 0 < k <= |runs|
    ensures SumOverRuns(recs, runs, k, p) == CountOf(recs, 0, RunEnd(runs, k - 1, |recs|), p)
    decreases k
  {
    if k > 1 {
      RunsSumToFile(m, recs, runs, k - 1, p);
      CountSplits(recs, 0, runs[k - 1].startRecord, RunEnd(runs, k - 1, |recs|), p);
    }
  }

  /** Records up to `scanned` are all the memo has seen. */
  datatype StatsMemo = StatsMemo(stats: RunStats, scanned: int)

  ghost predicate MemoFor(memo: StatsMemo, recs: seq<Record>, from: nat) {
    memo.scanned < 0 || (from <= memo.scanned <= |recs| && memo.stats == StatsOf(recs, from, memo.scanned))
  }

  lemma {:induction false} StatsAgree(a: seq<Record>, b: seq<Record>, from: nat, end: nat)
    requires end <= |a| && end <= |b|
    requires forall i :: from <= i < end ==> a[i].timestamp == b[i].timestamp && a[i].priority == b[i].priority
    ensures StatsOf(a, from, end) == StatsOf(b, from, end)
    decreases end
  {
    if from < end { StatsAgree(a, b, from, end - 1); }
  }

  /** A fold going on from `st` over records [at, end). */
  function FoldOn(st: RunStats, recs: seq<Record>, at: nat, end: nat): RunStats
    requires end <= |recs|
    decreases end
  {
    if end <= at then st else StatsStep(FoldOn(st, recs, at, end - 1), recs[end - 1])
  }

  /** What asking a memo for [from, end) answers: it goes on from its cursor, or starts over
      when the cursor is out of range. */
  function Resumed(memo: StatsMemo, recs: seq<Record>, from: nat, end: nat): RunStats
    requires from <= end <= |recs|
  {
    if memo.scanned < from || memo.scanned > end then FoldOn(NO_STATS, recs, from, end)
    else FoldOn(memo.stats, recs, memo.scanned, end)
  }

  lemma {:induction false} FoldOnSplits(recs: seq<Record>, from: nat, mid: nat, end: nat)
    requires from <= mid <= end <= |recs|
    ensures FoldOn(StatsOf(recs, from, mid), recs, mid, end) == StatsOf(recs, from, end)
    decreases end
  {
    if mid < end { FoldOnSplits(recs, from, mid, end - 1); }
  }

  /** A sound memo answers the fresh fold. */
  lemma ResumedIsFresh(memo: StatsMemo, recs: seq<Record>, from: nat, end: nat)
    requires from <= end <= |recs| && MemoFor(memo, recs, from)
    ensures Resumed(memo, recs, from, end) == StatsOf(recs, from, end)
  {
    FoldOnSplits(recs, from, from, end);
    if from <= memo.scanned <= end { FoldOnSplits(recs, from, memo.scanned, end); }
  }

  /** A memo that is wrong stays wrong by the same counts until it is dropped. */
  lemma {:induction false} StaleCountsStay(st: RunStats, recs: seq<Record>, from: nat, mid: nat, end: nat)
    requires from <= mid <= end <= |recs|
    ensures var got, want, was := FoldOn(st, recs, mid, end), StatsOf(recs, from, end), StatsOf(recs, from, mid);
            got.fatal - want.fatal == st.fatal - was.fatal && got.error - want.error == st.error - was.error
            && got.warn - want.warn == st.warn - was.warn
    decreases end
  {
    if mid < end { StaleCountsStay(st, recs, from, mid, end - 1); }
  }

  /** Which of the three counts a priority is counted in. */
  function Counted(p: Priority): nat {
    match p
    case Fatal => 3
    case Error => 2
    case Warn => 1
    case _ => 0
  }

  /** Two readings of one record that do the same to the statistics of what is in front. */
  predicate SameContribution(prev: RunStats, a: Record, b: Record) {
    && Counted(a.priority) == Counted(b.priority)
    && (if a.timestamp == NO_TIMESTAMP then prev.lastTimestamp else a.timestamp)
       == (if b.timestamp == NO_TIMESTAMP then prev.lastTimestamp else b.timestamp)
  }

  /** The memo has folded the trailing record. */
  predicate FoldedTrailing(memo: StatsMemo, from: nat, count: nat) {
    from < count && memo.scanned == count
  }

  /** One append keeps a memo sound exactly when it had not folded the trailing record, or
      that record still contributes what it did. */
  lemma TickKeepsMemo(memo: StatsMemo, was: seq<Record>, now: seq<Record>, from: nat)
    requires was != [] && Appended(was, now) && MemoFor(memo, was, from)
    ensures var base := |was| - 1;
            MemoFor(memo, now, from)
            <==> !FoldedTrailing(memo, from, |was|) || SameContribution(StatsOf(was, from, base), was[base], now[base])
  {
    var base := |was| - 1;
    if memo.scanned >= 0 && memo.scanned <= base {
      StatsAgree(was, now, from, memo.scanned);
    } else if FoldedTrailing(memo, from, |was|) {
      StatsAgree(was, now, from, base);
      StatsMeaning(was, from, base);
      NoLastNoFirst(was, from, base);
    }
  }

  lemma NoLastNoFirst(recs: seq<Record>, from: nat, end: nat)
    requires from <= end <= |recs|
    ensures StatsOf(recs, from, end).firstTimestamp == NO_TIMESTAMP ==> StatsOf(recs, from, end).lastTimestamp == NO_TIMESTAMP
  {
    StatsMeaning(recs, from, end);
  }

  /** Every memo of a document: the runs', the file's, and the first instants of both. */
  datatype Memos = Memos(stats: seq<StatsMemo>, file: StatsMemo, bases: seq<Baseline>, fileBase: Baseline)

  const NO_MEMO := StatsMemo(NO_STATS, -1)
  const NO_BASE := Baseline(NO_TIMESTAMP, -1)
  const NO_MEMOS := Memos([], NO_MEMO, [], NO_BASE)

  /** Every memo remembers what the records it has seen still say. */
  ghost predicate Sound(ms: Memos, runs: seq<Run>, recs: seq<Record>) {
    && Shaped(runs, |recs|) && |ms.stats| <= |runs| && |ms.bases| <= |runs|
    && (forall k :: 0 <= k < |ms.stats| ==> MemoFor(ms.stats[k], recs, runs[k].startRecord))
    && MemoFor(ms.file, recs, 0)
    && (forall k :: 0 <= k < |ms.bases| ==> BaselineFor(ms.bases[k], recs, runs[k].startRecord, RunEnd(runs, k, |recs|)))
    && BaselineFor(ms.fileBase, recs, 0, |recs|)
  }

  lemma NoMemosAreSound(runs: seq<Run>, recs: seq<Record>)
    requires Shaped(runs, |recs|)
    ensures Sound(NO_MEMOS, runs, recs)
  {
  }

  /** Bringing the first instants to the size of the run list adds empty memos. */
  lemma SizedBasesAreSound(ms: Memos, runs: seq<Run>, recs: seq<Record>)
    requires Sound(ms, runs, recs)
    ensures Sound(ms.(bases := Sized(ms.bases, |runs|, NO_BASE)), runs, recs)
  {
  }

  lemma BaseIsSound(ms: Memos, runs: seq<Run>, recs: seq<Record>, i: nat)
    requires Sound(ms, runs, recs) && i < |ms.bases|
    ensures i < |runs| && BaselineFor(ms.bases[i], recs, runs[i].startRecord, RunEnd(runs, i, |recs|))
    ensures forall b :: BaselineFor(b, recs, runs[i].startRecord, RunEnd(runs, i, |recs|)) ==> Sound(ms.(bases := ms.bases[i := b]), runs, recs)
  {
  }

  /** What an append must leave alone for every memo to stay sound. */
  ghost predicate TickHarmless(ms: Memos, runs: seq<Run>, runs': seq<Run>, was: seq<Record>, now: seq<Record>)
    requires was != [] && |was| <= |now| && Shaped(runs, |was|) && |ms.stats| <= |runs| && |ms.bases| <= |runs|
    requires Shaped(runs', |now|)
  {
    var base := |was| - 1;
    && (forall k :: 0 <= k < |ms.stats| && FoldedTrailing(ms.stats[k], runs[k].startRecord, |was|) ==>
                      SameContribution(StatsOf(was, runs[k].startRecord, base), was[base], now[base]))
    && (FoldedTrailing(ms.file, 0, |was|) ==> SameContribution(StatsOf(was, 0, base), was[base], now[base]))
    && (forall k :: 0 <= k < |ms.bases| ==>
                      BaseHarmless(ms.bases[k], runs[k].startRecord, RunEnd(runs, k, |was|), was, now, RunEnd(runs', k, |now|)))
    && BaseHarmless(ms.fileBase, 0, |was|, was, now, |now|)
  }

  /** The tick theorem for the whole set, over the run list the tick leaves. */
  lemma TickKeepsSound(ms: Memos, runs: seq<Run>, runs': seq<Run>, was: seq<Record>, now: seq<Record>)
    requires was != [] && Appended(was, now) && Sound(ms, runs, was)
    requires runs <= runs' && Shaped(runs', |now|)
    requires runs != [] ==> forall k :: |runs| <= k < |runs'| ==> runs'[k].startRecord >= |was|
    ensures Sound(ms, runs', now) <==> TickHarmless(ms, runs, runs', was, now)
  {
    hide MemoFor, BaselineFor, SameContribution, FoldedTrailing, BaseHarmless;
    forall k | 0 <= k < |ms.stats|
      ensures MemoFor(ms.stats[k], now, runs'[k].startRecord)
              <==> (FoldedTrailing(ms.stats[k], runs[k].startRecord, |was|) ==>
                      SameContribution(StatsOf(was, runs[k].startRecord, |was| - 1), was[|was| - 1], now[|was| - 1]))
    {
      assert runs'[k] == runs[k];
      TickKeepsMemo(ms.stats[k], was, now, runs[k].startRecord);
    }
    TickKeepsMemo(ms.file, was, now, 0);
    forall k | 0 <= k < |ms.bases|
      ensures BaselineFor(ms.bases[k], now, runs'[k].startRecord, RunEnd(runs', k, |now|))
              <==> BaseHarmless(ms.bases[k], runs[k].startRecord, RunEnd(runs, k, |was|), was, now, RunEnd(runs', k, |now|))
    {
      assert runs'[k] == runs[k];
      assert k + 1 < |runs| ==> runs'[k + 1] == runs[k + 1];
      TickKeepsBaseline(ms.bases[k], was, now, runs[k].startRecord, RunEnd(runs, k, |was|), RunEnd(runs', k, |now|));
    }
    TickKeepsBaseline(ms.fileBase, was, now, 0, |was|, |now|);
  }

  /** Nothing can have been folded of an empty index. */
  lemma FirstTickKeepsSound(ms: Memos, runs: seq<Run>, runs': seq<Run>, now: seq<Record>)
    requires Sound(ms, runs, []) && Shaped(runs', |now|)
    ensures Sound(ms, runs', now)
  {
    assert runs != [] ==> runs[0].startRecord < 0;
    assert StatsOf([], 0, 0) == StatsOf(now, 0, 0) == NO_STATS;
    assert TimestampFrom([], 0, 0) == TimestampFrom(now, 0, 0) == NO_TIMESTAMP;
  }

  /** A vector brought to `n` entries. */
  function Sized<T>(s: seq<T>, n: nat, fill: T): seq<T> {
    seq(n, k requires 0 <= k => if k < |s| then s[k] else fill)
  }

  function MemoAt(memos: seq<StatsMemo>, i: nat): StatsMemo {
    if i < |memos| then memos[i] else NO_MEMO
  }

  // ---------------------------------------------------------------------------
  // The first instant of a run
  // ---------------------------------------------------------------------------

  /** The resumable first-instant memo behind "seconds into the run". */
  datatype Baseline = Baseline(ts: int, scanned: int)

  /** The first timestamp of records [at, end). */
  function TimestampFrom(recs: seq<Record>, at: nat, end: nat): int
    requires end <= |recs|
    decreases end - at
  {
    if at >= end then NO_TIMESTAMP
    else if recs[at].timestamp != NO_TIMESTAMP then recs[at].timestamp
    else TimestampFrom(recs, at + 1, end)
  }

  lemma {:induction false} TimestampFromMeaning(recs: seq<Record>, at: nat, end: nat)
    requires at <= end <= |recs|
    ensures FirstTimestampIs(recs, at, end, TimestampFrom(recs, at, end))
    decreases end - at
  {
    if at < end {
      if recs[at].timestamp == NO_TIMESTAMP {
        TimestampFromMeaning(recs, at + 1, end);
      } else {
        assert recs[at].timestamp == TimestampFrom(recs, at, end);
      }
    }
  }

  lemma {:induction false} TimestampFromSkips(recs: seq<Record>, from: nat, mid: nat, end: nat)
    requires from <= mid <= end <= |recs| && TimestampFrom(recs, from, mid) == NO_TIMESTAMP
    ensures TimestampFrom(recs, from, end) == TimestampFrom(recs, mid, end)
    decreases mid - from
  {
    if from < mid { TimestampFromSkips(recs, from + 1, mid, end); }
  }

  lemma {:induction false} TimestampFromStays(recs: seq<Record>, from: nat, mid: nat, end: nat)
    requires from <= mid <= end <= |recs| && TimestampFrom(recs, from, mid) != NO_TIMESTAMP
    ensures TimestampFrom(recs, from, end) == TimestampFrom(recs, from, mid)
    decreases mid - from
  {
    if from < mid && recs[from].timestamp == NO_TIMESTAMP { TimestampFromStays(recs, from + 1, mid, end); }
  }

  lemma {:induction false} TimestampFromAgrees(a: seq<Record>, b: seq<Record>, at: nat, end: nat)
    requires end <= |a| && end <= |b| && forall i :: at <= i < end ==> a[i].timestamp == b[i].timestamp
    ensures TimestampFrom(a, at, end) == TimestampFrom(b, at, end)
    decreases end - at
  {
    if at < end { TimestampFromAgrees(a, b, at + 1, end); }
  }

  /** A memo holds the first timestamp of [from, end), or how far there is none. */
  ghost predicate BaselineFor(b: Baseline, recs: seq<Record>, from: nat, end: nat)
    requires end <= |recs|
  {
    if b.ts != NO_TIMESTAMP then from <= end && TimestampFrom(recs, from, end) == b.ts
    else b.scanned < 0 || (from <= b.scanned <= end && TimestampFrom(recs, from, b.scanned) == NO_TIMESTAMP)
  }

  /** The memo rests on records in front of the trailing one, or the trailing one still has
      the timestamp, or the lack of one, that the memo took from it. */
  predicate BaseHarmless(b: Baseline, from: nat, end: nat, was: seq<Record>, now: seq<Record>, end': nat)
    requires was != [] && |was| <= |now| && end' <= |now|
  {
    var base := |was| - 1;
    if end <= base || from > base then true
    else if b.ts == NO_TIMESTAMP then b.scanned <= base || now[base].timestamp == NO_TIMESTAMP
    else TimestampFrom(was, from, base) != NO_TIMESTAMP || TimestampFrom(now, base, end') == b.ts
  }

  /** One append keeps a first instant sound exactly then: the range either ended in front of
      the trailing record, or reaches at least as far as before. */
  lemma TickKeepsBaseline(b: Baseline, was: seq<Record>, now: seq<Record>, from: nat, end: nat, end': nat)
    requires was != [] && Appended(was, now) && end <= |was| && BaselineFor(b, was, from, end)
    requires end' <= |now| && (if end < |was| then end' == end else |was| <= end')
    ensures BaselineFor(b, now, from, end') <==> BaseHarmless(b, from, end, was, now, end')
  {
    var base := |was| - 1;
    if end <= base {
      TimestampFromAgrees(was, now, from, end);
      if 0 <= b.scanned <= end { TimestampFromAgrees(was, now, from, b.scanned); }
    } else if b.ts == NO_TIMESTAMP {
      if 0 <= b.scanned <= base {
        TimestampFromAgrees(was, now, from, b.scanned);
      } else if b.scanned == |was| && from <= base {
        TimestampFromPrefix(was, from, base, |was|);
        TimestampFromAgrees(was, now, from, base);
        TimestampFromSkips(now, from, base, |was|);
      }
    } else if from <= base {
      TimestampFromAgrees(was, now, from, base);
      if TimestampFrom(was, from, base) != NO_TIMESTAMP {
        TimestampFromStays(was, from, base, |was|);
        TimestampFromStays(now, from, base, end');
      } else {
        TimestampFromSkips(now, from, base, end');
      }
    }
  }

  lemma {:induction false} TimestampFromPrefix(recs: seq<Record>, from: nat, mid: nat, end: nat)
    requires from <= mid <= end <= |recs| && TimestampFrom(recs, from, end) == NO_TIMESTAMP
    ensures TimestampFrom(recs, from, mid) == NO_TIMESTAMP
    decreases mid - from
  {
    if from < mid { TimestampFromPrefix(recs, from + 1, mid, end); }
  }

  /** A trailing line without a level turns out to be an ERROR, and the memo that folded it
      never counts it. */
  lemma GrownErrorIsNotCounted() returns (was: seq<Record>, now: seq<Record>, memo: StatsMemo)
    ensures was != [] && Appended(was, now) && MemoFor(memo, was, 0) && !MemoFor(memo, now, 0)
    ensures Resumed(memo, now, 0, |now|).error == 0 && StatsOf(now, 0, |now|).error == 1
  {
    was := [Record(0, NO_TIMESTAMP, 6, 0, 0, 1, Unknown)];
    now := [Record(0, NO_TIMESTAMP, 12, 0, 0, 1, Error)];
    memo := StatsMemo(StatsOf(was, 0, 1), 1);
    assert StatsOf(was, 0, 0) == NO_STATS && StatsOf(now, 0, 0) == NO_STATS;
    assert StatsOf(now, 0, 1).error == 1 && StatsOf(was, 0, 1).error == 0;
    assert FoldOn(memo.stats, now, 1, 1) == memo.stats;
  }

  /** The same for the first instant: it arrives with the record's growth and is not seen. */
  lemma GrownTimestampIsNotSeen() returns (was: seq<Record>, now: seq<Record>, b: Baseline)
    ensures was != [] && Appended(was, now) && BaselineFor(b, was, 0, |was|) && !BaselineFor(b, now, 0, |now|)
    ensures b.scanned == |was| && TimestampFrom(now, 0, |now|) == 5
  {
    was := [Record(0, NO_TIMESTAMP, 6, 0, 0, 1, Unknown)];
    now := [Record(0, 5, 12, 0, 0, 1, Info)];
    b := Baseline(NO_TIMESTAMP, 1);
    assert TimestampFrom(was, 1, 1) == NO_TIMESTAMP && TimestampFrom(was, 0, 1) == NO_TIMESTAMP;
    assert TimestampFrom(now, 0, 1) == 5;
  }
}
