/** Ingesting what a tailed log appended, in place. */
module LiveControllers {
  import opened Records
  import opened RecordIndexes
  import opened FilteredIndexes
  import opened ContextEmitter
  import opened LiveView
  import opened Runs
  import opened Documents

  /** The record list with its trailing (provisional) record replaced by what the re-read of
      the tail found there, and the brand-new records behind it. */
  function Spliced(was: seq<Record>, tail: seq<Record>): seq<Record> {
    if tail == [] then was
    else if was == [] then tail
    else was[..|was| - 1] + tail
  }

  /** What a scan of the tail hands over: it starts where the provisional record starts. */
  ghost predicate TailOf(was: seq<Record>, tail: seq<Record>) {
    tail != [] ==>
      (was != [] ==> tail[0].offset == was[|was| - 1].offset) && OffsetsAscend(Spliced(was, tail))
  }

  /** Withdraws `count` trailing rows. */
  method PopTail(filtered: FilteredIndex, count: nat)
    requires filtered.Valid() && filtered.active && count <= |filtered.visible|
    modifies filtered, filtered.compact`records
    ensures filtered.Valid() && filtered.active
    ensures var k := |old(filtered.visible)| - count;
            filtered.visible == old(filtered.visible)[..k] && filtered.context == old(filtered.context)[..k]
            && filtered.compact.records == old(filtered.compact.records)[..k]
  {
    var i := 0;
    assert filtered.visible == filtered.visible[..|filtered.visible|];
    while i < count
      invariant 0 <= i <= count && filtered.Valid() && filtered.active
      invariant |filtered.visible| == |old(filtered.visible)| - i
      invariant filtered.visible == old(filtered.visible)[..|old(filtered.visible)| - i]
      invariant filtered.context == old(filtered.context)[..|old(filtered.visible)| - i]
      invariant filtered.compact.records == old(filtered.compact.records)[..|old(filtered.visible)| - i]
    {
      filtered.PopLastVisible();
      i := i + 1;
    }
  }

  /** Appends the rows the emitter passed, each with a copy of its record. */
  method AppendPassing(filtered: FilteredIndex, records: seq<Record>, passing: seq<Emitted>)
    requires filtered.Valid() && filtered.active
    requires forall i :: 0 <= i < |passing| ==> 0 <= passing[i].row < |records|
    requires Copies(records, filtered.visible, filtered.compact.records)
    modifies filtered, filtered.compact`records
    ensures filtered.Valid() && filtered.active
    ensures filtered.View() == old(filtered.View()) + passing
    ensures old(filtered.compact.records) <= filtered.compact.records
    ensures Copies(records, filtered.visible, filtered.compact.records)
  {
    var i := 0;
    while i < |passing|
      invariant 0 <= i <= |passing| && filtered.Valid() && filtered.active
      invariant filtered.View() == old(filtered.View()) + passing[..i]
      invariant old(filtered.compact.records) <= filtered.compact.records
      invariant Copies(records, filtered.visible, filtered.compact.records)
    {
      var p := passing[i];
      ghost var was := filtered.View();
      filtered.AppendVisible(p.row, records[p.row], p.isContext);
      assert filtered.View() == was + [p];
      assert passing[..i + 1] == passing[..i] + [p];
      i := i + 1;
    }
    assert passing[..i] == passing;
  }

  /** Rows that were there before the tick keep their flags; the trailing one may not. */
  lemma FlagsKept(doc: Document, was: seq<Record>, now: seq<Record>, oldRuns: seq<Run>, active: bool, newRuns: seq<Run>,
                  c: ViewConfig, c': ViewConfig)
    requires |was| <= |now| && OffsetsAscend(now)
    requires forall i :: 0 <= i < |was| - 1 ==> was[i] == now[i]
    requires was != [] ==> was[|was| - 1].offset == now[|was| - 1].offset
    requires doc.selectedRun < |oldRuns|
    requires newRuns == if active then RunsAfter(doc.marker, now, oldRuns, |was|, |now|) else oldRuns
    requires c.bounds == ViewBounds(active, doc.selectedRun, oldRuns)
    requires c' == c.(bounds := ViewBounds(active, doc.selectedRun, newRuns))
    ensures forall i :: 0 <= i < |was| && was[i] == now[i] ==> FlagsOf(was, c)[i] == FlagsOf(now, c')[i]
  {
    forall i | 0 <= i < |was| && was[i] == now[i] ensures FlagsOf(was, c)[i] == FlagsOf(now, c')[i] {
      if active {
        BoundKept(active, doc.selectedRun, doc.marker, was, now, oldRuns, i);
      }
    }
  }

  lemma BoundsKept(doc: Document, was: seq<Record>, now: seq<Record>, oldRuns: seq<Run>, b: Bounds)
    requires |was| <= |now| && OffsetsAscend(now)
    requires forall i :: 0 <= i < |was| ==> was[i].offset == now[i].offset
    requires doc.selectedRun < |oldRuns| && b == ViewBounds(doc.runStartActive, doc.selectedRun, oldRuns)
    requires doc.runs == if doc.runStartActive then RunsAfter(doc.marker, now, oldRuns, |was|, |now|) else oldRuns
    ensures forall i :: 0 <= i < |was| ==>
                          InRunBound(b, was[i]) == InRunBound(ViewBounds(doc.runStartActive, doc.selectedRun, doc.runs), was[i])
  {
    forall i | 0 <= i < |was|
      ensures InRunBound(b, was[i]) == InRunBound(ViewBounds(doc.runStartActive, doc.selectedRun, doc.runs), was[i])
    {
      if doc.runStartActive { BoundKept(doc.runStartActive, doc.selectedRun, doc.marker, was, now, oldRuns, i); }
    }
  }

  /** The row the emitter starts over at; everything shown from there on is withdrawn. */
  method ResumeRow(doc: Document, oldCount: nat, changed: bool) returns (c: int)
    requires doc.Valid() && oldCount <= |doc.idx.records|
    ensures c == if oldCount == 0 then 0
                 else CandidateStart(doc.filtered.View(), doc.Flags(), oldCount - 1, changed, doc.contextBefore)
  {
    if oldCount == 0 { return 0; }
    var base := oldCount - 1;
    c := base + 1;
    if changed {
      var rec := doc.idx.records[base];
      var lastMatch := doc.filtered.LastMatchSource();
      var wasMatch := lastMatch == base;
      var nowMatch := doc.Config().AcceptsInView(rec);
      ViewPredicateSplits(doc.Config(), rec);
      assert nowMatch == IsMatch(doc.Flags(), base);
      c := base;
      if doc.contextBefore > 0 && wasMatch != nowMatch {
        c := doc.ContextWindowStart(base, doc.contextBefore);
      }
    }
  }

  /** Withdraws every trailing row at or past `c` and repairs the sums. */
  method Withdraw(filtered: FilteredIndex, c: int)
    requires filtered.Valid() && filtered.active && filtered.compact.SumsFresh()
    modifies filtered, filtered.compact
    ensures filtered.Valid() && filtered.active && filtered.compact.SumsFresh()
    ensures filtered.View() == Cut(old(filtered.View()), c)
    ensures |filtered.visible| <= |old(filtered.visible)|
    ensures filtered.visible == old(filtered.visible)[..|filtered.visible|]
    ensures filtered.compact.records == old(filtered.compact.records)[..|filtered.visible|]
  {
    ghost var was := filtered.compact.records;
    var popCount := filtered.TrailingCountFrom(c);
    PopTail(filtered, popCount);
    assert filtered.compact.records[..|filtered.visible|] == filtered.compact.records;
    filtered.compact.ExtendBlockSums(|filtered.compact.records|, was);
  }

  /** The emitter's state, read back off the surviving rows. */
  method ReadState(filtered: FilteredIndex) returns (st: ContextState)
    requires filtered.Valid()
    ensures st == Rebuilt(filtered.View())
  {
    var lastEmitted := filtered.LastVisibleSource();
    var lastMatch := filtered.LastMatchSource();
    var sinceMatch := 0;
    if lastMatch >= 0 { sinceMatch := filtered.TrailingCountFrom(lastMatch + 1); }
    st := ContextState(lastEmitted, lastMatch, sinceMatch);
  }

  /** Resumes the emitter at `c` and appends what it passes. */
  method Resume(doc: Document, c: int)
    requires doc.Valid() && doc.filtered.active && doc.filtered.compact.SumsFresh()
    requires 0 <= c <= |doc.idx.records| && Sane(doc.filtered.View(), c)
    requires Copies(doc.idx.records, doc.filtered.visible, doc.filtered.compact.records)
    modifies doc.filtered, doc.filtered.compact
    ensures doc.Valid() && doc.filtered.active && doc.filtered.compact.SumsFresh()
    ensures -1 <= Rebuilt(old(doc.filtered.View())).lastEmitted
            && doc.filtered.View() == old(doc.filtered.View()) + Pass(doc.Flags(), c, |doc.idx.records|, doc.contextBefore, doc.contextAfter,
                                                                     Rebuilt(old(doc.filtered.View()))).1
    ensures Copies(doc.idx.records, doc.filtered.visible, doc.filtered.compact.records)
  {
    var filtered, idx := doc.filtered, doc.idx;
    var start := ReadState(filtered);
    KeptState(filtered.View(), c);
    var st, passing := EmitWithContext(FlagsOf(idx.records, doc.Config()), c, |idx.records| - 1,
                                       doc.contextBefore, doc.contextAfter, start);
    PassWrites(doc.Flags(), c, |idx.records|, doc.contextBefore, doc.contextAfter, start);
    assert forall i :: 0 <= i < |passing| ==> passing[i] in passing;
    ghost var compactKept := filtered.compact.records;
    var firstViewRow := filtered.RecordCount();
    AppendPassing(filtered, idx.records, passing);
    assert filtered.compact.records[..firstViewRow] == compactKept[..firstViewRow];
    filtered.compact.ExtendBlockSums(firstViewRow, compactKept);
  }

  /** The filtered branch after the source index was updated: withdraw, resume, append. Whatever
      list it finds, it leaves the tick's; a list that was fresh becomes the fresh one. */
  method ReemitTail(doc: Document, oldCount: nat, changed: bool, ghost was: seq<Record>)
    requires doc.Valid() && doc.filtered.active && doc.filtered.compact.SumsFresh()
    requires |was| == oldCount <= |doc.idx.records| && Sane(doc.filtered.View(), oldCount)
    requires forall i :: 0 <= i < oldCount && (i < oldCount - 1 || !changed) ==> was[i] == doc.idx.records[i]
    requires Copies(was, doc.filtered.visible, doc.filtered.compact.records)
    modifies doc.filtered, doc.filtered.compact
    ensures doc.Valid() && doc.filtered.active && doc.ViewIsSane()
    ensures doc.filtered.View() == Tick(old(doc.filtered.View()), doc.Flags(), oldCount, changed, doc.contextBefore, doc.contextAfter)
  {
    ghost var now := doc.Flags();
    ghost var view := doc.filtered.View();
    var c := ResumeRow(doc, oldCount, changed);
    TickMeans(view, now, oldCount, changed, doc.contextBefore, doc.contextAfter);
    if oldCount > 0 { ResumeInRange(view, now, oldCount, changed, doc.contextBefore); }
    Withdraw(doc.filtered, c);
    assert doc.Flags() == now;
    CopiesKept(was, doc.idx.records, doc.filtered.visible, doc.filtered.context, doc.filtered.compact.records, c);
    Resume(doc, c);
  }

  lemma CopiesKept(was: seq<Record>, now: seq<Record>, visible: seq<int>, context: seq<bool>, copies: seq<Record>, c: int)
    requires |visible| == |context| && Copies(was, visible, copies)
    requires forall e :: e in Zip(visible, context) ==> 0 <= e.row < c
    requires c <= |now| && forall i :: 0 <= i < c && i < |was| ==> was[i] == now[i]
    ensures Copies(now, visible, copies)
  {
    forall i | 0 <= i < |visible| ensures 0 <= visible[i] < |now| && copies[i] == now[visible[i]] {
      assert Zip(visible, context)[i] in Zip(visible, context);
    }
  }

  /** The re-read provisional record came back different. */
  predicate Changed(was: seq<Record>, tail: seq<Record>) {
    was != [] && tail != [] && tail[0] != was[|was| - 1]
  }

  /** One tick of a tailed log. The index becomes the spliced one, its sums those of a full
      rebuild, the run list the extended one, and a filtered view, whatever filter built it, the
      one the tick makes of it; from a fresh view that is exactly what a fresh ApplyFilters over
      the grown index builds: ordinals, context flags, copied records. */
  method IngestAppended(doc: Document, tail: seq<Record>)
    requires doc.Valid() && doc.idx.SumsFresh()
    requires doc.filtered.active ==> doc.ViewIsSane()
    requires TailOf(doc.idx.records, tail)
    modifies doc.idx, doc.filtered, doc.filtered.compact, doc`runs, doc`bounds
    ensures doc.Valid() && doc.idx.SumsFresh()
    ensures doc.idx.records == Spliced(old(doc.idx.records), tail)
    ensures tail != [] && doc.runStartActive ==>
              doc.runs == RunsAfter(doc.marker, doc.idx.records, old(doc.runs), |old(doc.idx.records)|, |doc.idx.records|)
    ensures doc.filtered.active == old(doc.filtered.active)
    ensures doc.filtered.active ==> doc.ViewIsSane()
    ensures doc.filtered.active ==>
              doc.filtered.View() == Tick(old(doc.filtered.View()), doc.Flags(), |old(doc.idx.records)|, Changed(old(doc.idx.records), tail),
                                          doc.contextBefore, doc.contextAfter)
    ensures old(doc.filtered.active && doc.ViewIsFresh()) ==> doc.ViewIsFresh()
    ensures forall i :: 0 <= i < |old(doc.idx.records)| ==>
                          InRunBound(old(doc.bounds), old(doc.idx.records)[i]) == InRunBound(doc.bounds, old(doc.idx.records)[i])
    ensures old(doc.MemosSound()) && tail != [] && old(doc.idx.records) != [] ==>
              (doc.MemosSound()
               <==> TickHarmless(old(doc.AllMemos()), old(doc.runs), doc.runs, old(doc.idx.records), doc.idx.records))
    ensures old(doc.MemosSound()) && (tail == [] || old(doc.idx.records) == []) ==> doc.MemosSound()
  {
    if tail == [] {
      if doc.filtered.active { EmptyTick(doc.filtered.View(), doc.Flags(), doc.contextBefore, doc.contextAfter); }
    } else {
      IngestTail(doc, tail);
    }
  }

  /** The same, for a list that was the fresh one of the rows before. */
  method ReemitFresh(doc: Document, oldCount: nat, changed: bool, ghost was: seq<Record>, ghost oldFlags: seq<RowFlags>)
    requires doc.Valid() && doc.filtered.active && doc.filtered.compact.SumsFresh()
    requires |oldFlags| == |was| == oldCount <= |doc.idx.records| && Sane(doc.filtered.View(), oldCount)
    requires forall i :: 0 <= i < oldCount && (i < oldCount - 1 || !changed) ==>
                           oldFlags[i] == doc.Flags()[i] && was[i] == doc.idx.records[i]
    requires Copies(was, doc.filtered.visible, doc.filtered.compact.records)
    modifies doc.filtered, doc.filtered.compact
    ensures doc.Valid() && doc.filtered.active && doc.ViewIsSane()
    ensures doc.filtered.View() == Tick(old(doc.filtered.View()), doc.Flags(), oldCount, changed, doc.contextBefore, doc.contextAfter)
    ensures old(doc.filtered.View()) == Widened(oldFlags, doc.contextBefore, doc.contextAfter) ==> doc.ViewIsFresh()
  {
    assert |doc.Flags()| == |doc.idx.records|;
    hide FlagsOf, SumsOf, Tick, Widened, Sane, InRunBound, ViewBounds, Shaped, Copies, OffsetsAscend;
    ghost var view, now := doc.filtered.View(), doc.Flags();
    ReemitTail(doc, oldCount, changed, was);
    if view == Widened(oldFlags, doc.contextBefore, doc.contextAfter) {
      TickIsFresh(oldFlags, now, changed, doc.contextBefore, doc.contextAfter);
    }
  }

  /** A tick that brings something: the source and the runs first, then the view. */
  method IngestTail(doc: Document, tail: seq<Record>)
    requires tail != [] && doc.Valid() && doc.idx.SumsFresh() && TailOf(doc.idx.records, tail)
    requires doc.filtered.active ==> doc.ViewIsSane()
    modifies doc.idx, doc.filtered, doc.filtered.compact, doc`runs, doc`bounds
    ensures doc.Valid() && doc.idx.SumsFresh()
    ensures doc.idx.records == Spliced(old(doc.idx.records), tail)
    ensures doc.runStartActive ==>
              doc.runs == RunsAfter(doc.marker, doc.idx.records, old(doc.runs), |old(doc.idx.records)|, |doc.idx.records|)
    ensures doc.filtered.active == old(doc.filtered.active)
    ensures doc.filtered.active ==> doc.ViewIsSane()
    ensures doc.filtered.active ==>
              doc.filtered.View() == Tick(old(doc.filtered.View()), doc.Flags(), |old(doc.idx.records)|, Changed(old(doc.idx.records), tail),
                                          doc.contextBefore, doc.contextAfter)
    ensures old(doc.filtered.active && doc.ViewIsFresh()) ==> doc.ViewIsFresh()
    ensures forall i :: 0 <= i < |old(doc.idx.records)| ==>
                          InRunBound(old(doc.bounds), old(doc.idx.records)[i]) == InRunBound(doc.bounds, old(doc.idx.records)[i])
    ensures old(doc.MemosSound()) && old(doc.idx.records) != [] ==>
              (doc.MemosSound()
               <==> TickHarmless(old(doc.AllMemos()), old(doc.runs), doc.runs, old(doc.idx.records), doc.idx.records))
    ensures old(doc.MemosSound()) && old(doc.idx.records) == [] ==> doc.MemosSound()
  {
    ghost var was := doc.idx.records;
    ghost var oldFlags := doc.Flags();
    assert |oldFlags| == |was|;
    hide Sound, TickHarmless, FlagsOf, SumsOf, RunsAfter, Tick, Widened, Sane, InRunBound, ViewBounds, Shaped, Copies, OffsetsAscend,
         StrictlyAscending, ContextRows, TailOf, Spliced, Changed;
    var oldCount := |doc.idx.records|;
    var changed := ExtendSource(doc, tail);
    if doc.filtered.active {
      ReemitFresh(doc, oldCount, changed, was, oldFlags);
    }
  }

  /** A tick that brings nothing leaves the list alone. */
  lemma EmptyTick(view: seq<Emitted>, flags: seq<RowFlags>, before: nat, after: nat)
    requires Sane(view, |flags|)
    ensures Tick(view, flags, |flags|, false, before, after) == view
  {
    TickMeans(view, flags, |flags|, false, before, after);
    CutMeans(view, |flags|);
    if view != [] { assert view[|view| - 1] in view; }
    assert Cut(view, |flags|) == view;
  }

  /** Updates the source index and, before any candidate is evaluated, the run list. */
  method ExtendSource(doc: Document, tail: seq<Record>) returns (changed: bool)
    requires tail != [] && doc.Valid() && doc.idx.SumsFresh() && TailOf(doc.idx.records, tail)
    modifies doc.idx, doc`runs, doc`bounds
    ensures doc.Valid() && doc.idx.SumsFresh()
    ensures doc.idx.records == Spliced(old(doc.idx.records), tail)
    ensures doc.runStartActive ==>
              doc.runs == RunsAfter(doc.marker, doc.idx.records, old(doc.runs), |old(doc.idx.records)|, |doc.idx.records|)
    ensures forall i :: 0 <= i < |old(doc.idx.records)| && (i < |old(doc.idx.records)| - 1 || !changed) ==>
                          old(doc.Flags())[i] == doc.Flags()[i] && old(doc.idx.records)[i] == doc.idx.records[i]
    ensures changed == Changed(old(doc.idx.records), tail)
    ensures forall i :: 0 <= i < |old(doc.idx.records)| ==>
                          InRunBound(old(doc.bounds), old(doc.idx.records)[i]) == InRunBound(doc.bounds, old(doc.idx.records)[i])
    ensures old(doc.MemosSound()) && old(doc.idx.records) != [] ==>
              (doc.MemosSound()
               <==> TickHarmless(old(doc.AllMemos()), old(doc.runs), doc.runs, old(doc.idx.records), doc.idx.records))
    ensures old(doc.MemosSound()) && old(doc.idx.records) == [] ==> doc.MemosSound()
  {
    hide Sound, TickHarmless, FlagsOf, SumsOf, RunsAfter;
    ghost var was := doc.idx.records;
    ghost var memos := doc.AllMemos();
    ghost var oldConfig := doc.Config();
    ghost var oldRuns := doc.runs;
    var oldCount := |doc.idx.records|;
    changed := SpliceIndex(doc.idx, tail);
    var grown := doc.UpdateRunsAfterAppend(oldCount);
    RunsStillTile(doc, oldRuns, oldCount);
    if Sound(memos, oldRuns, was) { MemosAfterTick(memos, oldRuns, doc.runs, was, doc.idx.records); }
    FlagsKept(doc, was, doc.idx.records, oldRuns, doc.runStartActive, doc.runs, oldConfig, doc.Config());
    BoundsKept(doc, was, doc.idx.records, oldRuns, oldConfig.bounds);
  }

  /** Rewrites the provisional record where it changed, appends the new ones and repairs the
      block sums from the first record that moved. */
  method SpliceIndex(idx: RecordIndex, tail: seq<Record>) returns (changed: bool)
    requires tail != [] && idx.SumsFresh()
    modifies idx
    ensures idx.records == Spliced(old(idx.records), tail) && idx.SumsFresh()
    ensures changed <==> old(idx.records) != [] && tail[0] != old(idx.records)[|old(idx.records)| - 1]
    ensures forall i :: 0 <= i < |old(idx.records)| && (i < |old(idx.records)| - 1 || !changed) ==>
                          idx.records[i] == old(idx.records)[i]
  {
    ghost var was := idx.records;
    var oldCount := |idx.records|;
    changed := oldCount > 0 && tail[0] != idx.records[oldCount - 1];
    var base := if oldCount > 0 then oldCount - 1 else 0;
    var firstTailNew := if oldCount > 0 then 1 else 0;
    if changed { idx.records := idx.records[base := tail[0]]; }
    idx.records := idx.records + tail[firstTailNew..];
    assert idx.records == Spliced(was, tail);
    assert was[..base] == idx.records[..base];
    assert !changed ==> was[..oldCount] == idx.records[..oldCount];
    idx.ExtendBlockSums(if changed then base else oldCount, was);
  }

  /** The run list after a tick: the old one, and runs that start at new records. */
  lemma RunsStillTile(doc: Document, oldRuns: seq<Run>, oldCount: nat)
    requires oldCount <= |doc.idx.records| && Shaped(oldRuns, oldCount)
    requires doc.runs == if doc.runStartActive then RunsAfter(doc.marker, doc.idx.records, oldRuns, oldCount, |doc.idx.records|) else oldRuns
    ensures oldRuns <= doc.runs && Shaped(doc.runs, |doc.idx.records|)
    ensures oldRuns != [] ==> forall k :: |oldRuns| <= k < |doc.runs| ==> doc.runs[k].startRecord >= oldCount
  {
    if doc.runStartActive {
      RunsExtend(doc.marker, doc.idx.records, oldRuns, oldCount, |doc.idx.records|);
      UpdatedIsShaped(doc.marker, doc.idx.records, oldRuns, oldCount, |doc.idx.records|);
    }
  }

  /** What a tick does to the memos of the runs and of the file. */
  lemma MemosAfterTick(ms: Memos, runs: seq<Run>, runs': seq<Run>, was: seq<Record>, now: seq<Record>)
    requires Sound(ms, runs, was) && Appended(was, now) && runs <= runs' && Shaped(runs', |now|)
    requires runs != [] ==> forall k :: |runs| <= k < |runs'| ==> runs'[k].startRecord >= |was|
    ensures was == [] ==> Sound(ms, runs', now)
    ensures was != [] ==> (Sound(ms, runs', now) <==> TickHarmless(ms, runs, runs', was, now))
  {
    if was == [] { FirstTickKeepsSound(ms, runs, runs', now); } else { TickKeepsSound(ms, runs, runs', was, now); }
  }

  /** A log tailed tick by tick and then filtered afresh shows the same thing twice. */
  method TailForHours(doc: Document, ticks: seq<seq<Record>>)
    requires doc.Valid() && doc.idx.SumsFresh() && doc.filtered.active && doc.ViewIsFresh()
    requires TicksOf(doc.idx.records, ticks)
    modifies doc.idx, doc.filtered, doc.filtered.compact, doc`runs, doc`bounds
    ensures doc.Valid() && doc.filtered.active && doc.ViewIsFresh()
    ensures doc.idx.records == Tailed(old(doc.idx.records), ticks)
    decreases ticks
  {
    hide Sound, TickHarmless, FlagsOf, SumsOf, RunsAfter, Tick, Widened, Sane, InRunBound;
    if ticks != [] {
      doc.FreshIsSane();
      IngestAppended(doc, ticks[0]);
      TailForHours(doc, ticks[1..]);
    }
  }

  ghost predicate TicksOf(was: seq<Record>, ticks: seq<seq<Record>>)
    decreases ticks
  {
    ticks == [] || (TailOf(was, ticks[0]) && TicksOf(Spliced(was, ticks[0]), ticks[1..]))
  }

  function Tailed(was: seq<Record>, ticks: seq<seq<Record>>): seq<Record>
    decreases ticks
  {
    if ticks == [] then was else Tailed(Spliced(was, ticks[0]), ticks[1..])
  }
}
