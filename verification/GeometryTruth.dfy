/** A wrapped view over its whole life: heights measured, the log growing underneath, the width
    changing. What the cached heights have to do with the heights the records have. */
module GeometryTruths {
  import opened GeometryMap
  import opened EstimatedGeometries

  predicate IsCached(g: Shape, r: nat) {
    r / BLOCK < |g.measured| && r % BLOCK < |g.measured[r / BLOCK]|
  }

  function CachedHeight(g: Shape, r: nat): nat
    requires IsCached(g, r)
  {
    g.measured[r / BLOCK][r % BLOCK]
  }

  lemma CachedIsInside(g: Shape, r: nat)
    requires g.Valid() && IsCached(g, r)
    ensures r < |g.heights|
  {
    assert g.Start(r / BLOCK) + |g.measured[r / BLOCK]| <= g.End(r / BLOCK);
  }

  /** Every cached height of the first `n` records is the one its record has. */
  ghost predicate TrueBelow(g: Shape, truth: seq<nat>, n: int) {
    g.Valid() && |truth| == |g.heights|
    && forall r :: 0 <= r < n && r < |truth| && IsCached(g, r) ==> CachedHeight(g, r) == truth[r]
  }

  ghost predicate Truthful(g: Shape, truth: seq<nat>) {
    TrueBelow(g, truth, |truth|)
  }

  predicate TrailingCached(g: Shape) {
    g.heights != [] && IsCached(g, |g.heights| - 1)
  }

  // ---------------------------------------------------------------------------
  // What one operation caches
  // ---------------------------------------------------------------------------

  /** A measurement caches nothing but what was cached and what it was given. */
  lemma MeasuredCached(g: Shape, block: int, run: seq<nat>, first: int, r: nat)
    requires g.Valid() && IsCached(AfterMeasure(g, block, run, first), r)
    ensures var g' := AfterMeasure(g, block, run, first);
            var i := r % BLOCK - Max(first, 0);
            (IsCached(g, r) && CachedHeight(g', r) == CachedHeight(g, r))
            || (block == r / BLOCK && 0 <= i < |run| && CachedHeight(g', r) == run[i])
  {
  }

  lemma MeasuredIsValid(g: Shape, block: int, run: seq<nat>, first: int)
    requires g.Valid() && Positive(run)
    ensures AfterMeasure(g, block, run, first).Valid() && AfterMeasure(g, block, run, first).heights == g.heights
  {
    if AfterMeasure(g, block, run, first) != g {
      var from := Max(first, 0);
      FoldFits(g, block, run, from);
      MeasuredKeeps(g, block, Folded(g.measured[block], run, from, g.End(block) - g.Start(block)));
    }
  }

  /** A sync that finds something moved keeps what lies in front of the first dirty record. */
  lemma SyncedCached(g: Shape, heights: seq<nat>, r: nat)
    requires g.Valid() && IsCached(AfterSync(g, heights), r)
    ensures r < FirstDirty(|g.heights|, |heights|) && IsCached(g, r) && CachedHeight(AfterSync(g, heights), r) == CachedHeight(g, r)
  {
    assert AfterSync(g, heights).measured[r / BLOCK] == KeptOf(g, r / BLOCK, FirstDirty(|g.heights|, |heights|));
  }

  // ---------------------------------------------------------------------------
  // Events
  // ---------------------------------------------------------------------------

  /** A map, and the heights its records have at the current width. */
  datatype View = View(shape: Shape, truth: seq<nat>)

  datatype Event =
    | Measure(block: int, run: seq<nat>, first: int)
    | Tail(heights: seq<nat>, truth: seq<nat>)   // the log grew, and the view synced
    | Rewrap(truth: seq<nat>)                    // another width

  function After(v: View, e: Event): View {
    match e
    case Measure(block, run, first) => v.(shape := AfterMeasure(v.shape, block, run, first))
    case Tail(heights, truth) => View(AfterSyncTail(v.shape, heights), truth)
    case Rewrap(truth) => View(Unmeasured(v.shape.heights), truth)
  }

  /** The heights measured are the true ones, and growth changes the trailing record alone. What
      a record's wrapped height has to do with its physical lines is left open: it is above
      them when lines wrap, and below when trailing lines are blank and not shown. */
  ghost predicate Happens(v: View, e: Event) {
    match e
    case Measure(block, run, first) =>
      Positive(run) && forall i :: 0 <= i < |run| && 0 <= block && Max(first, 0) + i < BLOCK && block * BLOCK + Max(first, 0) + i < |v.truth|
                                   ==> run[i] == v.truth[block * BLOCK + Max(first, 0) + i]
    case Tail(heights, truth) =>
      Positive(heights) && |truth| == |heights| && Grew(v.shape.heights, heights) && Grew(v.truth, truth)
    case Rewrap(truth) => |truth| == |v.shape.heights|
  }

  /** What holds after every event, whatever grew: every cached height but the trailing record's
      is true. */
  ghost predicate Settled(v: View) {
    TrueBelow(v.shape, v.truth, |v.truth| - 1)
  }

  lemma FreshIsSettled(heights: seq<nat>, truth: seq<nat>)
    requires Positive(heights) && |truth| == |heights|
    ensures Settled(View(Unmeasured(heights), truth)) && Truthful(Unmeasured(heights), truth)
  {
    UnmeasuredValid(heights);
  }

  lemma MeasureStaysTrue(v: View, block: int, run: seq<nat>, first: int, n: int)
    requires TrueBelow(v.shape, v.truth, n) && Happens(v, Measure(block, run, first))
    ensures TrueBelow(AfterMeasure(v.shape, block, run, first), v.truth, n)
  {
    MeasuredIsValid(v.shape, block, run, first);
    var g' := AfterMeasure(v.shape, block, run, first);
    forall r | 0 <= r < n && r < |v.truth| && IsCached(g', r) ensures CachedHeight(g', r) == v.truth[r] {
      MeasuredCached(v.shape, block, run, first, r);
    }
  }

  /** A sync that finds something moved drops the one height that may have been wrong. */
  lemma SyncHeals(v: View, heights: seq<nat>, truth: seq<nat>)
    requires Settled(v) && Happens(v, Tail(heights, truth))
    ensures Truthful(AfterSync(v.shape, heights), truth)
  {
    AfterSyncValid(v.shape, heights);
    var g' := AfterSync(v.shape, heights);
    forall r | 0 <= r < |truth| && IsCached(g', r) ensures CachedHeight(g', r) == truth[r] {
      SyncedCached(v.shape, heights, r);
    }
  }

  lemma UnmovedIsSame(was: seq<nat>, now: seq<nat>)
    requires Grew(was, now) && !Moved(was, now)
    ensures was == now
  {
    assert forall i :: 0 <= i < |was| ==> was[i] == now[i];
  }

  /** Whatever happens, every cached height but the trailing record's is true. */
  lemma StepStaysSettled(v: View, e: Event)
    requires Settled(v) && Happens(v, e)
    ensures Settled(After(v, e))
  {
    match e
    case Measure(block, run, first) => MeasureStaysTrue(v, block, run, first, |v.truth| - 1);
    case Tail(heights, truth) =>
      if Moved(v.shape.heights, heights) { SyncHeals(v, heights, truth); } else { UnmovedIsSame(v.shape.heights, heights); }
    case Rewrap(truth) => FreshIsSettled(v.shape.heights, truth);
  }

  /** A tick the sync sees, or one that leaves the height measured for the trailing record. */
  predicate Harmless(v: View, e: Event) {
    e.Tail? ==> Moved(v.shape.heights, e.heights) || !TrailingCached(v.shape)
                || (|e.truth| == |v.truth| && TailOf(e.truth) == TailOf(v.truth))
  }

  /** A true map stays true exactly over the harmless events. */
  lemma {:induction false} StepKeepsTruth(v: View, e: Event)
    requires Settled(v) && Truthful(v.shape, v.truth) && Happens(v, e)
    ensures Truthful(After(v, e).shape, After(v, e).truth) <==> Harmless(v, e)
  {
    match e
    case Measure(block, run, first) => MeasureStaysTrue(v, block, run, first, |v.truth|);
    case Tail(heights, truth) =>
      if Moved(v.shape.heights, heights) {
        SyncHeals(v, heights, truth);
      } else {
        UnmovedIsSame(v.shape.heights, heights);
        UnseenTick(v, truth);
      }
    case Rewrap(truth) => FreshIsSettled(v.shape.heights, truth);
  }

  lemma UnseenTick(v: View, truth: seq<nat>)
    requires Settled(v) && Truthful(v.shape, v.truth) && |truth| == |v.truth| && Grew(v.truth, truth)
    ensures Truthful(v.shape, truth) <==> !TrailingCached(v.shape) || TailOf(truth) == TailOf(v.truth)
  {
    if truth != [] && TrailingCached(v.shape) {
      assert CachedHeight(v.shape, |truth| - 1) == TailOf(v.truth);
    }
  }

  /** A log of one record, measured. */
  lemma OneRecord(h: nat, v: nat)
    requires h >= 1 && v >= 1
    ensures var g := Shape([h], [[v]]);
            && g.Valid() && g.Whole(0) && IsCached(g, 0) && CachedHeight(g, 0) == v && (forall r: nat :: IsCached(g, r) ==> r == 0)
            && g.FirstLine(1) == g.Total() == v && Pre([v], 1) == v && Pre([h], 1) == h
  {
    var g := Shape([h], [[v]]);
    forall r: nat | IsCached(g, r) ensures r == 0 { CachedIsInside(g, r); }
    assert Pre([v], 1) == Pre([v], 0) + v && Pre([h], 1) == Pre([h], 0) + h;
    assert g.Prefix(1) == g.Prefix(0) + g.BlockLines(0) == v;
  }

  /** It happens: one record, measured on one line, widens onto a second with no physical line
      gained. The sync answers that nothing moved, the block stays whole, and the view is one
      line short from then on. */
  lemma WidenedTailIsMissed() returns (v: View, e: Event)
    ensures v == View(Shape([1], [[1]]), [1]) && e == Tail([1], [2])
    ensures Settled(v) && Truthful(v.shape, v.truth) && Happens(v, e) && !Moved(v.shape.heights, e.heights)
    ensures After(v, e).shape == v.shape && v.shape.Whole(0) && !Truthful(v.shape, [2])
    ensures v.shape.FirstLine(1) == 1 && Pre([2], 1) == 2
  {
    v, e := View(Shape([1], [[1]]), [1]), Tail([1], [2]);
    OneRecord(1, 1);
    OneRecord(2, 2);
    hide Shape.Valid, IsCached, Shape.FirstLine, Shape.Total, Shape.Whole, Pre;
  }

  // ---------------------------------------------------------------------------
  // Histories
  // ---------------------------------------------------------------------------

  function AfterAll(v: View, events: seq<Event>): View
    decreases |events|
  {
    if events == [] then v else AfterAll(After(v, events[0]), events[1..])
  }

  ghost predicate HappenAll(v: View, events: seq<Event>)
    decreases |events|
  {
    events == [] || (Happens(v, events[0]) && HappenAll(After(v, events[0]), events[1..]))
  }

  predicate AllHarmless(v: View, events: seq<Event>)
    decreases |events|
  {
    events == [] || (Harmless(v, events[0]) && AllHarmless(After(v, events[0]), events[1..]))
  }

  ghost predicate AlwaysTruthful(v: View, events: seq<Event>)
    decreases |events|
  {
    Truthful(v.shape, v.truth) && (events == [] || AlwaysTruthful(After(v, events[0]), events[1..]))
  }

  /** A history and one event more. */
  lemma {:induction false} AfterOneMore(v: View, events: seq<Event>, e: Event)
    ensures AfterAll(v, events + [e]) == After(AfterAll(v, events), e)
    decreases |events|
  {
    if events == [] {
      assert ([] + [e])[1..] == [];
      assert AfterAll(After(v, e), []) == After(v, e);
    } else {
      assert (events + [e])[1..] == events[1..] + [e];
      hide After;
      AfterOneMore(After(v, events[0]), events[1..], e);
    }
  }

  lemma {:induction false} HistoryStaysSettled(v: View, events: seq<Event>)
    requires Settled(v) && HappenAll(v, events)
    ensures Settled(AfterAll(v, events))
    decreases |events|
  {
    hide Settled, Happens, After;
    if events != [] {
      StepStaysSettled(v, events[0]);
      HistoryStaysSettled(After(v, events[0]), events[1..]);
    }
  }

  /** The map is true at every moment of a history exactly when every event of it is harmless. */
  lemma {:induction false} HistoryIsTrue(v: View, events: seq<Event>)
    requires Settled(v) && Truthful(v.shape, v.truth) && HappenAll(v, events)
    ensures AlwaysTruthful(v, events) <==> AllHarmless(v, events)
    decreases |events|
  {
    hide Settled, Happens, After, Truthful, Harmless;
    if events != [] {
      StepStaysSettled(v, events[0]);
      StepKeepsTruth(v, events[0]);
      if Harmless(v, events[0]) {
        HistoryIsTrue(After(v, events[0]), events[1..]);
      } else {
        NeverTruthfulAgain(After(v, events[0]), events[1..]);
      }
    }
  }

  lemma NeverTruthfulAgain(v: View, events: seq<Event>)
    requires !Truthful(v.shape, v.truth)
    ensures !AlwaysTruthful(v, events)
  {
  }

  /** Rows withdrawn and added again between two syncs, all but the first `kept` of them: what the
      sync leaves of the first `kept` is true, and only what it leaves behind them can be stale,
      in front of the record where it starts over. */
  lemma WithdrawnRowsBehind(g: Shape, was: seq<nat>, heights: seq<nat>, now: seq<nat>, kept: nat, r: nat)
    requires TrueBelow(g, was, kept) && Positive(heights) && |now| == |heights|
    requires forall i :: 0 <= i < kept && i < |was| && i < |now| ==> now[i] == was[i]
    requires IsCached(AfterSyncTail(g, heights), r) && r < |now| && CachedHeight(AfterSyncTail(g, heights), r) != now[r]
    ensures kept <= r && (Moved(g.heights, heights) ==> r < FirstDirty(|g.heights|, |heights|))
  {
    if Moved(g.heights, heights) { SyncedCached(g, heights, r); }
  }

  // ---------------------------------------------------------------------------
  // A map with every block measured
  // ---------------------------------------------------------------------------

  lemma {:induction false} AllWhole(g: Shape, k: nat)
    requires k <= |g.measured|
    ensures WholeCount(g, k) <= k && (WholeCount(g, k) == k <==> forall b :: 0 <= b < k ==> g.Whole(b))
  {
    if k > 0 { AllWhole(g, k - 1); }
  }

  ghost predicate EveryBlockWhole(g: Shape) {
    g.Valid() && WholeCount(g, g.Blocks()) == g.Blocks()
  }

  lemma WholeCachesAll(g: Shape, r: nat)
    requires EveryBlockWhole(g) && r < |g.heights|
    ensures IsCached(g, r)
  {
    AllWhole(g, g.Blocks());
    assert g.Whole(r / BLOCK);
  }

  ghost function HeldHeights(g: Shape): (s: seq<nat>)
    requires EveryBlockWhole(g)
    ensures |s| == |g.heights|
  {
    assert forall r: nat | r < |g.heights| :: IsCached(g, r) by {
      forall r: nat | r < |g.heights| ensures IsCached(g, r) { WholeCachesAll(g, r); }
    }
    seq(|g.heights|, r requires 0 <= r < |g.heights| => CachedHeight(g, r))
  }

  /** Such a map is the exact prefix sum of what it holds. */
  lemma WholeMapIsItsHeights(g: Shape, r: nat)
    requires EveryBlockWhole(g) && r <= |g.heights|
    ensures g.FirstLine(r) == Pre(HeldHeights(g), r) && g.Total() == Pre(HeldHeights(g), |g.heights|)
  {
    var s := HeldHeights(g);
    AllWhole(g, g.Blocks());
    forall b | 0 <= b < g.Blocks() ensures g.measured[b] == s[g.Start(b)..g.End(b)] {
      assert g.Whole(b);
      forall i | 0 <= i < |g.measured[b]| ensures g.measured[b][i] == s[g.Start(b) + i] {
        assert (b * BLOCK + i) / BLOCK == b && (b * BLOCK + i) % BLOCK == i;
      }
    }
    hide Shape.FirstLine, Shape.Total, Pre, HeldHeights;
    AllMeasuredIsExact(g, s, r);
  }

  /** After any history at all, once every block is measured, every record starts on its true
      line. Only the last line bound can be off, by the trailing record's height, and it is
      right exactly when the map is true. */
  lemma MeasuredMapIsExact(v: View, events: seq<Event>, r: nat)
    requires Settled(v) && HappenAll(v, events) && EveryBlockWhole(AfterAll(v, events).shape)
    requires r < |AfterAll(v, events).truth|
    ensures var w := AfterAll(v, events);
            var n := |w.truth|;
            && w.shape.FirstLine(r) == Pre(w.truth, r)
            && TrailingCached(w.shape) && w.shape.Total() == Pre(w.truth, n - 1) + CachedHeight(w.shape, |w.shape.heights| - 1)
            && (w.shape.Total() == Pre(w.truth, n) <==> Truthful(w.shape, w.truth))
  {
    hide Settled, HappenAll, Happens, After, Shape.FirstLine, Shape.Total, Truthful, EveryBlockWhole, TrailingCached, Pre;
    HistoryStaysSettled(v, events);
    SettledMap(AfterAll(v, events), r);
  }

  /** What a whole settled map holds. */
  lemma SettledHolds(w: View)
    requires Settled(w) && EveryBlockWhole(w.shape) && w.truth != []
    ensures var s, n := HeldHeights(w.shape), |w.truth|;
            && |s| == n == |w.shape.heights| && TrailingCached(w.shape) && s[n - 1] == CachedHeight(w.shape, n - 1)
            && (forall k :: 0 <= k < n - 1 ==> s[k] == w.truth[k])
            && (Truthful(w.shape, w.truth) <==> s[n - 1] == w.truth[n - 1])
  {
    var s, n := HeldHeights(w.shape), |w.truth|;
    WholeCachesAll(w.shape, n - 1);
    hide EveryBlockWhole, Shape.Valid;
    forall k | 0 <= k < n - 1 ensures s[k] == w.truth[k] { WholeCachesAll(w.shape, k); }
  }

  lemma SettledMap(w: View, r: nat)
    requires Settled(w) && EveryBlockWhole(w.shape) && r < |w.truth|
    ensures var n := |w.truth|;
            && w.shape.FirstLine(r) == Pre(w.truth, r)
            && TrailingCached(w.shape) && w.shape.Total() == Pre(w.truth, n - 1) + CachedHeight(w.shape, |w.shape.heights| - 1)
            && (w.shape.Total() == Pre(w.truth, n) <==> Truthful(w.shape, w.truth))
  {
    var s, n := HeldHeights(w.shape), |w.truth|;
    SettledHolds(w);
    hide Settled, Truthful, TrailingCached, HeldHeights, CachedHeight, Shape.FirstLine, Shape.Total, Pre;
    WholeMapIsItsHeights(w.shape, r);
    SumsMeet(s, w.truth, r);
  }

  /** Two runs of heights that agree but at the end. */
  lemma SumsMeet(s: seq<nat>, t: seq<nat>, r: nat)
    requires r < |s| == |t| && forall k :: 0 <= k < |s| - 1 ==> s[k] == t[k]
    ensures var n := |s|;
            Pre(s, r) == Pre(t, r) && Pre(s, n) == Pre(t, n - 1) + s[n - 1] && (Pre(s, n) == Pre(t, n) <==> s[n - 1] == t[n - 1])
  {
    PreAgrees(s, t, r);
    PreAgrees(s, t, |s| - 1);
  }

  /** After any history the view is at least as tall as the physical log exactly when what was
      measured is: the guard under which an estimate is scaled up. */
  lemma FallsBelowPhysical(v: View, events: seq<Event>)
    requires Settled(v) && HappenAll(v, events)
    ensures var g := AfterAll(v, events).shape;
            g.Valid() && (g.Total() >= Pre(g.heights, |g.heights|) <==> g.VisualTotal(g.Blocks()) >= g.PhysicalTotal(g.Blocks()))
  {
    HistoryStaysSettled(v, events);
    TotalAgainstPhysical(AfterAll(v, events).shape);
  }

  /** It happens: a record of three lines, the last two blank and chopped off its text, is
      measured on one. */
  lemma BlankLinesShrink() returns (v: View, e: Event)
    ensures v == View(Unmeasured([3]), [1]) && e == Measure(0, [1], 0)
    ensures Settled(v) && Happens(v, e) && After(v, e) == View(Shape([3], [[1]]), [1])
    ensures var g := After(v, e).shape;
            g.Valid() && Truthful(g, [1]) && g.Total() == 1 && Pre(g.heights, |g.heights|) == 3
  {
    v, e := View(Unmeasured([3]), [1]), Measure(0, [1], 0);
    FreshIsSettled([3], [1]);
    OneRecord(3, 1);
    hide Shape.Valid, IsCached, Shape.Total, Pre, Settled;
    assert Unmeasured([3]).measured == [[]];
    assert Folded([], [1], 0, 1) == [1];
  }

  // ---------------------------------------------------------------------------
  // Visiting every block
  // ---------------------------------------------------------------------------

  /** A visit measures what the block has not cached yet, and a whole block not at all. */
  function Visit(g: Shape, truth: seq<nat>, b: nat): Shape
    requires |truth| == |g.heights| && g.Valid() && b < g.Blocks()
  {
    if g.Whole(b) then g
    else
      assert g.Start(b) + |g.measured[b]| <= g.End(b);
      AfterMeasure(g, b, truth[g.Start(b) + |g.measured[b]|..g.End(b)], |g.measured[b]|)
  }

  /** A block's cached heights with the true ones behind them. */
  function Completed(g: Shape, truth: seq<nat>, b: nat): seq<nat>
    requires |truth| == |g.heights| && g.Valid() && b < g.Blocks()
  {
    assert g.Start(b) + |g.measured[b]| <= g.End(b);
    g.measured[b] + truth[g.Start(b) + |g.measured[b]|..g.End(b)]
  }

  /** It makes the block whole, keeping what was cached and adding true heights. */
  lemma VisitMeans(g: Shape, truth: seq<nat>, b: nat)
    requires |truth| == |g.heights| && g.Valid() && b < g.Blocks() && Positive(truth)
    ensures var g' := Visit(g, truth, b);
            && g'.Valid() && g'.heights == g.heights
            && g'.measured == g.measured[b := Completed(g, truth, b)]
  {
    assert g.Start(b) + |g.measured[b]| <= g.End(b);
    var run := truth[g.Start(b) + |g.measured[b]|..g.End(b)];
    if !g.Whole(b) {
      MeasuredIsValid(g, b, run, |g.measured[b]|);
      assert g.measured[b][..|g.measured[b]|] == g.measured[b] && run[..|run|] == run;
    } else {
      assert run == [] && g.measured[b] + run == g.measured[b];
    }
  }

  function VisitedBlocks(g: Shape, truth: seq<nat>, k: nat): (m: Shape)
    requires |truth| == |g.heights| && g.Valid() && k <= g.Blocks() && Positive(truth)
    ensures m.Valid() && m.heights == g.heights
  {
    if k == 0 then g
    else
      var m := VisitedBlocks(g, truth, k - 1);
      VisitMeans(m, truth, k - 1);
      Visit(m, truth, k - 1)
  }

  lemma {:induction false} VisitedMeans(g: Shape, truth: seq<nat>, k: nat)
    requires |truth| == |g.heights| && g.Valid() && k <= g.Blocks() && Positive(truth)
    ensures var m := VisitedBlocks(g, truth, k);
            |m.measured| == |g.measured| == g.Blocks()
            && forall b :: 0 <= b < g.Blocks() ==> m.measured[b] == if b < k then Completed(g, truth, b) else g.measured[b]
    decreases k
  {
    hide Positive, Visit, Completed;
    if k > 0 {
      VisitedMeans(g, truth, k - 1);
      var m := VisitedBlocks(g, truth, k - 1);
      VisitMeans(m, truth, k - 1);
      assert m.measured[k - 1] == g.measured[k - 1];
      SameCompleted(m, g, truth, k - 1);
      hide Shape.Valid;
      assert VisitedBlocks(g, truth, k) == Visit(m, truth, k - 1);
    }
  }

  lemma SameCompleted(m: Shape, g: Shape, truth: seq<nat>, b: nat)
    requires m.Valid() && g.Valid() && m.heights == g.heights && |truth| == |g.heights| && b < g.Blocks()
    requires m.measured[b] == g.measured[b]
    ensures Completed(m, truth, b) == Completed(g, truth, b)
  {
  }

  /** Once every block was visited, what the map holds for a record is what was cached for it,
      or the truth. */
  lemma VisitedHolds(g: Shape, truth: seq<nat>)
    requires |truth| == |g.heights| && g.Valid() && Positive(truth)
    ensures var m := VisitedBlocks(g, truth, g.Blocks());
            EveryBlockWhole(m)
            && forall r: nat :: r < |truth| ==> HeldHeights(m)[r] == if IsCached(g, r) then CachedHeight(g, r) else truth[r]
  {
    var m := VisitedBlocks(g, truth, g.Blocks());
    VisitedMeans(g, truth, g.Blocks());
    hide VisitedBlocks, Positive;
    forall b | 0 <= b < m.Blocks() ensures m.Whole(b) { assert m.measured[b] == Completed(g, truth, b); }
    AllWhole(m, m.Blocks());
    forall r: nat | r < |truth| ensures HeldHeights(m)[r] == if IsCached(g, r) then CachedHeight(g, r) else truth[r] {
      WholeCachesAll(m, r);
      CompletedAt(g, truth, r);
      hide EveryBlockWhole, Completed, Shape.Valid, IsCached;
      assert m.measured[r / BLOCK] == Completed(g, truth, r / BLOCK);
    }
  }

  lemma CompletedAt(g: Shape, truth: seq<nat>, r: nat)
    requires |truth| == |g.heights| && g.Valid() && r < |truth|
    ensures r / BLOCK < g.Blocks() && r % BLOCK < |Completed(g, truth, r / BLOCK)|
    ensures Completed(g, truth, r / BLOCK)[r % BLOCK] == if IsCached(g, r) then CachedHeight(g, r) else truth[r]
  {
    var b := r / BLOCK;
    assert g.Start(b) + |g.measured[b]| <= g.End(b);
  }

  /** Visiting every block once measures all of them, and makes the map exact everywhere
      exactly when every height cached before was true. */
  lemma {:induction false} VisitingAllIsExact(g: Shape, truth: seq<nat>)
    requires |truth| == |g.heights| && g.Valid() && Positive(truth)
    ensures var m := VisitedBlocks(g, truth, g.Blocks());
            EveryBlockWhole(m) && ((forall r :: 0 <= r <= |truth| ==> m.FirstLine(r) == Pre(truth, r)) <==> Truthful(g, truth))
  {
    VisitedHolds(g, truth);
    var m := VisitedBlocks(g, truth, g.Blocks());
    hide VisitedBlocks, Positive, HeldHeights, Shape.FirstLine, Shape.Valid, CachedHeight, IsCached;
    forall r: nat | r <= |truth| ensures m.FirstLine(r) == Pre(HeldHeights(m), r) { WholeMapIsItsHeights(m, r); }
    hide EveryBlockWhole;
    SamePre(HeldHeights(m), truth);
  }

  /** Two sequences are one exactly when all their sums are. */
  lemma SamePre(s: seq<nat>, t: seq<nat>)
    requires |s| == |t|
    ensures s == t <==> forall r :: 0 <= r <= |s| ==> Pre(s, r) == Pre(t, r)
  {
    hide Pre;
    if s == t {
      assert forall r :: 0 <= r <= |s| ==> Pre(s, r) == Pre(t, r);
    } else {
      var i :| 0 <= i < |s| && s[i] != t[i];
      OneApart(s, t, i);
    }
  }

  lemma OneApart(s: seq<nat>, t: seq<nat>, i: nat)
    requires i < |s| == |t| && s[i] != t[i]
    ensures Pre(s, i) != Pre(t, i) || Pre(s, i + 1) != Pre(t, i + 1)
  {
  }
}
