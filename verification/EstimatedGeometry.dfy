/** The cached form of the wrapped-view map: block totals, prefix sums and running aggregates
    kept beside a hash of measured heights, over an index that grows underneath. */
module EstimatedGeometries {
  import opened Records
  import opened RecordIndexes
  import opened GeometryMap

  function Heights(records: seq<Record>): seq<nat> {
    seq(|records|, i requires 0 <= i < |records| => DisplayLines(records[i]))
  }

  lemma {:induction false} LinesIsPre(records: seq<Record>, k: nat)
    requires k <= |records|
    ensures Lines(records, k) == Pre(Heights(records), k)
  {
    if k > 0 { LinesIsPre(records, k - 1); }
  }

  // ---------------------------------------------------------------------------
  // What the operations do to the map
  // ---------------------------------------------------------------------------

  /** How many blocks of the first `k` are measured whole. */
  function WholeCount(g: Shape, k: nat): nat
    requires k <= |g.measured|
  {
    if k == 0 then 0 else WholeCount(g, k - 1) + (if g.Whole(k - 1) then 1 else 0)
  }

  function Unmeasured(heights: seq<nat>): Shape {
    Shape(heights, seq(Blocks(|heights|), _ => []))
  }

  /** A run of heights folded in from a block's `first`-th record on. */
  function AfterMeasure(g: Shape, block: int, visual: seq<nat>, first: int): Shape {
    if block < 0 || block >= |g.measured| then g
    else
      var from := Max(first, 0);
      var have := |g.measured[block]|;
      var count := g.End(block) - g.Start(block);
      if from > have || (from == 0 && have == count) then g
      else g.(measured := g.measured[block := Folded(g.measured[block], visual, from, count)])
  }

  /** The first `from` heights, then as many of the new ones as the block has room for. */
  function Folded(was: seq<nat>, visual: seq<nat>, from: nat, count: int): seq<nat>
    requires from <= |was|
  {
    was[..from] + visual[..if |visual| < count - from then |visual| else Max(0, count - from)]
  }

  /** A measurement that leaves no hole and finds its block not yet whole, or starts inside it,
      puts the new heights behind the first of the old, as many as fit; any other changes nothing. */
  lemma MeasuringMeans(g: Shape, block: nat, visual: seq<nat>, first: int)
    requires g.Valid() && block < g.Blocks()
    ensures var from, was := Max(first, 0), g.measured[block];
            var got := AfterMeasure(g, block, visual, first);
            if from <= |was| && !(first <= 0 && g.Whole(block)) then
              && got.heights == g.heights && |got.measured| == |g.measured|
              && (forall b :: 0 <= b < |g.measured| && b != block ==> got.measured[b] == g.measured[b])
              && |got.measured[block]| == (if from + |visual| <= g.End(block) - g.Start(block) then from + |visual| else g.End(block) - g.Start(block))
              && forall i :: 0 <= i < |got.measured[block]| ==> got.measured[block][i] == if i < from then was[i] else visual[i - from]
            else got == g
  {
    assert g.Start(block) + |g.measured[block]| <= g.End(block);
  }

  /** Which record is the first that growth can have moved: the old trailing one. */
  function FirstDirty(was: int, now: int): int {
    Max(0, (if was < now then was else now) - 1)
  }

  /** Growth keeps every measurement in front of the first dirty record and no other. */
  function AfterSync(g: Shape, heights: seq<nat>): Shape {
    var dirty := FirstDirty(|g.heights|, |heights|);
    Shape(heights, seq(Blocks(|heights|), b requires 0 <= b => KeptOf(g, b, dirty)))
  }

  function KeptOf(g: Shape, b: nat, dirty: int): seq<nat> {
    if b >= |g.measured| || dirty <= b * BLOCK then []
    else Truncated(g.measured[b], dirty - b * BLOCK)
  }

  /** What is left of a measured prefix when only `keep` records may stay. */
  function Truncated(kept: seq<nat>, keep: int): seq<nat> {
    if |kept| <= Max(0, keep) then kept else kept[..Max(0, keep)]
  }

  function TailOf(heights: seq<nat>): int { if heights == [] then 0 else heights[|heights| - 1] }

  /** What a sync looks at: the record count and the trailing record's physical height. */
  predicate Moved(was: seq<nat>, now: seq<nat>) {
    |was| != |now| || TailOf(was) != TailOf(now)
  }

  /** What a sync leaves. */
  function AfterSyncTail(g: Shape, heights: seq<nat>): Shape {
    if Moved(g.heights, heights) then AfterSync(g, heights) else g
  }

  /** How the index may have moved: everything but the trailing record stayed. */
  ghost predicate Grew(was: seq<nat>, now: seq<nat>) {
    forall i :: 0 <= i < |was| && 0 <= i < |now| && i < FirstDirty(|was|, |now|) ==> was[i] == now[i]
  }

  ghost predicate Positive(heights: seq<nat>) {
    forall i :: 0 <= i < |heights| ==> heights[i] >= 1
  }

  lemma UnmeasuredValid(heights: seq<nat>)
    requires Positive(heights)
    ensures Unmeasured(heights).Valid()
  {
  }

  /** A fold lands inside its block, and what is not a fold changes nothing. */
  lemma FoldFits(g: Shape, block: nat, visual: seq<nat>, from: nat)
    requires g.Valid() && block < g.Blocks() && Positive(visual) && from <= |g.measured[block]|
    ensures var f := Folded(g.measured[block], visual, from, g.End(block) - g.Start(block));
            g.Start(block) + |f| <= g.End(block) && Positive(f)
  {
    var f := Folded(g.measured[block], visual, from, g.End(block) - g.Start(block));
    assert g.Start(block) + |g.measured[block]| <= g.End(block);
    forall i | 0 <= i < |f| ensures f[i] >= 1 {
      if i < from { assert f[i] == g.measured[block][i]; } else { assert f[i] == visual[i - from]; }
    }
  }

  lemma AfterSyncValid(g: Shape, heights: seq<nat>)
    requires g.Valid() && Positive(heights)
    ensures AfterSync(g, heights).Valid()
  {
    var g' := AfterSync(g, heights);
    forall b | 0 <= b < g'.Blocks() ensures g'.Start(b) + |g'.measured[b]| <= g'.End(b) && Positive(g'.measured[b]) {
      assert g'.measured[b] == KeptOf(g, b, FirstDirty(|g.heights|, |heights|));
    }
  }

  /** A sync never throws away a measurement the growth cannot have touched. */
  lemma SyncKeepsUntouched(g: Shape, heights: seq<nat>, r: nat)
    requires g.Valid() && Grew(g.heights, heights) && r < FirstDirty(|g.heights|, |heights|)
    requires r - g.Start(r / BLOCK) < |g.measured[r / BLOCK]|
    ensures var b := r / BLOCK;
            var g' := AfterSync(g, heights);
            b < |g'.measured| && r - g'.Start(b) < |g'.measured[b]|
            && g'.measured[b][r - g'.Start(b)] == g.measured[b][r - g.Start(b)] && g'.heights[r] == g.heights[r]
  {
    assert AfterSync(g, heights).measured[r / BLOCK] == KeptOf(g, r / BLOCK, FirstDirty(|g.heights|, |heights|));
  }

  // ---------------------------------------------------------------------------
  // The cached fields, on values
  // ---------------------------------------------------------------------------

  /** Lines of `count` records from `start` on. */
  function Span(heights: seq<nat>, start: nat, count: nat): int
    requires start + count <= |heights|
  {
    Pre(heights, start + count) - Pre(heights, start)
  }

  function LineTotal(lines: seq<nat>): int {
    if lines == [] then -1 else Pre(lines, |lines|)
  }

  function BlockStart(b: nat): nat { b * BLOCK }

  function BlockEnd(b: nat, n: nat): nat {
    if b * BLOCK + BLOCK < n then b * BLOCK + BLOCK else n
  }

  /** The physical lines per block. */
  function PhysicalLines(heights: seq<nat>): seq<int> {
    seq(Blocks(|heights|), b requires 0 <= b < Blocks(|heights|) =>
      Span(heights, BlockStart(b), BlockEnd(b, |heights|) - BlockStart(b)))
  }

  /** The wrapped lines per block's measured prefix, -1 where nothing is measured. */
  function MeasuredLines(g: Shape): seq<int> {
    seq(|g.measured|, b requires 0 <= b < |g.measured| => LineTotal(g.measured[b]))
  }

  /** The physical lines of those same prefixes. */
  ghost function MeasuredSpans(g: Shape): seq<int>
    requires g.Valid()
  {
    seq(g.Blocks(), b requires 0 <= b < g.Blocks() => Span(g.heights, BlockStart(b), |g.measured[b]|))
  }

  /** The hash of the heights themselves: the blocks with something measured. */
  function CachedHeights(g: Shape): map<int, seq<nat>> {
    map b | 0 <= b < |g.measured| && g.measured[b] != [] :: g.measured[b]
  }

  /** The hash with one block's heights replaced. */
  function Stored(cache: map<int, seq<nat>>, block: int, lines: seq<nat>): map<int, seq<nat>> {
    if lines == [] then cache - {block} else cache[block := lines]
  }

  function CachedIn(cache: map<int, seq<nat>>, block: int): seq<nat> {
    if block in cache then cache[block] else []
  }

  lemma MeasuredKeeps(g: Shape, block: nat, kept: seq<nat>)
    requires g.Valid() && block < g.Blocks() && g.Start(block) + |kept| <= g.End(block) && Positive(kept)
    ensures var g' := g.(measured := g.measured[block := kept]);
            g'.Valid() && MeasuredLines(g') == MeasuredLines(g)[block := LineTotal(kept)]
  {
    var g' := g.(measured := g.measured[block := kept]);
    assert forall b :: 0 <= b < g.Blocks() ==> g'.Start(b) == g.Start(b) && g'.End(b) == g.End(b);
  }

  lemma CacheKeeps(g: Shape, block: nat, kept: seq<nat>)
    requires block < |g.measured|
    ensures CachedHeights(g.(measured := g.measured[block := kept])) == Stored(CachedHeights(g), block, kept)
    ensures CachedIn(CachedHeights(g), block) == g.measured[block]
  {
  }

  /** Writing one block's prefix with its aggregates writes that one block of the map. */
  lemma SetKeepsFields(g: Shape, block: nat, kept: seq<nat>)
    requires g.Valid() && block < g.Blocks() && g.Start(block) + |kept| <= g.End(block) && Positive(kept)
    ensures var g' := g.(measured := g.measured[block := kept]);
            g'.Valid() && MeasuredLines(g') == MeasuredLines(g)[block := LineTotal(kept)]
            && MeasuredSpans(g') == MeasuredSpans(g)[block := Span(g.heights, BlockStart(block), |kept|)]
            && CachedHeights(g') == Stored(CachedHeights(g), block, kept)
  {
    MeasuredKeeps(g, block, kept);
    CacheKeeps(g, block, kept);
    hide MeasuredLines, CachedHeights, Stored, Span, Shape.Valid;
    assert g.(measured := g.measured[block := kept]).Blocks() == g.Blocks();
  }

  function Filled(n: nat, v: int): seq<int> { seq(n, _ => v) }

  /** A map with nothing measured. */
  lemma UnmeasuredFields(heights: seq<nat>)
    requires Positive(heights)
    ensures var g := Unmeasured(heights);
            var blocks := Blocks(|heights|);
            g.Valid() && g.heights == heights && g.Blocks() == |g.measured| == blocks
            && MeasuredLines(g) == Filled(blocks, -1) && MeasuredSpans(g) == Filled(blocks, 0) && CachedHeights(g) == map[]
            && g.VisualTotal(blocks) == 0 && g.PhysicalTotal(blocks) == 0 && WholeCount(g, blocks) == 0
  {
    UnmeasuredValid(heights);
    NothingMeasured(heights, Blocks(|heights|));
  }

  lemma {:induction false} NothingMeasured(heights: seq<nat>, k: nat)
    requires Positive(heights) && k <= Blocks(|heights|)
    ensures var g := Unmeasured(heights);
            g.Valid() && g.VisualTotal(k) == 0 && g.PhysicalTotal(k) == 0 && WholeCount(g, k) == 0
  {
    UnmeasuredValid(heights);
    if k > 0 { NothingMeasured(heights, k - 1); }
  }

  /** A per-block vector after growth: entries past the dirty block start over. */
  function Resized(v: seq<int>, blocks: nat, first: nat, fill: int): seq<int> {
    seq(blocks, b requires 0 <= b < blocks => if b <= first && b < |v| then v[b] else fill)
  }

  function Surviving(cache: map<int, seq<nat>>, blocks: nat, first: nat): map<int, seq<nat>> {
    map b | b in cache && b <= first && b < blocks :: cache[b]
  }

  /** Where growth may reach: within the map on both sides. */
  lemma DirtyInRange(g: Shape, now: seq<nat>, dirty: nat, first: nat)
    requires g.Valid() && dirty == FirstDirty(|g.heights|, |now|) && first == dirty / BLOCK
    ensures first <= g.Blocks() && BlockStart(first) <= dirty <= |now| && dirty <= |g.heights|
    ensures first < g.Blocks() || g.heights == []
    ensures now != [] ==> first < Blocks(|now|)
    ensures now == [] ==> Blocks(|now|) == 0
  {
  }

  /** A block in front of the dirty one is untouched. */
  lemma SettledBlock(g: Shape, now: seq<nat>, b: nat)
    requires g.Valid() && Grew(g.heights, now) && b < FirstDirty(|g.heights|, |now|) / BLOCK
    ensures b < g.Blocks() && b < Blocks(|now|) && KeptOf(g, b, FirstDirty(|g.heights|, |now|)) == g.measured[b]
    ensures PhysicalLines(now)[b] == PhysicalLines(g.heights)[b]
    ensures BlockStart(b) + |g.measured[b]| <= |now|
    ensures Span(now, BlockStart(b), |g.measured[b]|) == Span(g.heights, BlockStart(b), |g.measured[b]|)
  {
    assert g.Start(b) + |g.measured[b]| <= g.End(b);
    PreAgrees(now, g.heights, BlockStart(b));
    PreAgrees(now, g.heights, BlockStart(b) + |g.measured[b]|);
    PreAgrees(now, g.heights, BlockEnd(b, |now|));
  }

  /** The dirty block keeps the records in front of the first that can have moved. */
  lemma DirtyBlock(g: Shape, now: seq<nat>, dirty: nat, first: nat)
    requires g.Valid() && Grew(g.heights, now) && dirty == FirstDirty(|g.heights|, |now|) && first == dirty / BLOCK && now != []
    ensures var was := if first < g.Blocks() then g.measured[first] else [];
            var kept := Truncated(was, dirty - BlockStart(first));
            kept == KeptOf(g, first, dirty) && BlockStart(first) + |kept| <= |now|
            && (kept == was ==> BlockStart(first) + |was| <= |g.heights| && Span(now, BlockStart(first), |was|) == Span(g.heights, BlockStart(first), |was|))
  {
    DirtyInRange(g, now, dirty, first);
    var was := if first < g.Blocks() then g.measured[first] else [];
    var kept := Truncated(was, dirty - BlockStart(first));
    assert |kept| <= dirty - BlockStart(first);
    PreAgrees(now, g.heights, BlockStart(first));
    PreAgrees(now, g.heights, BlockStart(first) + |kept|);
  }

  lemma SyncedLines(g: Shape, now: seq<nat>, dirty: nat, first: nat)
    requires g.Valid() && Grew(g.heights, now) && dirty == FirstDirty(|g.heights|, |now|) && first == dirty / BLOCK && now != []
    ensures first < Blocks(|now|)
            && MeasuredLines(AfterSync(g, now)) == Resized(MeasuredLines(g), Blocks(|now|), first, -1)[first := LineTotal(KeptOf(g, first, dirty))]
  {
    DirtyInRange(g, now, dirty, first);
    var blocks := Blocks(|now|);
    var want := Resized(MeasuredLines(g), blocks, first, -1)[first := LineTotal(KeptOf(g, first, dirty))];
    forall b | 0 <= b < blocks ensures MeasuredLines(AfterSync(g, now))[b] == want[b] {
      if b < first { SettledBlock(g, now, b); }
    }
  }

  lemma SyncedSpans(g: Shape, now: seq<nat>, dirty: nat, first: nat)
    requires g.Valid() && Grew(g.heights, now) && dirty == FirstDirty(|g.heights|, |now|) && first == dirty / BLOCK && now != []
    requires Positive(now)
    ensures first < Blocks(|now|) && BlockStart(first) + |KeptOf(g, first, dirty)| <= |now| && AfterSync(g, now).Valid()
    ensures MeasuredSpans(AfterSync(g, now))
            == Resized(MeasuredSpans(g), Blocks(|now|), first, 0)[first := Span(now, BlockStart(first), |KeptOf(g, first, dirty)|)]
  {
    DirtyInRange(g, now, dirty, first);
    DirtyBlock(g, now, dirty, first);
    AfterSyncValid(g, now);
    var blocks := Blocks(|now|);
    var want := Resized(MeasuredSpans(g), blocks, first, 0)[first := Span(now, BlockStart(first), |KeptOf(g, first, dirty)|)];
    forall b | 0 <= b < blocks ensures MeasuredSpans(AfterSync(g, now))[b] == want[b] {
      assert AfterSync(g, now).measured[b] == KeptOf(g, b, dirty);
      if b < first { SettledBlock(g, now, b); }
    }
  }

  lemma SyncedCache(g: Shape, now: seq<nat>, dirty: nat, first: nat)
    requires g.Valid() && Grew(g.heights, now) && dirty == FirstDirty(|g.heights|, |now|) && first == dirty / BLOCK && now != []
    ensures CachedHeights(AfterSync(g, now)) == Stored(Surviving(CachedHeights(g), Blocks(|now|), first), first, KeptOf(g, first, dirty))
  {
    DirtyInRange(g, now, dirty, first);
    var got := CachedHeights(AfterSync(g, now));
    var want := Stored(Surviving(CachedHeights(g), Blocks(|now|), first), first, KeptOf(g, first, dirty));
    forall b: int ensures b in got <==> b in want ensures b in got && b in want ==> got[b] == want[b] {
      if 0 <= b < first { SettledBlock(g, now, b); }
    }
  }

  /** With no record left there is no block left. */
  lemma SyncedEmpty(g: Shape, first: nat)
    requires g.Valid()
    ensures var g' := AfterSync(g, []);
            g'.Valid() && PhysicalLines([]) == [] && MeasuredLines(g') == [] == Resized(MeasuredLines(g), 0, first, -1)
            && MeasuredSpans(g') == [] == Resized(MeasuredSpans(g), 0, first, 0)
            && CachedHeights(g') == map[] == Surviving(CachedHeights(g), 0, first)
  {
  }

  /** What the vectors and the hash hold for the dirty block once they have the new size. */
  lemma ResizedDirty(g: Shape, now: seq<nat>, dirty: nat, first: nat)
    requires g.Valid() && Grew(g.heights, now) && dirty == FirstDirty(|g.heights|, |now|) && first == dirty / BLOCK && now != []
    ensures var blocks := Blocks(|now|);
            var cache := Surviving(CachedHeights(g), blocks, first);
            var was := CachedIn(cache, first);
            var kept := Truncated(was, dirty - BlockStart(first));
            first < blocks && (first in cache ==> was != []) && kept == KeptOf(g, first, dirty) && BlockStart(first) + |kept| <= |now|
            && (kept == was ==> Resized(MeasuredLines(g), blocks, first, -1)[first] == LineTotal(was)
                                && Resized(MeasuredSpans(g), blocks, first, 0)[first] == Span(now, BlockStart(first), |was|))
  {
    DirtyInRange(g, now, dirty, first);
    DirtyBlock(g, now, dirty, first);
  }

  /** Blocks in front of the dirty one keep their physical lines. */
  lemma SettledPhysical(g: Shape, now: seq<nat>, dirty: nat, first: nat)
    requires g.Valid() && Grew(g.heights, now) && dirty == FirstDirty(|g.heights|, |now|) && first == dirty / BLOCK
    ensures first <= |PhysicalLines(g.heights)|
    ensures forall b :: 0 <= b < first && b < Blocks(|now|) ==> PhysicalLines(g.heights)[b] == PhysicalLines(now)[b]
  {
    DirtyInRange(g, now, dirty, first);
    forall b | 0 <= b < first && b < Blocks(|now|) ensures PhysicalLines(g.heights)[b] == PhysicalLines(now)[b] {
      SettledBlock(g, now, b);
    }
  }

  // ---------------------------------------------------------------------------
  // The class
  // ---------------------------------------------------------------------------

  class EstimatedGeometry {
    var idx: RecordIndex
    var wrapWidth: int
    var blockPhysical: seq<int>
    var blockLines: seq<int>
    var blockMeasuredPhysical: seq<int>
    var recordLines: map<int, seq<nat>>
    var prefix: seq<int>
    var total: int
    var measuredVisual: int
    var measuredPhysical: int
    var measuredBlocks: int
    var boundRecords: int
    var tailLines: int
    ghost var shape: Shape // the map the fields stand for, over the heights last synced to

    constructor (idx: RecordIndex, width: int)
      requires idx.SumsFresh() && Positive(Heights(idx.records))
      ensures this.idx == idx && Valid() && Synced()
      ensures shape == Unmeasured(Heights(idx.records)) && wrapWidth == Max(1, width)
    {
      this.idx := idx;
      new;
      Reset(idx, width);
    }

    ghost predicate FieldsOk()
      reads this
    {
      && shape.Valid()
      && blockPhysical == PhysicalLines(shape.heights)
      && blockLines == MeasuredLines(shape)
      && blockMeasuredPhysical == MeasuredSpans(shape)
      && recordLines == CachedHeights(shape)
      && boundRecords == |shape.heights|
      && tailLines == TailOf(shape.heights)
    }

    ghost predicate TotalsOk()
      reads this
    {
      shape.Valid() && measuredVisual == shape.VisualTotal(shape.Blocks()) && measuredPhysical == shape.PhysicalTotal(shape.Blocks())
      && measuredBlocks == WholeCount(shape, shape.Blocks())
    }

    ghost predicate PrefixOk()
      reads this
    {
      shape.Valid() && |prefix| == shape.Blocks() + 1 && (forall b :: 0 <= b <= shape.Blocks() ==> prefix[b] == shape.Prefix(b))
      && total == shape.Total()
    }

    ghost predicate Valid()
      reads this
    {
      FieldsOk() && TotalsOk() && PrefixOk()
    }

    /** The bound index has not moved since the last reset or sync. */
    ghost predicate Synced()
      reads this, idx
    {
      idx.SumsFresh() && Heights(idx.records) == shape.heights
    }

    // --- reading ------------------------------------------------------------

    function RecordsInBlock(block: int): int
      reads this, idx
    {
      var n := |idx.records|;
      var start := block * BLOCK;
      Max(0, (if start + BLOCK < n then start + BLOCK else n) - start)
    }

    function MeasuredRecordsInBlock(block: int): int
      reads this
    {
      if block < 0 || block >= |blockLines| then 0 else |CachedIn(recordLines, block)|
    }

    predicate IsBlockMeasured(block: int)
      reads this, idx
    {
      RecordsInBlock(block) > 0 && MeasuredRecordsInBlock(block) == RecordsInBlock(block)
    }

    /** `rest` physical lines times the expansion factor, never below `rest`. */
    function Estimate(rest: int): int
      reads this
    {
      if measuredPhysical <= 0 || measuredVisual < measuredPhysical then rest
      else Max(rest, Round(rest * measuredVisual, measuredPhysical))
    }

    function BlockLinesOf(block: int): int
      reads this, idx
      requires |blockPhysical| == |blockLines| == |blockMeasuredPhysical|
    {
      if block < 0 || block >= |blockPhysical| then 0
      else
        var measured := Max(0, blockLines[block]);
        if IsBlockMeasured(block) then measured
        else measured + Estimate(Max(0, blockPhysical[block] - blockMeasuredPhysical[block]))
    }

    lemma FieldsLength()
      requires FieldsOk()
      ensures |blockPhysical| == |blockLines| == |blockMeasuredPhysical| == shape.Blocks() == Blocks(|shape.heights|) == |shape.measured| && shape.Valid()
    {
    }

    lemma BlockFacts(b: nat)
      requires FieldsOk() && Synced() && b < shape.Blocks()
      ensures RecordsInBlock(b) == shape.End(b) - shape.Start(b) > 0 && shape.Start(b) == b * BLOCK
      ensures CachedIn(recordLines, b) == shape.measured[b] && MeasuredRecordsInBlock(b) == |shape.measured[b]|
      ensures Max(0, blockLines[b]) == shape.Visual(b)
      ensures blockMeasuredPhysical[b] == shape.PhysicalMeasured(b) && (blockLines[b] < 0 ==> shape.PhysicalMeasured(b) == 0)
      ensures blockPhysical[b] - blockMeasuredPhysical[b] == shape.PhysicalRest(b)
      ensures IsBlockMeasured(b) == shape.Whole(b)
    {
      CacheKeeps(shape, b, []);
    }

    lemma BlockLinesAgree(b: nat)
      requires FieldsOk() && TotalsOk() && Synced() && b < shape.Blocks()
      ensures BlockLinesOf(b) == shape.BlockLines(b)
    {
      BlockFacts(b);
    }

    /** Recomputes the prefix sums of the block totals. */
    method Rebuild()
      requires FieldsOk() && TotalsOk() && Synced()
      modifies this`prefix, this`total
      ensures Valid()
    {
      hide Shape.BlockLines, BlockLinesOf, PhysicalLines, MeasuredLines, MeasuredSpans, CachedHeights;
      FieldsLength();
      var blocks := |blockPhysical|;
      var acc := 0;
      var sums := [];
      var b := 0;
      while b < blocks
        invariant 0 <= b <= blocks && |sums| == b && acc == shape.Prefix(b)
        invariant forall k :: 0 <= k < b ==> sums[k] == shape.Prefix(k)
      {
        BlockLinesAgree(b);
        sums := sums + [acc];
        acc := acc + BlockLinesOf(b);
        b := b + 1;
      }
      prefix := sums + [acc];
      total := acc;
    }

    /** Recounts the running aggregates and rebuilds. */
    method RefreshTotals()
      requires FieldsOk() && Synced()
      modifies this`prefix, this`total, this`measuredVisual, this`measuredPhysical, this`measuredBlocks
      ensures Valid()
    {
      hide PhysicalLines, MeasuredLines, MeasuredSpans, CachedHeights, Shape.Visual, Shape.PhysicalMeasured, Shape.Whole, RecordsInBlock, MeasuredRecordsInBlock;
      FieldsLength();
      var visual, physical, whole := 0, 0, 0;
      var b := 0;
      while b < |blockLines|
        invariant 0 <= b <= |blockLines|
        invariant visual == shape.VisualTotal(b) && physical == shape.PhysicalTotal(b) && whole == WholeCount(shape, b)
      {
        BlockFacts(b);
        if blockLines[b] >= 0 {
          visual := visual + blockLines[b];
          physical := physical + blockMeasuredPhysical[b];
        }
        if IsBlockMeasured(b) { whole := whole + 1; }
        b := b + 1;
      }
      measuredVisual, measuredPhysical, measuredBlocks := visual, physical, whole;
      Rebuild();
    }

    // --- lifecycle ------------------------------------------------------------

    /** Physical totals of the blocks from `first` on, off the index's own prefix sums. */
    method PhysicalTotals(was: seq<int>, first: nat, blocks: nat) returns (physical: seq<int>)
      requires idx.SumsFresh() && blocks == Blocks(|idx.records|) && first <= |was|
      requires var h := Heights(idx.records);
               forall b :: 0 <= b < first && b < blocks ==> was[b] == PhysicalLines(h)[b]
      ensures physical == PhysicalLines(Heights(idx.records))
    {
      hide PhysicalLines;
      var n := |idx.records|;
      physical := if blocks <= first then was[..blocks] else was[..first];
      ghost var h := Heights(idx.records);
      PhysicalLength(h);
      var b := first;
      while b < blocks
        invariant first <= b && |physical| == (if blocks <= b then blocks else b)
        invariant forall k :: 0 <= k < |physical| ==> physical[k] == PhysicalLines(h)[k]
      {
        var start := b * BLOCK;
        var end := if start + BLOCK < n then start + BLOCK else n;
        var at: int := idx.FirstLineOfRecord(start);
        var past: int := idx.FirstLineOfRecord(end);
        PhysicalAt(idx.records, b);
        physical := physical + [past - at];
        b := b + 1;
      }
    }

    static lemma PhysicalLength(h: seq<nat>)
      ensures |PhysicalLines(h)| == Blocks(|h|)
    {
    }

    static lemma PhysicalAt(records: seq<Record>, b: nat)
      requires b < Blocks(|records|)
      ensures BlockStart(b) <= BlockEnd(b, |records|) <= |records| && b < |PhysicalLines(Heights(records))|
      ensures PhysicalLines(Heights(records))[b] == Lines(records, BlockEnd(b, |records|)) - Lines(records, BlockStart(b))
    {
      LinesIsPre(records, BlockStart(b));
      LinesIsPre(records, BlockEnd(b, |records|));
    }

    /** Every block unmeasured, over the heights `h`. */
    method Forget(ghost h: seq<nat>, blocks: nat)
      requires Positive(h) && blocks == Blocks(|h|)
      requires blockPhysical == PhysicalLines(h) && boundRecords == |h| && tailLines == TailOf(h)
      modifies this`blockLines, this`blockMeasuredPhysical, this`recordLines, this`shape,
               this`measuredVisual, this`measuredPhysical, this`measuredBlocks
      ensures FieldsOk() && TotalsOk() && shape == Unmeasured(h)
    {
      hide PhysicalLines, MeasuredLines, MeasuredSpans, CachedHeights, Unmeasured, Filled, Positive,
           Shape.VisualTotal, Shape.PhysicalTotal, WholeCount, Shape.Valid, Shape.Blocks;
      UnmeasuredFields(h);
      blockLines := Filled(blocks, -1);
      blockMeasuredPhysical := Filled(blocks, 0);
      recordLines := map[];
      measuredVisual, measuredPhysical, measuredBlocks := 0, 0, 0;
      shape := Unmeasured(h);
    }

    /** Binds to an index: every block unmeasured, at its physical height. */
    method Reset(newIdx: RecordIndex, width: int)
      requires newIdx.SumsFresh() && Positive(Heights(newIdx.records))
      modifies this
      ensures idx == newIdx && Valid() && Synced()
      ensures shape == Unmeasured(Heights(newIdx.records)) && wrapWidth == Max(1, width)
    {
      idx := newIdx;
      wrapWidth := Max(1, width);
      Bind();
      Rebuild();
    }

    /** Takes the index's size and physical heights over, with nothing measured. */
    method Bind()
      requires idx.SumsFresh() && Positive(Heights(idx.records))
      modifies this`blockPhysical, this`boundRecords, this`tailLines, this`blockLines, this`blockMeasuredPhysical, this`recordLines,
               this`shape, this`measuredVisual, this`measuredPhysical, this`measuredBlocks
      ensures FieldsOk() && TotalsOk() && shape == Unmeasured(Heights(idx.records))
    {
      var n := |idx.records|;
      blockPhysical := PhysicalTotals([], 0, Blocks(n));
      boundRecords := n;
      tailLines := if n > 0 then DisplayLines(idx.records[n - 1]) else 0;
      Forget(Heights(idx.records), Blocks(n));
    }

    /** Drops every measurement at the current width. */
    method InvalidateMeasurements()
      requires Valid() && Synced()
      modifies this
      ensures Valid() && Synced() && idx == old(idx) && wrapWidth == old(wrapWidth)
      ensures shape == Unmeasured(old(shape).heights)
    {
      hide PhysicalLines, MeasuredLines, MeasuredSpans, CachedHeights, Shape.Prefix, Positive,
           Shape.VisualTotal, Shape.PhysicalTotal, WholeCount, Shape.Valid;
      ShapePositive();
      FieldsLength();
      Forget(shape.heights, |blockLines|);
      Rebuild();
    }

    lemma ShapePositive()
      requires shape.Valid()
      ensures Positive(shape.heights)
    {
    }

    /** Heights belong to one width: a different one drops them all, the same one none. */
    method SetWrapWidth(width: int) returns (moved: bool)
      requires Valid() && Synced()
      modifies this
      ensures Valid() && Synced() && idx == old(idx) && wrapWidth == Max(1, width)
      ensures moved <==> Max(1, width) != old(wrapWidth)
      ensures shape == if moved then Unmeasured(old(shape).heights) else old(shape)
    {
      hide PhysicalLines, MeasuredLines, MeasuredSpans, CachedHeights, Shape.VisualTotal, Shape.PhysicalTotal, WholeCount, Shape.Prefix, Shape.Valid;
      var w := Max(1, width);
      if w == wrapWidth { return false; }
      wrapWidth := w;
      InvalidateMeasurements();
      return true;
    }

    // --- measuring ------------------------------------------------------------

    static method SumOf(lines: seq<nat>) returns (sum: nat)
      ensures sum == Pre(lines, |lines|)
    {
      sum := 0;
      var i := 0;
      while i < |lines|
        invariant 0 <= i <= |lines| && sum == Pre(lines, i)
      {
        sum := sum + lines[i];
        i := i + 1;
      }
    }

    method PhysicalOf(start: nat, count: nat) returns (sum: int)
      requires start + count <= |idx.records|
      ensures sum == Span(Heights(idx.records), start, count)
    {
      ghost var h := Heights(idx.records);
      sum := 0;
      var i := 0;
      while i < count
        invariant 0 <= i <= count && sum == Span(h, start, i)
      {
        sum := sum + DisplayLines(idx.records[start + i]);
        i := i + 1;
      }
    }

    /** Stores one block's heights and recounts its two line totals. */
    method SetBlockMeasurement(block: nat, lines: seq<nat>)
      requires block < |blockLines| && |blockMeasuredPhysical| == |blockLines|
      requires BlockStart(block) + |lines| <= |idx.records|
      modifies this`recordLines, this`blockLines, this`blockMeasuredPhysical
      ensures recordLines == Stored(old(recordLines), block, lines)
      ensures blockLines == old(blockLines)[block := LineTotal(lines)]
      ensures blockMeasuredPhysical == old(blockMeasuredPhysical)[block := Span(Heights(idx.records), BlockStart(block), |lines|)]
    {
      if lines == [] {
        recordLines := recordLines - {block};
        blockLines := blockLines[block := -1];
        blockMeasuredPhysical := blockMeasuredPhysical[block := 0];
        return;
      }
      var visual := SumOf(lines);
      var physical := PhysicalOf(BlockStart(block), |lines|);
      recordLines := recordLines[block := lines];
      blockLines := blockLines[block := visual];
      blockMeasuredPhysical := blockMeasuredPhysical[block := physical];
    }

    /** The heights of a block once a run was folded in behind its first `from` records. */
    static method FoldedLines(cached: seq<nat>, visualLines: seq<nat>, from: nat, count: nat) returns (lines: seq<nat>)
      requires from <= |cached| && from <= count
      ensures lines == Folded(cached, visualLines, from, count)
    {
      lines := cached[..from];
      var i := 0;
      while i < |visualLines| && |lines| < count
        invariant 0 <= i <= |visualLines| && |lines| == from + i <= count
        invariant lines == cached[..from] + visualLines[..i]
      {
        lines := lines + [visualLines[i]];
        i := i + 1;
      }
    }

    method StoreMeasurement(block: nat, lines: seq<nat>)
      requires FieldsOk() && Synced() && block < shape.Blocks()
      requires shape.Start(block) + |lines| <= shape.End(block) && Positive(lines)
      modifies this`recordLines, this`blockLines, this`blockMeasuredPhysical, this`shape
      ensures FieldsOk() && Synced() && shape == old(shape).(measured := old(shape).measured[block := lines])
    {
      FieldsLength();
      SetKeepsFields(shape, block, lines);
      hide PhysicalLines, MeasuredLines, MeasuredSpans, CachedHeights, Stored, LineTotal, Span, Shape.Valid, Positive;
      SetBlockMeasurement(block, lines);
      shape := shape.(measured := shape.measured[block := lines]);
    }

    /** Folds in exact heights for the records of a block from its `first`-th on: a run that
        would leave a hole, or a block already measured whole, changes nothing. */
    method MeasureBlock(block: int, visualLines: seq<nat>, first: int)
      requires Valid() && Synced() && Positive(visualLines)
      modifies this
      ensures Valid() && Synced() && idx == old(idx) && wrapWidth == old(wrapWidth)
      ensures shape == AfterMeasure(old(shape), block, visualLines, first)
    {
      hide PhysicalLines, MeasuredLines, MeasuredSpans, CachedHeights, Shape.Prefix, Shape.BlockLines, Shape.VisualTotal, Shape.PhysicalTotal,
           WholeCount, Shape.Valid, Positive, Folded;
      FieldsLength();
      if block < 0 || block >= |blockLines| { return; }
      BlockFacts(block);
      var count := RecordsInBlock(block);
      if count <= 0 { return; }
      var from := Max(first, 0);
      var have := MeasuredRecordsInBlock(block);
      if from > have { return; }
      if from == 0 && have == count { return; }
      PrefixFits(shape, block);
      FoldFits(shape, block, visualLines, from);
      var lines := FoldedLines(CachedIn(recordLines, block), visualLines, from, count);
      StoreMeasurement(block, lines);
      RefreshTotals();
    }

    static lemma PrefixFits(g: Shape, b: nat)
      requires g.Valid() && b < g.Blocks()
      ensures b < |g.measured| && g.Start(b) + |g.measured[b]| <= g.End(b)
    {
    }

    // --- growth ---------------------------------------------------------------

    /** Gives back what growth may have touched of one block. What stays must already be
        described by the block's aggregates. */
    method TruncateBlockMeasurement(block: nat, keep: int)
      requires block < |blockLines| == |blockMeasuredPhysical|
      requires var was := CachedIn(recordLines, block);
               BlockStart(block) + |Truncated(was, keep)| <= |idx.records|
               && (block in recordLines ==> was != [])
               && (Truncated(was, keep) == was ==>
                     blockLines[block] == LineTotal(was)
                     && blockMeasuredPhysical[block] == Span(Heights(idx.records), BlockStart(block), |was|))
      modifies this`recordLines, this`blockLines, this`blockMeasuredPhysical
      ensures var kept := Truncated(CachedIn(old(recordLines), block), keep);
              recordLines == Stored(old(recordLines), block, kept)
              && blockLines == old(blockLines)[block := LineTotal(kept)]
              && blockMeasuredPhysical == old(blockMeasuredPhysical)[block := Span(Heights(idx.records), BlockStart(block), |kept|)]
    {
      hide LineTotal, Span;
      if block !in recordLines || |recordLines[block]| <= Max(0, keep) { return; }
      SetBlockMeasurement(block, recordLines[block][..Max(0, keep)]);
    }

    /** Gives every block past the dirty one up and brings the vectors to the new size. */
    method ResizeBlocks(first: nat, blocks: nat)
      modifies this`recordLines, this`blockLines, this`blockMeasuredPhysical
      ensures recordLines == Surviving(old(recordLines), blocks, first)
      ensures blockLines == Resized(old(blockLines), blocks, first, -1)
      ensures blockMeasuredPhysical == Resized(old(blockMeasuredPhysical), blocks, first, 0)
    {
      recordLines := map b | b in recordLines && b <= first && b < blocks :: recordLines[b];
      blockLines := Restarted(blockLines, first, blocks, -1);
      blockMeasuredPhysical := Restarted(blockMeasuredPhysical, first, blocks, 0);
    }

    static method Restarted(v: seq<int>, first: nat, blocks: nat, fill: int) returns (r: seq<int>)
      ensures r == Resized(v, blocks, first, fill)
    {
      r := v;
      var b := first + 1;
      while b < |r|
        invariant |r| == |v| && first < b
        invariant forall k :: 0 <= k < |r| ==> r[k] == if first < k < b then fill else v[k]
      {
        r := r[b := fill];
        b := b + 1;
      }
      if blocks <= |r| { r := r[..blocks]; }
      while |r| < blocks
        invariant |r| <= blocks
        invariant forall k :: 0 <= k < |r| ==> r[k] == if k <= first && k < |v| then v[k] else fill
        decreases blocks - |r|
      {
        r := r + [fill];
      }
    }

    /** Catches up with an index whose record count or last height is another one than at the
        last sync; answers whether it was. */
    method SyncTail() returns (moved: bool)
      requires Valid() && idx.SumsFresh() && Grew(shape.heights, Heights(idx.records)) && Positive(Heights(idx.records))
      modifies this
      ensures Valid() && Synced() && idx == old(idx) && wrapWidth == old(wrapWidth)
      ensures moved <==> Heights(idx.records) != old(shape).heights
      ensures shape == AfterSyncTail(old(shape), Heights(idx.records))
    {
      hide PhysicalLines, MeasuredLines, MeasuredSpans, CachedHeights, Shape.Prefix, Shape.BlockLines, Shape.VisualTotal, Shape.PhysicalTotal,
           WholeCount, Shape.Valid, Positive, AfterSync, Grew;
      var n := |idx.records|;
      var tail := if n > 0 then DisplayLines(idx.records[n - 1]) else 0;
      ghost var h := Heights(idx.records);
      SameEnds(shape.heights, h);
      if n == boundRecords && tail == tailLines { return false; }
      var firstDirty := FirstDirty(boundRecords, n);
      boundRecords := n;
      tailLines := tail;
      SyncFields(firstDirty, firstDirty / BLOCK, Blocks(n));
      RefreshTotals();
      return true;
    }

    /** The same count and the same last height mean that nothing moved. */
    static lemma SameEnds(was: seq<nat>, now: seq<nat>)
      requires Grew(was, now)
      ensures Moved(was, now) <==> was != now
    {
      if !Moved(was, now) {
        assert forall i :: 0 <= i < |was| ==> was[i] == now[i];
      }
    }

    method SyncFields(firstDirty: nat, firstBlock: nat, blocks: nat)
      requires shape.Valid() && blockPhysical == PhysicalLines(shape.heights) && blockLines == MeasuredLines(shape)
      requires blockMeasuredPhysical == MeasuredSpans(shape) && recordLines == CachedHeights(shape)
      requires idx.SumsFresh() && Grew(shape.heights, Heights(idx.records)) && Positive(Heights(idx.records))
      requires boundRecords == |idx.records| && tailLines == TailOf(Heights(idx.records))
      requires firstDirty == FirstDirty(|shape.heights|, |idx.records|) && firstBlock == firstDirty / BLOCK && blocks == Blocks(|idx.records|)
      modifies this`recordLines, this`blockLines, this`blockMeasuredPhysical, this`blockPhysical, this`shape
      ensures FieldsOk() && shape == AfterSync(old(shape), Heights(idx.records)) && shape.heights == Heights(idx.records)
    {
      hide PhysicalLines, MeasuredLines, MeasuredSpans, CachedHeights, Stored, LineTotal, Span, Resized, Surviving, Truncated, KeptOf, CachedIn, Shape.Valid, Positive, Grew;
      ghost var h := Heights(idx.records);
      SyncFacts(shape, h, firstDirty, firstBlock);
      SettledPhysical(shape, h, firstDirty, firstBlock);
      blockPhysical := PhysicalTotals(blockPhysical, firstBlock, blocks);
      ResizeBlocks(firstBlock, blocks);
      if firstBlock < blocks { TruncateBlockMeasurement(firstBlock, firstDirty - firstBlock * BLOCK); }
      shape := AfterSync(shape, h);
    }

    static lemma SyncFacts(g: Shape, now: seq<nat>, dirty: nat, first: nat)
      requires g.Valid() && Grew(g.heights, now) && Positive(now) && dirty == FirstDirty(|g.heights|, |now|) && first == dirty / BLOCK
      ensures var g' := AfterSync(g, now);
              var blocks := Blocks(|now|);
              var lines := Resized(MeasuredLines(g), blocks, first, -1);
              var spans := Resized(MeasuredSpans(g), blocks, first, 0);
              var cache := Surviving(CachedHeights(g), blocks, first);
              var was := CachedIn(cache, first);
              var kept := Truncated(was, dirty - BlockStart(first));
              g'.Valid() && g'.heights == now && |lines| == |spans| == blocks
              && (first >= blocks ==> MeasuredLines(g') == lines && MeasuredSpans(g') == spans && CachedHeights(g') == cache)
              && (first < blocks ==>
                    BlockStart(first) + |kept| <= |now| && (first in cache ==> was != [])
                    && (kept == was ==> lines[first] == LineTotal(was)
                                        && (BlockStart(first) + |was| <= |now| ==> spans[first] == Span(now, BlockStart(first), |was|)))
                    && MeasuredLines(g') == lines[first := LineTotal(kept)]
                    && MeasuredSpans(g') == spans[first := Span(now, BlockStart(first), |kept|)]
                    && CachedHeights(g') == Stored(cache, first, kept))
    {
      DirtyInRange(g, now, dirty, first);
      AfterSyncValid(g, now);
      if now == [] {
        SyncedEmpty(g, first);
      } else {
        ResizedDirty(g, now, dirty, first);
        SyncedLines(g, now, dirty, first);
        SyncedSpans(g, now, dirty, first);
        SyncedCache(g, now, dirty, first);
      }
    }

    // --- mapping --------------------------------------------------------------

    static lemma LineOfMeasured(g: Shape, b: nat, r: nat)
      requires g.Valid() && b < g.Blocks() && g.Start(b) <= r < g.End(b) && r - g.Start(b) <= |g.measured[b]|
      ensures var s := g.measured[b][..r - g.Start(b)];
              g.LineInBlock(b, r) == Pre(s, |s|)
    {
      PreAgrees(g.measured[b], g.measured[b][..r - g.Start(b)], r - g.Start(b));
    }

    static lemma LineOfEstimated(g: Shape, b: nat, r: nat)
      requires g.Valid() && b < g.Blocks() && g.Start(b) <= r < g.End(b) && r - g.Start(b) > |g.measured[b]|
      ensures var physRest := g.PhysicalRest(b);
              var physBefore := Pre(g.heights, r) - Pre(g.heights, g.Start(b)) - g.PhysicalMeasured(b);
              g.LineInBlock(b, r) == if physRest <= 0 then g.Visual(b)
                                     else g.Visual(b) + Round(Max(0, physBefore) * (g.BlockLines(b) - g.Visual(b)), physRest)
    {
      hide Pre, Round, Shape.BlockLines;
    }

    /** Behind the measured prefix: the physical lines in front, scaled. */
    method EstimatedLineInBlock(block: nat, r: nat) returns (line: int)
      requires Valid() && Synced() && block < shape.Blocks() && shape.Start(block) <= r < shape.End(block)
      requires r - shape.Start(block) > |shape.measured[block]|
      ensures line == shape.LineInBlock(block, r)
    {
      hide PhysicalLines, MeasuredLines, MeasuredSpans, CachedHeights, Shape.BlockLines, Shape.VisualTotal, Shape.PhysicalTotal,
           Shape.Prefix, WholeCount, Shape.Valid, BlockLinesOf, Round, Shape.LineInBlock;
      var start := BlockStart(block);
      FieldsLength();
      BlockFacts(block);
      BlockLinesAgree(block);
      var exact := Max(0, blockLines[block]);
      var physRest := blockPhysical[block] - blockMeasuredPhysical[block];
      var estRest := BlockLinesOf(block) - exact;
      LineOfEstimated(shape, block, r);
      if physRest <= 0 { return exact; }
      var at: int := idx.FirstLineOfRecord(r);
      var first: int := idx.FirstLineOfRecord(start);
      LinesIsPre(idx.records, r);
      LinesIsPre(idx.records, start);
      var physBefore := at - first - blockMeasuredPhysical[block];
      line := exact + Round(Max(0, physBefore) * estRest, physRest);
    }

    /** Where a record's first wrapped line is. */
    method FirstLineOfRecord(r: int) returns (line: int)
      requires Valid() && Synced()
      ensures line == shape.FirstLine(r)
    {
      hide PhysicalLines, MeasuredLines, MeasuredSpans, CachedHeights, Shape.BlockLines, Shape.VisualTotal, Shape.PhysicalTotal,
           Shape.Prefix, WholeCount, Shape.Valid, BlockLinesOf, Shape.LineInBlock;
      if r <= 0 || |idx.records| == 0 { return 0; }
      if r >= |idx.records| { return total; }
      var block := r / BLOCK;
      var start := BlockStart(block);
      FieldsLength();
      BlockFacts(block);
      PrefixFits(shape, block);
      BlockLinesAgree(block);
      var base := prefix[block];
      var have := MeasuredRecordsInBlock(block);
      if r - start <= have {
        var inside := SumOf(CachedIn(recordLines, block)[..r - start]);
        LineOfMeasured(shape, block, r);
        return base + inside;
      }
      var inside := EstimatedLineInBlock(block, r);
      line := base + inside;
    }

    /** The block whose lines hold `line`, off the prefix sums. */
    method BlockOfLine(line: int) returns (block: nat)
      requires Valid() && Synced() && 0 < line < total
      ensures block < shape.Blocks() && prefix[block] == shape.Prefix(block)
      ensures block == shape.BlockAt(line, shape.Blocks() - 1)
    {
      hide PhysicalLines, MeasuredLines, MeasuredSpans, CachedHeights, Shape.BlockLines, Shape.VisualTotal, Shape.PhysicalTotal,
           WholeCount, Shape.Valid, BlockLinesOf;
      FieldsLength();
      var lo := 0;
      var hi := |blockPhysical| - 1;
      while lo < hi
        invariant 0 <= lo <= hi < |blockPhysical| && prefix[lo] <= line < prefix[hi + 1]
      {
        var mid := (lo + hi + 1) / 2;
        if prefix[mid] <= line { lo := mid; } else { hi := mid - 1; }
      }
      BlockAtRight(shape, line, shape.Blocks() - 1, lo);
      return lo;
    }

    /** The cached record holding the block's `local`-th line. */
    static method FindMeasured(lines: seq<nat>, local: int) returns (i: int)
      requires local >= 0 && Positive(lines)
      ensures local < Pre(lines, |lines|) ==> 0 <= i < |lines| && i == FindFrom(lines, 0, |lines|, local)
      ensures local >= Pre(lines, |lines|) ==> i == -1
    {
      var acc := 0;
      i := 0;
      while i < |lines|
        invariant 0 <= i <= |lines| && acc == Pre(lines, i) <= local
      {
        acc := acc + lines[i];
        if local < acc {
          FindFromRight(lines, 0, |lines|, local, i);
          PreMonotone(lines, i + 1, |lines|);
          return;
        }
        i := i + 1;
      }
      i := -1;
    }

    /** The record of [from, end) holding the physical line `target`, counted from `from`. */
    method FindPhysical(from: nat, end: nat, target: int) returns (r: int)
      requires from < end <= |idx.records| && target >= 0 && Positive(Heights(idx.records))
      ensures r == FindFrom(Heights(idx.records), from, end, target)
    {
      ghost var h := Heights(idx.records);
      var acc: int := 0;
      var i := from;
      while i < end
        invariant from <= i <= end && acc == Pre(h, i) - Pre(h, from) <= target
      {
        acc := acc + DisplayLines(idx.records[i]);
        if target < acc {
          FindFromRight(h, from, end, target, i);
          return i;
        }
        i := i + 1;
      }
      PreMonotone(h, end - 1, end);
      FindFromRight(h, from, end, target, end - 1);
      return end - 1;
    }

    /** The record a wrapped line belongs to. */
    method RecordAtLine(line: int) returns (r: int)
      requires Valid() && Synced()
      ensures r == shape.RecordAt(line)
    {
      hide PhysicalLines, MeasuredLines, MeasuredSpans, CachedHeights, Shape.BlockLines, Shape.VisualTotal, Shape.PhysicalTotal,
           Shape.Prefix, WholeCount, Shape.Valid, Shape.RecordInBlock, Shape.BlockAt;
      var n := |idx.records|;
      if n == 0 { return -1; }
      if line <= 0 { return 0; }
      if line >= total { return n - 1; }
      var block := BlockOfLine(line);
      BlockAtMeaning(shape, line, shape.Blocks() - 1);
      r := RecordInBlockAt(block, line - prefix[block]);
    }

    static lemma MeasuredLookup(g: Shape, b: nat, local: int)
      requires g.Valid() && b < g.Blocks()
      ensures 0 <= local < g.Visual(b) ==>
                g.measured[b] != [] && g.RecordInBlock(b, local) == g.Start(b) + FindFrom(g.measured[b], 0, |g.measured[b]|, local)
      ensures local >= g.Visual(b) && g.Whole(b) ==> g.RecordInBlock(b, local) == g.End(b) - 1
    {
    }

    method RecordInBlockAt(block: nat, local: int) returns (r: int)
      requires Valid() && Synced() && block < shape.Blocks() && local >= 0
      ensures r == shape.RecordInBlock(block, local)
    {
      hide PhysicalLines, MeasuredLines, MeasuredSpans, CachedHeights, Shape.BlockLines, Shape.VisualTotal, Shape.PhysicalTotal,
           Shape.Prefix, WholeCount, Shape.Valid, BlockLinesOf, Positive, Pre, Shape.RecordInBlock, Shape.Visual, RecordsInBlock, MeasuredRecordsInBlock, IsBlockMeasured;
      FieldsLength();
      BlockFacts(block);
      BlockLinesAgree(block);
      ShapePositive();
      PrefixFits(shape, block);
      MeasuredLookup(shape, block, local);
      var start := BlockStart(block);
      var count := RecordsInBlock(block);
      var have := MeasuredRecordsInBlock(block);
      if have > count { have := count; }
      var exact := Max(0, blockLines[block]);
      if block in recordLines && local < exact {
        MeasuredPositive(shape, block);
        var i := FindMeasured(recordLines[block], local);
        return start + i;
      }
      if have >= count { return start + count - 1; }
      r := EstimatedRecordAt(block, start + have, start + count, Max(0, local - exact));
    }

    /** Behind the measured prefix: the line scaled back to a physical offset, and looked up. */
    method EstimatedRecordAt(block: nat, from: nat, end: nat, localRest: int) returns (r: int)
      requires Valid() && Synced() && block < shape.Blocks() && !shape.Whole(block) && localRest >= 0
      requires block < |shape.measured| && from == shape.Start(block) + |shape.measured[block]| && end == shape.End(block)
      ensures r == shape.RecordInBlock(block, shape.Visual(block) + localRest)
    {
      hide PhysicalLines, MeasuredLines, MeasuredSpans, CachedHeights, Shape.BlockLines, Shape.VisualTotal, Shape.PhysicalTotal,
           Shape.Prefix, WholeCount, Shape.Valid, BlockLinesOf, Positive, Pre, Shape.RecordInBlock, Shape.Visual, Shape.PhysicalRest;
      FieldsLength();
      BlockFacts(block);
      BlockLinesAgree(block);
      ShapePositive();
      PrefixFits(shape, block);
      var physRest := blockPhysical[block] - blockMeasuredPhysical[block];
      var estRest := BlockLinesOf(block) - Max(0, blockLines[block]);
      EstimatedLookup(shape, block, localRest);
      if physRest <= 0 || estRest <= 0 { return from; }
      ScaledBackMonotone(0, localRest, physRest, estRest);
      r := FindPhysical(from, end, localRest * physRest / estRest);
    }

    static lemma MeasuredPositive(g: Shape, b: nat)
      requires g.Valid() && b < g.Blocks()
      ensures Positive(g.measured[b]) && g.Visual(b) == Pre(g.measured[b], |g.measured[b]|)
    {
    }

    /** The wrapped height of one record: measured, or its physical height scaled. */
    function RecordHeightLines(r: int): (lines: int)
      requires Valid() && Synced()
      reads this, idx
    {
      if r < 0 || r >= |idx.records| then 1
      else
        var kept := CachedIn(recordLines, r / BLOCK);
        if r % BLOCK < |kept| then kept[r % BLOCK]
        else
          var phys := DisplayLines(idx.records[r]);
          var est := if measuredPhysical <= 0 || measuredVisual < measuredPhysical then phys
                     else Round(phys * measuredVisual, measuredPhysical);
          if Max(phys, est) < 1 then 1 else if Max(phys, est) > DISPLAY_LINE_CAP then DISPLAY_LINE_CAP else Max(phys, est)
    }

    /** A record is never answered shorter than it can render: exact once measured, else at
        least its physical height and at most the cap. */
    lemma HeightBounds(r: nat)
      requires Valid() && Synced() && r < |idx.records|
      ensures var b := r / BLOCK;
              b < |shape.measured|
              && (r % BLOCK < |shape.measured[b]| ==> RecordHeightLines(r) == shape.measured[b][r % BLOCK])
              && (r % BLOCK >= |shape.measured[b]| ==> shape.heights[r] <= RecordHeightLines(r) <= 100)
    {
      BlockFacts(r / BLOCK);
      assert DisplayLines(idx.records[r]) == shape.heights[r] >= 1;
    }

    /** An unmeasured record is estimated like its block: its physical lines scaled by what the
        measured records came to, to the nearest line, at most the cap. */
    lemma HeightIsScaled(r: nat)
      requires Valid() && Synced() && r < |idx.records|
      ensures r / BLOCK < |shape.measured|
      ensures var v, p := Sum(MeasuredHeights(shape, shape.Blocks())), Sum(TheirPhysical(shape, shape.Blocks()));
              r % BLOCK >= |shape.measured[r / BLOCK]| && RecordHeightLines(r) < 100 ==>
                if 0 < p <= v then Nearly(RecordHeightLines(r), shape.heights[r], v, p) else RecordHeightLines(r) == shape.heights[r]
    {
      BlockFacts(r / BLOCK);
      assert DisplayLines(idx.records[r]) == shape.heights[r] >= 1;
      TotalsMean(shape, shape.Blocks());
      hide Pre, Sum, Shape.Valid, PhysicalLines, MeasuredLines, MeasuredSpans, CachedHeights, Round, Nearly, Shape.VisualTotal, Shape.PhysicalTotal;
      if 0 < measuredPhysical <= measuredVisual {
        RoundIsNear(shape.heights[r], measuredVisual, measuredPhysical);
        RoundAtLeast(shape.heights[r], measuredVisual, measuredPhysical);
      }
    }
  }
}
