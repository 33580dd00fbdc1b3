/** The line<->record map of a wrapped view, on values: blocks measured in part, the rest
    estimated from the running expansion factor. Heights are exact integers, the factor an
    exact fraction, and rounding is half up. */
module GeometryMap {
  import RecordIndexes

  const BLOCK: nat := RecordIndexes.BLOCK_SIZE

  /** The sum of the first `k` elements. */
  function Pre(s: seq<nat>, k: nat): nat
    requires k <= |s|
  {
    if k == 0 then 0 else Pre(s, k - 1) + s[k - 1]
  }

  /** a / b rounded to the nearest integer, halves up. */
  function Round(a: int, b: int): int
    requires b > 0
  {
    (2 * a + b) / (2 * b)
  }

  function Max(a: int, b: int): int { if a > b then a else b }

  /** Physical (capped) heights of all records, and per block the wrapped heights of its
      measured prefix. */
  datatype Shape = Shape(heights: seq<nat>, measured: seq<seq<nat>>) {
    function Records(): nat { |heights| }

    function Blocks(): nat { (|heights| + BLOCK - 1) / BLOCK }

    function Start(b: nat): nat { b * BLOCK }

    /** One past the last record of a block. */
    function End(b: nat): nat { if (b + 1) * BLOCK < |heights| then (b + 1) * BLOCK else |heights| }

    ghost predicate Valid() {
      && |measured| == Blocks()
      && (forall i :: 0 <= i < |heights| ==> heights[i] >= 1)
      && (forall b :: 0 <= b < Blocks() ==> Start(b) + |measured[b]| <= End(b))
      && (forall b :: 0 <= b < Blocks() ==> forall i :: 0 <= i < |measured[b]| ==> measured[b][i] >= 1)
    }

    predicate Whole(b: nat)
      requires b < |measured|
    {
      Start(b) + |measured[b]| == End(b)
    }

    /** Wrapped lines of a block's measured prefix. */
    function Visual(b: nat): nat
      requires b < |measured|
    {
      Pre(measured[b], |measured[b]|)
    }

    /** Physical lines of that same prefix, of the rest of the block, of the whole. */
    function PhysicalMeasured(b: nat): int
      requires Valid() && b < Blocks()
    {
      Pre(heights, Start(b) + |measured[b]|) - Pre(heights, Start(b))
    }

    function PhysicalRest(b: nat): int
      requires Valid() && b < Blocks()
    {
      Pre(heights, End(b)) - Pre(heights, Start(b) + |measured[b]|)
    }

    function VisualTotal(k: nat): nat
      requires Valid() && k <= Blocks()
    {
      if k == 0 then 0 else VisualTotal(k - 1) + Visual(k - 1)
    }

    function PhysicalTotal(k: nat): int
      requires Valid() && k <= Blocks()
    {
      if k == 0 then 0 else PhysicalTotal(k - 1) + PhysicalMeasured(k - 1)
    }

    /** `rest` physical lines scaled by the running factor, which is never below one. */
    function Scaled(rest: int): int
      requires Valid()
    {
      var v := VisualTotal(Blocks());
      var p := PhysicalTotal(Blocks());
      if p <= 0 || v < p then rest else Max(rest, Round(rest * v, p))
    }

    /** Measured lines, and the estimate for the rest. */
    function BlockLines(b: nat): int
      requires Valid() && b < Blocks()
    {
      if Whole(b) then Visual(b) else Visual(b) + Scaled(Max(0, PhysicalRest(b)))
    }

    function Prefix(b: nat): int
      requires Valid() && b <= Blocks()
    {
      if b == 0 then 0 else Prefix(b - 1) + BlockLines(b - 1)
    }

    function Total(): int
      requires Valid()
    {
      Prefix(Blocks())
    }

    /** The line a record of block `b` starts at, within the block. */
    function LineInBlock(b: nat, r: nat): int
      requires Valid() && b < Blocks() && Start(b) <= r <= End(b)
    {
      var have := |measured[b]|;
      if r - Start(b) <= have then Pre(measured[b], r - Start(b))
      else
        var physRest := PhysicalRest(b);
        var physBefore := Pre(heights, r) - Pre(heights, Start(b) + have);
        if physRest <= 0 then Visual(b)
        else Visual(b) + Round(Max(0, physBefore) * (BlockLines(b) - Visual(b)), physRest)
    }

    function FirstLine(r: int): int
      requires Valid()
    {
      if r <= 0 || |heights| == 0 then 0
      else if r >= |heights| then Total()
      else
        var b := r / BLOCK;
        Prefix(b) + LineInBlock(b, r)
    }

    /** The last block starting at or before `line`. */
    function BlockAt(line: int, b: nat): (k: nat)
      requires Valid() && b < Blocks()
      ensures k <= b
    {
      if b == 0 || Prefix(b) <= line then b else BlockAt(line, b - 1)
    }

    function RecordInBlock(b: nat, local: int): int
      requires Valid() && b < Blocks()
    {
      var have := |measured[b]|;
      if local < Visual(b) then Start(b) + FindFrom(measured[b], 0, have, local)
      else if Whole(b) then End(b) - 1
      else
        var physRest := PhysicalRest(b);
        var estRest := BlockLines(b) - Visual(b);
        if physRest <= 0 || estRest <= 0 then Start(b) + have
        else FindFrom(heights, Start(b) + have, End(b), (local - Visual(b)) * physRest / estRest)
    }

    function RecordAt(line: int): int
      requires Valid()
    {
      if |heights| == 0 then -1
      else if line <= 0 then 0
      else if line >= Total() then |heights| - 1
      else
        var b := BlockAt(line, Blocks() - 1);
        RecordInBlock(b, line - Prefix(b))
    }
  }

  /** The first index of [from, end) whose cumulative height, counted from `from`, exceeds
      `x`; the last index when none does. */
  function FindFrom(s: seq<nat>, from: int, end: int, x: int): (i: int)
    requires 0 <= from <= end <= |s|
    ensures from < end ==> from <= i < end
    decreases end - from
  {
    if from + 1 >= end then from
    else if x < s[from] then from
    else FindFrom(s, from + 1, end, x - s[from])
  }

  // ---------------------------------------------------------------------------
  // Sums and rounding
  // ---------------------------------------------------------------------------

  lemma {:induction false} PreMonotone(s: seq<nat>, j: nat, k: nat)
    requires j <= k <= |s|
    ensures Pre(s, j) <= Pre(s, k)
    decreases k
  {
    if j < k { PreMonotone(s, j, k - 1); }
  }

  lemma {:induction false} PreStrict(s: seq<nat>, j: nat, k: nat)
    requires j <= k <= |s| && forall i :: j <= i < k ==> s[i] >= 1
    ensures Pre(s, k) >= Pre(s, j) + (k - j)
    decreases k
  {
    if j < k { PreStrict(s, j, k - 1); }
  }

  lemma {:induction false} PreAgrees(a: seq<nat>, b: seq<nat>, k: nat)
    requires k <= |a| && k <= |b| && forall i :: 0 <= i < k ==> a[i] == b[i]
    ensures Pre(a, k) == Pre(b, k)
    decreases k
  {
    if k > 0 { PreAgrees(a, b, k - 1); }
  }

  lemma MulMonotone(d: int, x: int, y: int)
    requires d >= 0 && x <= y
    ensures d * x <= d * y
  {
  }

  lemma MulOrder(d: int, x: int, y: int)
    requires d > 0
    ensures d * x < d * y ==> x < y
  {
    if y <= x { MulMonotone(d, y, x); }
  }

  lemma DivMonotone(a: int, b: int, d: int)
    requires a <= b && d > 0
    ensures a / d <= b / d
  {
    MulOrder(d, a / d, b / d + 1);
  }

  lemma DivShift(x: int, d: int)
    requires d > 0
    ensures (x + d) / d == x / d + 1
  {
    var q := x / d;
    assert x + d == d * (q + 1) + x % d;
    DivUnique(x + d, d, q + 1, x % d);
  }

  lemma DivUnique(x: int, d: int, q: int, r: int)
    requires d > 0 && x == d * q + r && 0 <= r < d
    ensures x / d == q
  {
    MulOrder(d, q, x / d + 1);
    MulOrder(d, x / d, q + 1);
  }

  lemma DivBounds(x: int, d: int, lo: int, hi: int)
    requires d > 0 && d * lo <= x && x < d * (hi + 1)
    ensures lo <= x / d <= hi
  {
    MulOrder(d, lo, x / d + 1);
    MulOrder(d, x / d, hi + 1);
  }

  /** With a scale of at least one, one more physical line is at least one more line. */
  lemma RoundStep(x: int, y: int, er: int, pr: int)
    requires 0 <= x < y && er >= pr > 0
    ensures Round(x * er, pr) + 1 <= Round(y * er, pr)
  {
    var d := 2 * pr;
    var n := 2 * (x * er) + pr;
    MulMonotone(er, x + 1, y);
    assert y * er >= x * er + er by { assert er * (x + 1) == x * er + er; assert er * y == y * er; }
    assert 2 * (y * er) + pr >= n + d;
    DivMonotone(n + d, 2 * (y * er) + pr, d);
    DivShift(n, d);
  }

  lemma RoundWhole(er: int, pr: int)
    requires pr > 0
    ensures Round(pr * er, pr) == er && Round(0, pr) == 0
  {
    assert 2 * (pr * er) + pr == (2 * pr) * er + pr;
    DivUnique(2 * (pr * er) + pr, 2 * pr, er, pr);
    DivUnique(pr, 2 * pr, 0, pr);
  }

  /** Scaling a physical offset up, rounding, and scaling back down lands on the offset or
      one line short of it. */
  lemma RoundTripOffset(x: int, er: int, pr: int)
    requires 0 <= x && er >= pr > 0
    ensures var m := Round(x * er, pr);
            x - 1 <= m * pr / er <= x && (x == 0 ==> m == 0)
  {
    var m := Round(x * er, pr);
    RoundNear(x * er, pr);
    assert er * (x - 1) == x * er - er && er * (x + 1) == x * er + er;
    DivBounds(m * pr, er, x - 1, x);
    RoundWhole(er, pr);
    if x == 0 { assert x * er == 0; }
  }

  /** A rounded quotient, scaled back, is off by at most half the divisor. */
  lemma RoundNear(a: int, b: int)
    requires b > 0
    ensures 2 * a - b < 2 * (Round(a, b) * b) <= 2 * a + b
  {
    var n, d, q := 2 * a + b, 2 * b, Round(a, b);
    assert q == n / d && n == d * q + n % d;
    assert d * q == 2 * (q * b);
  }

  // ---------------------------------------------------------------------------
  // The map is strictly increasing
  // ---------------------------------------------------------------------------

  /** An estimate is never shorter than the physical lines it stands for. */
  lemma ScaledAtLeast(g: Shape, rest: int)
    requires g.Valid() && rest >= 0
    ensures g.Scaled(rest) >= rest
  {
  }

  lemma RestIsPositive(g: Shape, b: nat)
    requires g.Valid() && b < g.Blocks() && !g.Whole(b)
    ensures g.PhysicalRest(b) >= g.End(b) - (g.Start(b) + |g.measured[b]|) > 0
    ensures g.BlockLines(b) - g.Visual(b) >= g.PhysicalRest(b)
  {
    PreStrict(g.heights, g.Start(b) + |g.measured[b]|, g.End(b));
    ScaledAtLeast(g, g.PhysicalRest(b));
  }

  /** Where a record behind the measured prefix starts, as one formula; at the block's end it
      is the block's whole height. */
  lemma EstimatedLine(g: Shape, b: nat, r: nat)
    requires g.Valid() && b < g.Blocks() && !g.Whole(b)
    requires g.Start(b) + |g.measured[b]| <= r <= g.End(b)
    ensures var x := Pre(g.heights, r) - Pre(g.heights, g.Start(b) + |g.measured[b]|);
            0 < g.PhysicalRest(b) && 0 <= x <= g.PhysicalRest(b) && (r < g.End(b) ==> x < g.PhysicalRest(b)) && (r == g.End(b) ==> x == g.PhysicalRest(b))
            && g.LineInBlock(b, r) == g.Visual(b) + Round(x * (g.BlockLines(b) - g.Visual(b)), g.PhysicalRest(b))
  {
    var m := g.Start(b) + |g.measured[b]|;
    RestIsPositive(g, b);
    hide Shape.BlockLines, Pre, Round;
    PreMonotone(g.heights, m, r);
    PreStrict(g.heights, r, g.End(b));
    RoundWhole(g.BlockLines(b) - g.Visual(b), g.PhysicalRest(b));
    if r == m { assert 0 * (g.BlockLines(b) - g.Visual(b)) == 0; }
  }

  lemma LineAtBlockEnd(g: Shape, b: nat)
    requires g.Valid() && b < g.Blocks()
    ensures g.LineInBlock(b, g.End(b)) == g.BlockLines(b) && g.LineInBlock(b, g.Start(b)) == 0
  {
    if !g.Whole(b) {
      RestIsPositive(g, b);
      EstimatedLine(g, b, g.End(b));
      RoundWhole(g.BlockLines(b) - g.Visual(b), g.PhysicalRest(b));
    }
  }

  lemma LineInBlockIncreases(g: Shape, b: nat, r: nat)
    requires g.Valid() && b < g.Blocks() && g.Start(b) <= r < g.End(b)
    ensures g.LineInBlock(b, r) < g.LineInBlock(b, r + 1)
  {
    if r - g.Start(b) >= |g.measured[b]| {
      EstimatedLine(g, b, r);
      EstimatedLine(g, b, r + 1);
      RestIsPositive(g, b);
      var m := g.Start(b) + |g.measured[b]|;
      PreStrict(g.heights, r, r + 1);
      RoundStep(Pre(g.heights, r) - Pre(g.heights, m), Pre(g.heights, r + 1) - Pre(g.heights, m),
                g.BlockLines(b) - g.Visual(b), g.PhysicalRest(b));
    }
  }

  /** The first line of a record, by the block it is in; a block's end is the next one's
      start. */
  lemma FirstLineByBlock(g: Shape, b: nat, r: nat)
    requires g.Valid() && b < g.Blocks() && g.Start(b) <= r <= g.End(b)
    ensures g.FirstLine(r) == g.Prefix(b) + g.LineInBlock(b, r)
  {
    LineAtBlockEnd(g, b);
    if r == g.End(b) {
      if r < |g.heights| { LineAtBlockEnd(g, b + 1); }
    }
  }

  lemma FirstLineStep(g: Shape, r: nat)
    requires g.Valid() && r < |g.heights|
    ensures g.FirstLine(r) < g.FirstLine(r + 1)
  {
    var b := r / BLOCK;
    FirstLineByBlock(g, b, r);
    FirstLineByBlock(g, b, r + 1);
    LineInBlockIncreases(g, b, r);
  }

  /** Later records start strictly later, across blocks and across the boundary between
      measured and estimated; the last line bound is the total. */
  lemma {:induction false} FirstLineStrict(g: Shape, r: nat, r': nat)
    requires g.Valid() && r < r' <= |g.heights|
    ensures g.FirstLine(r) < g.FirstLine(r')
    decreases r'
  {
    hide Shape.FirstLine, Shape.Valid;
    FirstLineStep(g, r' - 1);
    if r < r' - 1 { FirstLineStrict(g, r, r' - 1); }
  }

  // ---------------------------------------------------------------------------
  // Looking a line up again
  // ---------------------------------------------------------------------------

  lemma {:induction false} FindFromRight(s: seq<nat>, from: int, end: int, x: int, i: int)
    requires 0 <= from <= i < end <= |s| && forall k :: from <= k < end ==> s[k] >= 1
    requires Pre(s, i) - Pre(s, from) <= x && (x < Pre(s, i + 1) - Pre(s, from) || i == end - 1)
    ensures FindFrom(s, from, end, x) == i
    decreases end - from
  {
    if from < i {
      PreMonotone(s, from + 1, i);
      FindFromRight(s, from + 1, end, x - s[from], i);
    } else if i == end - 1 {
    }
  }

  lemma {:induction false} FindFromMonotone(s: seq<nat>, from: int, end: int, x: int, y: int)
    requires 0 <= from < end <= |s| && x <= y
    ensures FindFrom(s, from, end, x) <= FindFrom(s, from, end, y)
    decreases end - from
  {
    if from + 1 < end && x >= s[from] { FindFromMonotone(s, from + 1, end, x - s[from], y - s[from]); }
  }

  lemma BlockLinesPositive(g: Shape, b: nat)
    requires g.Valid() && b < g.Blocks()
    ensures g.BlockLines(b) > 0
  {
    LineAtBlockEnd(g, b);
    FirstLineByBlock(g, b, g.Start(b));
    FirstLineByBlock(g, b, g.End(b));
    FirstLineStrict(g, g.Start(b), g.End(b));
  }

  lemma {:induction false} PrefixStrict(g: Shape, a: nat, b: nat)
    requires g.Valid() && a < b <= g.Blocks()
    ensures g.Prefix(a) < g.Prefix(b)
    decreases b
  {
    hide Shape.BlockLines, Shape.Valid;
    BlockLinesPositive(g, b - 1);
    if a < b - 1 { PrefixStrict(g, a, b - 1); }
  }

  lemma {:induction false} BlockAtRight(g: Shape, line: int, b: nat, k: nat)
    requires g.Valid() && k <= b < g.Blocks() && g.Prefix(k) <= line && (k < b ==> line < g.Prefix(k + 1))
    ensures g.BlockAt(line, b) == k
    decreases b
  {
    hide Shape.BlockLines, Shape.Valid;
    if k < b {
      if k + 1 < b { PrefixStrict(g, k + 1, b); }
      BlockAtRight(g, line, b - 1, k);
    }
  }

  /** The search finds the block whose lines hold the line. */
  lemma {:induction false} BlockAtMeaning(g: Shape, line: int, b: nat)
    requires g.Valid() && b < g.Blocks() && line >= 0
    ensures var k := g.BlockAt(line, b);
            g.Prefix(k) <= line && (k < b ==> line < g.Prefix(k + 1))
    decreases b
  {
    hide Shape.BlockLines, Shape.Valid;
    if b > 0 && g.Prefix(b) > line { BlockAtMeaning(g, line, b - 1); }
  }

  lemma RecordInBlockBounds(g: Shape, b: nat, local: int)
    requires g.Valid() && b < g.Blocks()
    ensures g.Start(b) <= g.RecordInBlock(b, local) < g.End(b)
  {
    if local < g.Visual(b) && |g.measured[b]| == 0 { assert g.Start(b) + 0 < g.End(b); }
  }

  /** Within a block: a measured record is found again exactly, an estimated one to within
      one record. */
  lemma RoundTripInBlock(g: Shape, b: nat, r: nat)
    requires g.Valid() && b < g.Blocks() && g.Start(b) <= r < g.End(b)
    ensures var got := g.RecordInBlock(b, g.LineInBlock(b, r));
            if r - g.Start(b) <= |g.measured[b]| then got == r else r - 1 <= got <= r
  {
    var have := |g.measured[b]|;
    if r - g.Start(b) < have {
      var i := r - g.Start(b);
      PreStrict(g.measured[b], i, have);
      FindFromRight(g.measured[b], 0, have, Pre(g.measured[b], i), i);
    } else {
      RoundTripEstimated(g, b, r);
    }
  }

  lemma RoundTripEstimated(g: Shape, b: nat, r: nat)
    requires g.Valid() && b < g.Blocks() && g.Start(b) + |g.measured[b]| <= r < g.End(b)
    ensures var got := g.RecordInBlock(b, g.LineInBlock(b, r));
            if r == g.Start(b) + |g.measured[b]| then got == r else r - 1 <= got <= r
  {
    hide FindFrom, Pre, Round, Shape.RecordInBlock, Shape.LineInBlock, Shape.BlockLines, Shape.PhysicalRest;
    var m := g.Start(b) + |g.measured[b]|;
    var er := g.BlockLines(b) - g.Visual(b);
    var pr := g.PhysicalRest(b);
    var x := Pre(g.heights, r) - Pre(g.heights, m);
    EstimatedLine(g, b, r);
    RestIsPositive(g, b);
    RoundTripOffset(x, er, pr);
    RoundNonNegative(x, er, pr);
    EstimatedLookup(g, b, Round(x * er, pr));
    FindsOffset(g, m, g.End(b), r, Round(x * er, pr) * pr / er);
  }

  /** Behind the measured prefix the lookup scales the line back to a physical offset. */
  lemma EstimatedLookup(g: Shape, b: nat, rest: int)
    requires g.Valid() && b < g.Blocks() && !g.Whole(b) && rest >= 0
    ensures g.PhysicalRest(b) > 0 && g.BlockLines(b) - g.Visual(b) > 0
    ensures g.RecordInBlock(b, g.Visual(b) + rest)
            == FindFrom(g.heights, g.Start(b) + |g.measured[b]|, g.End(b), rest * g.PhysicalRest(b) / (g.BlockLines(b) - g.Visual(b)))
  {
    RestIsPositive(g, b);
  }

  /** The offset of a record, or one line short of it, is found in it or in the one before. */
  lemma FindsOffset(g: Shape, m: nat, end: nat, r: nat, target: int)
    requires g.Valid() && m <= r < end <= |g.heights|
    requires var x := Pre(g.heights, r) - Pre(g.heights, m);
             x - 1 <= target <= x && (x == 0 ==> target == 0)
    ensures var got := FindFrom(g.heights, m, end, target);
            if r == m then got == r else r - 1 <= got <= r
  {
    var x := Pre(g.heights, r) - Pre(g.heights, m);
    PreStrict(g.heights, m, r);
    if target == x {
      FindFromRight(g.heights, m, end, target, r);
    } else {
      FindFromRight(g.heights, m, end, target, r - 1);
    }
  }

  lemma RoundNonNegative(x: int, y: int, b: int)
    requires x >= 0 && y >= 0 && b > 0
    ensures Round(x * y, b) >= 0
  {
    MulMonotone(x, 0, y);
    assert x * 0 == 0;
    assert 2 * (x * y) + b >= 0;
  }

  lemma RoundTripAtTop(g: Shape)
    requires g.Valid() && |g.heights| > 0
    ensures g.RecordAt(g.FirstLine(0)) == 0
  {
  }

  /** Looking up a record's first line finds the record, or, behind the measured prefix of
      its block, possibly the one in front of it. */
  lemma RoundTrip(g: Shape, r: nat)
    requires g.Valid() && r < |g.heights|
    ensures var b := r / BLOCK;
            var got := g.RecordAt(g.FirstLine(r));
            if r - g.Start(b) <= |g.measured[b]| then got == r else r - 1 <= got <= r
  {
    hide Shape.BlockLines, Shape.LineInBlock, Shape.RecordInBlock;
    var b := r / BLOCK;
    var line := g.FirstLine(r);
    if r == 0 {
      RoundTripAtTop(g);
    } else {
      FirstLineStrict(g, 0, r);
      FirstLineStrict(g, r, |g.heights|);
      FirstLineByBlock(g, b, r);
      FirstLineByBlock(g, b, g.Start(b));
      FirstLineByBlock(g, b, g.End(b));
      LineAtBlockEnd(g, b);
      FirstLineStrict(g, r, g.End(b));
      if g.Start(b) < r { FirstLineStrict(g, g.Start(b), r); }
      BlockAtRight(g, line, g.Blocks() - 1, b);
      RoundTripInBlock(g, b, r);
    }
  }

  lemma RecordInBlockMonotone(g: Shape, b: nat, x: int, y: int)
    requires g.Valid() && b < g.Blocks() && 0 <= x <= y
    ensures g.RecordInBlock(b, x) <= g.RecordInBlock(b, y)
  {
    var m := g.Start(b) + |g.measured[b]|;
    if y < g.Visual(b) {
      if |g.measured[b]| > 0 { FindFromMonotone(g.measured[b], 0, |g.measured[b]|, x, y); }
    } else if g.Whole(b) {
      RecordInBlockBounds(g, b, x);
    } else {
      var yr := y - g.Visual(b);
      EstimatedLookup(g, b, yr);
      if x >= g.Visual(b) {
        var xr := x - g.Visual(b);
        EstimatedLookup(g, b, xr);
        ScaledBackMonotone(xr, yr, g.PhysicalRest(b), g.BlockLines(b) - g.Visual(b));
        FindFromMonotone(g.heights, m, g.End(b), xr * g.PhysicalRest(b) / (g.BlockLines(b) - g.Visual(b)),
                         yr * g.PhysicalRest(b) / (g.BlockLines(b) - g.Visual(b)));
      }
    }
  }

  lemma ScaledBackMonotone(x: int, y: int, pr: int, er: int)
    requires x <= y && pr > 0 && er > 0
    ensures x * pr / er <= y * pr / er
  {
    MulMonotone(pr, x, y);
    DivMonotone(x * pr, y * pr, er);
  }

  /** Where a line strictly inside the view is looked up. */
  lemma RecordAtInside(g: Shape, line: int) returns (b: nat)
    requires g.Valid() && 0 < line < g.Total()
    ensures b < g.Blocks() && g.Prefix(b) <= line < g.Prefix(b + 1)
    ensures g.RecordAt(line) == g.RecordInBlock(b, line - g.Prefix(b))
    ensures g.Start(b) <= g.RecordAt(line) < g.End(b)
  {
    hide Shape.BlockLines, Shape.RecordInBlock;
    b := g.BlockAt(line, g.Blocks() - 1);
    BlockAtMeaning(g, line, g.Blocks() - 1);
    RecordInBlockBounds(g, b, line - g.Prefix(b));
  }

  /** Scrolling down never moves to an earlier record. */
  lemma RecordAtMonotone(g: Shape, x: int, y: int)
    requires g.Valid() && x <= y
    ensures g.RecordAt(x) <= g.RecordAt(y)
  {
    hide Shape.BlockLines, Shape.RecordInBlock, Shape.Prefix, Shape.BlockAt;
    if |g.heights| > 0 {
      if 0 < x && y < g.Total() {
        var a := RecordAtInside(g, x);
        var b := RecordAtInside(g, y);
        if a == b {
          RecordInBlockMonotone(g, a, x - g.Prefix(a), y - g.Prefix(a));
        } else {
          assert a < b by { if b < a && b + 1 < a { PrefixStrict(g, b + 1, a); } }
        }
      } else if 0 < x < g.Total() {
        var a := RecordAtInside(g, x);
      } else if 0 < y < g.Total() {
        var b := RecordAtInside(g, y);
      }
    }
  }

  // ---------------------------------------------------------------------------
  // Refining toward the truth
  // ---------------------------------------------------------------------------

  /** Every block measured, in the wrapped heights `visual`. */
  ghost predicate AllMeasured(g: Shape, visual: seq<nat>) {
    g.Valid() && |visual| == |g.heights|
    && forall b :: 0 <= b < g.Blocks() ==> g.measured[b] == visual[g.Start(b)..g.End(b)]
  }

  lemma {:induction false} PreOfSlice(s: seq<nat>, a: nat, k: nat, b: nat)
    requires a + k <= b <= |s|
    ensures Pre(s[a..b], k) == Pre(s, a + k) - Pre(s, a)
    decreases k
  {
    if k > 0 { PreOfSlice(s, a, k - 1, b); }
  }

  lemma {:induction false} MeasuredPrefix(g: Shape, visual: seq<nat>, b: nat)
    requires AllMeasured(g, visual) && b <= g.Blocks()
    ensures g.Prefix(b) == Pre(visual, if g.Start(b) < |visual| then g.Start(b) else |visual|)
    decreases b
  {
    if b > 0 {
      MeasuredPrefix(g, visual, b - 1);
      PreOfSlice(visual, g.Start(b - 1), g.End(b - 1) - g.Start(b - 1), g.End(b - 1));
      assert g.Whole(b - 1);
    }
  }

  /** Once every block is measured the map is the exact prefix sum of the heights. */
  lemma AllMeasuredIsExact(g: Shape, visual: seq<nat>, r: nat)
    requires AllMeasured(g, visual) && r <= |visual|
    ensures g.FirstLine(r) == Pre(visual, r) && g.Total() == Pre(visual, |visual|)
  {
    hide Shape.BlockLines, Shape.Prefix;
    MeasuredPrefix(g, visual, g.Blocks());
    if 0 < r < |visual| {
      var b := r / BLOCK;
      MeasuredPrefix(g, visual, b);
      MeasuredLine(g, visual, b, r);
    }
  }

  lemma MeasuredLine(g: Shape, visual: seq<nat>, b: nat, r: nat)
    requires AllMeasured(g, visual) && b < g.Blocks() && g.Start(b) <= r < g.End(b)
    ensures g.LineInBlock(b, r) == Pre(visual, r) - Pre(visual, g.Start(b))
  {
    hide Shape.BlockLines;
    PreOfSlice(visual, g.Start(b), r - g.Start(b), g.End(b));
  }

  /** The total never falls below the measured lines plus the physical lines still to come. */
  lemma {:induction false} PrefixAtLeast(g: Shape, b: nat)
    requires g.Valid() && b <= g.Blocks()
    ensures g.Prefix(b) >= g.VisualTotal(b) + Pre(g.heights, if g.Start(b) < |g.heights| then g.Start(b) else |g.heights|) - g.PhysicalTotal(b)
    decreases b
  {
    if b > 0 {
      PrefixAtLeast(g, b - 1);
      if !g.Whole(b - 1) { RestIsPositive(g, b - 1); }
    }
  }

  /** With no expansion measured the rest is estimated at its physical lines. */
  lemma {:induction false} PrefixUnscaled(g: Shape, b: nat)
    requires g.Valid() && b <= g.Blocks() && g.VisualTotal(g.Blocks()) < g.PhysicalTotal(g.Blocks())
    ensures g.Prefix(b) == g.VisualTotal(b) + Pre(g.heights, if g.Start(b) < |g.heights| then g.Start(b) else |g.heights|) - g.PhysicalTotal(b)
    decreases b
  {
    if b > 0 {
      PrefixUnscaled(g, b - 1);
      if !g.Whole(b - 1) { RestIsPositive(g, b - 1); }
    }
  }

  /** The whole view is at least as tall as the physical lines exactly when what is measured of
      it is. */
  lemma TotalAgainstPhysical(g: Shape)
    requires g.Valid()
    ensures g.Total() >= Pre(g.heights, |g.heights|) <==> g.VisualTotal(g.Blocks()) >= g.PhysicalTotal(g.Blocks())
  {
    PrefixAtLeast(g, g.Blocks());
    if g.VisualTotal(g.Blocks()) < g.PhysicalTotal(g.Blocks()) { PrefixUnscaled(g, g.Blocks()); }
  }

  // ---------------------------------------------------------------------------
  // What an estimate is
  // ---------------------------------------------------------------------------

  function Sum(s: seq<nat>): nat { Pre(s, |s|) }

  /** The measured heights of the first `k` blocks in a row, and the physical heights of those
      same records. */
  ghost function MeasuredHeights(g: Shape, k: nat): seq<nat>
    requires g.Valid() && k <= g.Blocks()
  {
    if k == 0 then [] else MeasuredHeights(g, k - 1) + g.measured[k - 1]
  }

  ghost function TheirPhysical(g: Shape, k: nat): seq<nat>
    requires g.Valid() && k <= g.Blocks()
  {
    if k == 0 then []
    else TheirPhysical(g, k - 1) + BlockPhysical(g, k - 1)
  }

  lemma {:induction false} SumAppends(a: seq<nat>, b: seq<nat>)
    ensures Sum(a + b) == Sum(a) + Sum(b)
    decreases |b|
  {
    if b == [] {
      assert a + b == a;
    } else {
      var front, last := b[..|b| - 1], b[|b| - 1];
      SumAppends(a, front);
      assert (a + b)[..|a + b| - 1] == a + front;
      PreAgrees(a + b, a + front, |a + front|);
      PreAgrees(b, front, |front|);
    }
  }

  lemma {:induction false} TotalsMean(g: Shape, k: nat)
    requires g.Valid() && k <= g.Blocks()
    ensures g.VisualTotal(k) == Sum(MeasuredHeights(g, k)) && g.PhysicalTotal(k) == Sum(TheirPhysical(g, k))
    decreases k
  {
    hide Pre, Sum;
    if k > 0 {
      TotalsMean(g, k - 1);
      SumAppends(MeasuredHeights(g, k - 1), g.measured[k - 1]);
      BlockTotals(g, k - 1);
      SumAppends(TheirPhysical(g, k - 1), BlockPhysical(g, k - 1));
    } else {
      SumOfNone();
    }
  }

  lemma SumOfNone()
    ensures Sum([]) == 0
  {
  }

  /** The physical heights of a block's measured records. */
  ghost function BlockPhysical(g: Shape, b: nat): seq<nat>
    requires g.Valid() && b < g.Blocks()
  {
    assert g.Start(b) + |g.measured[b]| <= g.End(b);
    g.heights[g.Start(b)..g.Start(b) + |g.measured[b]|]
  }

  lemma BlockTotals(g: Shape, b: nat)
    requires g.Valid() && b < g.Blocks()
    ensures g.Visual(b) == Sum(g.measured[b]) && g.PhysicalMeasured(b) == Sum(BlockPhysical(g, b))
  {
    assert g.Start(b) + |g.measured[b]| <= g.End(b);
    PreOfSlice(g.heights, g.Start(b), |g.measured[b]|, g.Start(b) + |g.measured[b]|);
  }

  /** Half a line off at most: `lines` is `rest * v / p` rounded. */
  ghost predicate Nearly(lines: int, rest: int, v: int, p: int) {
    -p <= 2 * (lines * p - rest * v) <= p
  }

  lemma RoundIsNear(rest: int, v: int, p: int)
    requires p > 0
    ensures Nearly(Round(rest * v, p), rest, v, p)
  {
    RoundNear(rest * v, p);
  }

  /** Scaled by a factor of at least one, rounded or not, nothing gets shorter. */
  lemma RoundAtLeast(rest: nat, v: int, p: int)
    requires 0 < p <= v
    ensures Round(rest * v, p) >= rest
  {
    MulMonotone(rest, p, v);
    assert rest * p == p * rest;
    DivMonotone(2 * (p * rest) + p, 2 * (rest * v) + p, 2 * p);
    RoundWhole(rest, p);
  }

  lemma ScaledIsNear(g: Shape, rest: nat)
    requires g.Valid()
    ensures var v, p := g.VisualTotal(g.Blocks()), g.PhysicalTotal(g.Blocks());
            if 0 < p <= v then Nearly(g.Scaled(rest), rest, v, p) else g.Scaled(rest) == rest
  {
    var v, p := g.VisualTotal(g.Blocks()), g.PhysicalTotal(g.Blocks());
    if 0 < p <= v {
      RoundIsNear(rest, v, p);
      RoundAtLeast(rest, v, p);
      hide Round, Nearly;
    }
  }

  /** The wrapped lines the map puts between the measured prefix of a block and a record behind
      it, and the physical lines there. */
  ghost function LinesBehind(g: Shape, b: nat, r: nat): int
    requires g.Valid() && b < g.Blocks()
  {
    g.FirstLine(r) - g.FirstLine(g.Start(b) + |g.measured[b]|)
  }

  ghost function PhysicalBehind(g: Shape, b: nat, r: nat): int
    requires g.Valid() && b < g.Blocks() && g.Start(b) + |g.measured[b]| <= r <= |g.heights|
  {
    Pre(g.heights, r) - Pre(g.heights, g.Start(b) + |g.measured[b]|)
  }

  lemma BehindInBlock(g: Shape, b: nat, r: nat)
    requires g.Valid() && b < g.Blocks() && !g.Whole(b) && g.Start(b) + |g.measured[b]| <= r <= g.End(b)
    ensures LinesBehind(g, b, r) == g.LineInBlock(b, r) - g.Visual(b)
  {
    hide Shape.FirstLine, Shape.BlockLines, Shape.Prefix;
    FirstLineByBlock(g, b, g.Start(b) + |g.measured[b]|);
    FirstLineByBlock(g, b, r);
  }

  lemma WholeEstimate(g: Shape, b: nat)
    requires g.Valid() && b < g.Blocks() && !g.Whole(b)
    ensures g.Start(b) + |g.measured[b]| <= g.End(b) <= |g.heights|
    ensures PhysicalBehind(g, b, g.End(b)) == g.PhysicalRest(b) > 0 && LinesBehind(g, b, g.End(b)) == g.BlockLines(b) - g.Visual(b) == g.Scaled(g.PhysicalRest(b))
  {
    assert g.Start(b) + |g.measured[b]| <= g.End(b);
    RestIsPositive(g, b);
    BehindInBlock(g, b, g.End(b));
    LineAtBlockEnd(g, b);
    hide Shape.LineInBlock, LinesBehind, Shape.Scaled, Pre;
  }

  /** What a block that is not measured whole adds behind its measured prefix: its physical lines
      there, scaled by what the measured records of the whole view came to, to the nearest line;
      unscaled while nothing is measured or what is came out below its physical lines. */
  lemma EstimateMeans(g: Shape, b: nat)
    requires g.Valid() && b < g.Blocks() && !g.Whole(b)
    ensures g.Start(b) + |g.measured[b]| <= g.End(b) <= |g.heights|
    ensures var v, p := Sum(MeasuredHeights(g, g.Blocks())), Sum(TheirPhysical(g, g.Blocks()));
            if 0 < p <= v then Nearly(LinesBehind(g, b, g.End(b)), PhysicalBehind(g, b, g.End(b)), v, p)
            else LinesBehind(g, b, g.End(b)) == PhysicalBehind(g, b, g.End(b))
  {
    hide Shape.BlockLines, Shape.Scaled, Nearly, LinesBehind, PhysicalBehind, Pre, Sum, Shape.LineInBlock, Shape.FirstLine, Shape.VisualTotal,
         Shape.PhysicalTotal, MeasuredHeights, TheirPhysical, Shape.PhysicalRest, Shape.Visual;
    WholeEstimate(g, b);
    hide Shape.Valid;
    TotalsMean(g, g.Blocks());
    ScaledIsNear(g, g.PhysicalRest(b));
  }

  /** And where a record in there starts: as far into those lines as its physical lines are into
      the block's, to the nearest line. */
  lemma EstimateIsEven(g: Shape, b: nat, r: nat)
    requires g.Valid() && b < g.Blocks() && !g.Whole(b) && g.Start(b) + |g.measured[b]| <= r <= g.End(b)
    ensures Nearly(LinesBehind(g, b, r), PhysicalBehind(g, b, r), LinesBehind(g, b, g.End(b)), PhysicalBehind(g, b, g.End(b)))
  {
    hide Shape.BlockLines, Shape.Scaled, Nearly, LinesBehind, PhysicalBehind, Shape.LineInBlock, Pre, Round, Shape.PhysicalRest, Shape.Visual, Shape.FirstLine;
    WholeEstimate(g, b);
    BehindInBlock(g, b, r);
    BehindScaled(g, b, r);
    RoundIsNear(PhysicalBehind(g, b, r), g.BlockLines(b) - g.Visual(b), g.PhysicalRest(b));
  }

  lemma BehindScaled(g: Shape, b: nat, r: nat)
    requires g.Valid() && b < g.Blocks() && !g.Whole(b) && g.Start(b) + |g.measured[b]| <= r <= g.End(b) && g.PhysicalRest(b) > 0
    ensures g.LineInBlock(b, r) - g.Visual(b) == Round(PhysicalBehind(g, b, r) * (g.BlockLines(b) - g.Visual(b)), g.PhysicalRest(b))
  {
    EstimatedLine(g, b, r);
  }
}
