/** The coarse map behind the scrollbar's marks: rows in buckets, filled by a bounded scan,
    merged pairwise when there would be too many. A mask of class bits is the set of its
    classes. */
module DensityMaps {
  type Marks = set<nat>

  const CLASS_COUNT: nat := 31
  const MAX_BUCKETS: nat := 2048

  function Min(a: int, b: int): int { if a < b then a else b }

  function Max(a: int, b: int): int { if a > b then a else b }

  /** The loudest class of a mask. */
  method LowestClass(marks: Marks) returns (cls: int)
    requires forall c :: c in marks ==> c < CLASS_COUNT
    ensures marks == {} <==> cls == -1
    ensures marks != {} ==> cls in marks && forall c :: c in marks ==> cls <= c
  {
    if marks == {} { return -1; }
    for c := 0 to CLASS_COUNT
      invariant forall k :: k in marks ==> c <= k
    {
      if c in marks { return c; }
    }
    return -1;
  }

  /** What the rows [lo, hi) give together. */
  function OrRange(t: seq<Marks>, lo: nat, hi: int): Marks
    requires hi <= |t|
    decreases hi - lo
  {
    if lo >= hi then {} else OrRange(t, lo, hi - 1) + t[hi - 1]
  }

  lemma {:induction false} OrSplit(t: seq<Marks>, a: nat, m: nat, b: nat)
    requires a <= m <= b <= |t|
    ensures OrRange(t, a, b) == OrRange(t, a, m) + OrRange(t, m, b)
    decreases b
  {
    if m < b { OrSplit(t, a, m, b - 1); }
  }

  /** Two neighbouring ranges, both cut off at `n`. */
  lemma OrHalves(t: seq<Marks>, a: nat, m: nat, b: nat, n: nat)
    requires a <= m <= b && n <= |t|
    ensures OrRange(t, a, Min(b, n)) == OrRange(t, a, Min(m, n)) + OrRange(t, m, Min(b, n))
  {
    if m <= Min(b, n) { OrSplit(t, a, m, Min(b, n)); }
  }

  lemma {:induction false} OrAgrees(t: seq<Marks>, u: seq<Marks>, lo: nat, hi: int)
    requires hi <= |t| && hi <= |u| && forall i :: lo <= i < hi ==> t[i] == u[i]
    ensures OrRange(t, lo, hi) == OrRange(u, lo, hi)
    decreases hi - lo
  {
    if lo < hi { OrAgrees(t, u, lo, hi - 1); }
  }

  lemma {:induction false} OrMeaning(t: seq<Marks>, lo: nat, hi: int, c: nat)
    requires hi <= |t|
    ensures c in OrRange(t, lo, hi) <==> exists row :: lo <= row < hi && c in t[row]
    decreases hi - lo
  {
    if lo < hi { OrMeaning(t, lo, hi - 1, c); }
  }

  lemma OrGrows(t: seq<Marks>, lo: nat, a: int, b: int)
    requires a <= b <= |t|
    ensures OrRange(t, lo, a) <= OrRange(t, lo, b)
  {
    if lo <= a { OrSplit(t, lo, a, b); }
  }

  // ---------------------------------------------------------------------------
  // Lanes
  // ---------------------------------------------------------------------------

  datatype LaneState = LaneState(bucket: seq<Marks>, scanned: nat)

  datatype Lane = Rules | Find

  /** How many buckets of `rpb` rows hold `rows` rows. */
  function Ceil(rows: nat, rpb: nat): nat
    requires rpb > 0
  {
    (rows + rpb - 1) / rpb
  }

  function FirstRow(b: nat, rpb: nat): nat { b * rpb }

  function PastRow(b: nat, rpb: nat): nat { FirstRow(b, rpb) + rpb }

  /** A bucket holds what its scanned rows give, and nothing its rows do not give. */
  ghost predicate BucketOk(m: Marks, t: seq<Marks>, b: nat, rpb: nat, scanned: nat)
    requires scanned <= |t|
  {
    && OrRange(t, FirstRow(b, rpb), Min(PastRow(b, rpb), scanned)) <= m
    && m <= OrRange(t, FirstRow(b, rpb), Min(PastRow(b, rpb), |t|))
  }

  /** A lane over the rows whose answers are `t`. */
  ghost predicate LaneOk(lane: LaneState, t: seq<Marks>, rpb: nat)
    requires rpb > 0
  {
    && |lane.bucket| == Ceil(|t|, rpb)
    && lane.scanned <= |t|
    && forall b :: 0 <= b < |lane.bucket| ==> BucketOk(lane.bucket[b], t, b, rpb, lane.scanned)
  }

  lemma CeilBounds(rows: nat, rpb: nat)
    requires rpb > 0
    ensures rows <= FirstRow(Ceil(rows, rpb), rpb) < rows + rpb
    ensures rows > 0 ==> Ceil(rows, rpb) > 0 && FirstRow(Ceil(rows, rpb) - 1, rpb) < rows <= PastRow(Ceil(rows, rpb) - 1, rpb)
  {
    var c := Ceil(rows, rpb);
    assert rows + rpb - 1 == rpb * c + (rows + rpb - 1) % rpb;
    assert c * rpb == rpb * c;
    if rows > 0 {
      assert c == 0 ==> rpb * c == 0;
      assert (c - 1) * rpb == c * rpb - rpb;
    }
  }

  lemma MulLess(a: nat, b: nat, rpb: nat)
    requires a < b
    ensures PastRow(a, rpb) <= FirstRow(b, rpb)
  {
    assert (a + 1) * rpb <= b * rpb;
    assert (a + 1) * rpb == a * rpb + rpb;
  }

  /** The bucket of a row is the one whose rows include it. */
  lemma BucketOfRow(row: nat, rpb: nat, b: nat)
    requires rpb > 0
    ensures row / rpb == b <==> FirstRow(b, rpb) <= row < PastRow(b, rpb)
  {
    var q := row / rpb;
    assert row == rpb * q + row % rpb && rpb * q == q * rpb;
    if b < q { MulLess(b, q, rpb); }
    if q < b { MulLess(q, b, rpb); }
  }

  /** One step coarser, a row's bucket is its old one halved. */
  lemma HalvedBucket(row: nat, rpb: nat)
    requires rpb > 0
    ensures row / (2 * rpb) == (row / rpb) / 2
  {
    var b := row / rpb;
    BucketOfRow(row, rpb, b);
    BucketOfRow(row, 2 * rpb, b / 2);
    assert (b / 2) * (2 * rpb) == (2 * (b / 2)) * rpb;
    if b % 2 == 0 { assert 2 * (b / 2) == b; } else { assert 2 * (b / 2) == b - 1; assert (b - 1) * rpb == b * rpb - rpb; }
  }

  lemma HalvedCount(rows: nat, rpb: nat)
    requires rpb > 0
    ensures (Ceil(rows, rpb) + 1) / 2 == Ceil(rows, 2 * rpb)
  {
    hide Ceil;
    if rows > 0 {
      LastBucket(rows, rpb);
      LastBucket(rows, 2 * rpb);
      HalvedBucket(rows - 1, rpb);
    } else {
      NoBuckets(rpb);
      NoBuckets(2 * rpb);
    }
  }

  lemma NoBuckets(rpb: nat)
    requires rpb > 0
    ensures Ceil(0, rpb) == 0
  {
    CeilBounds(0, rpb);
    if Ceil(0, rpb) > 0 { MulLess(0, Ceil(0, rpb), rpb); }
  }

  lemma LastBucket(rows: nat, rpb: nat)
    requires rpb > 0 && rows > 0
    ensures Ceil(rows, rpb) == (rows - 1) / rpb + 1
  {
    hide Ceil;
    CeilBounds(rows, rpb);
    BucketOfRow(rows - 1, rpb, Ceil(rows, rpb) - 1);
  }

  /** The buckets after one pairwise merge. */
  function Merged(bucket: seq<Marks>): seq<Marks> {
    seq((|bucket| + 1) / 2, i requires 0 <= i < (|bucket| + 1) / 2 =>
      bucket[2 * i] + (if 2 * i + 1 < |bucket| then bucket[2 * i + 1] else {}))
  }

  lemma MergedBucket(lane: LaneState, t: seq<Marks>, rpb: nat, i: nat)
    requires rpb > 0 && LaneOk(lane, t, rpb) && i < |Merged(lane.bucket)|
    ensures BucketOk(Merged(lane.bucket)[i], t, i, 2 * rpb, lane.scanned)
  {
    hide OrRange;
    var a := FirstRow(2 * i, rpb);
    assert FirstRow(i, 2 * rpb) == a by { assert i * (2 * rpb) == (2 * i) * rpb; }
    assert FirstRow(2 * i + 1, rpb) == a + rpb by { assert (2 * i + 1) * rpb == (2 * i) * rpb + rpb; }
    OrHalves(t, a, a + rpb, a + 2 * rpb, lane.scanned);
    OrHalves(t, a, a + rpb, a + 2 * rpb, |t|);
    assert BucketOk(lane.bucket[2 * i], t, 2 * i, rpb, lane.scanned);
    if 2 * i + 1 < |lane.bucket| {
      assert BucketOk(lane.bucket[2 * i + 1], t, 2 * i + 1, rpb, lane.scanned);
    } else {
      CeilBounds(|t|, rpb);
      OrEmpty(t, a + rpb, Min(a + 2 * rpb, lane.scanned));
      OrEmpty(t, a + rpb, Min(a + 2 * rpb, |t|));
    }
  }

  lemma OrEmpty(t: seq<Marks>, lo: nat, hi: int)
    requires hi <= |t| && hi <= lo
    ensures OrRange(t, lo, hi) == {}
  {
  }

  /** Merging pairwise loses nothing and invents nothing. */
  lemma MergeIsExact(lane: LaneState, t: seq<Marks>, rpb: nat)
    requires rpb > 0 && LaneOk(lane, t, rpb)
    ensures LaneOk(LaneState(Merged(lane.bucket), lane.scanned), t, 2 * rpb)
  {
    hide BucketOk;
    HalvedCount(|t|, rpb);
    forall i | 0 <= i < |Merged(lane.bucket)| ensures BucketOk(Merged(lane.bucket)[i], t, i, 2 * rpb, lane.scanned) {
      MergedBucket(lane, t, rpb, i);
    }
  }

  /** The first `want` buckets, filled up with empty ones. */
  function Fitted(bucket: seq<Marks>, want: nat): seq<Marks> {
    seq(want, b requires 0 <= b < want => if b < |bucket| then bucket[b] else {})
  }

  /** Growth keeps everything: the new rows are simply not scanned yet. */
  lemma GrowthKeeps(lane: LaneState, t: seq<Marks>, u: seq<Marks>, rpb: nat)
    requires rpb > 0 && LaneOk(lane, t, rpb) && |t| <= |u| && u[..|t|] == t
    ensures LaneOk(LaneState(Fitted(lane.bucket, Ceil(|u|, rpb)), lane.scanned), u, rpb)
  {
    hide OrRange;
    var got := Fitted(lane.bucket, Ceil(|u|, rpb));
    forall b | 0 <= b < |got| ensures BucketOk(got[b], u, b, rpb, lane.scanned) {
      var lo := FirstRow(b, rpb);
      if b < |lane.bucket| {
        assert BucketOk(lane.bucket[b], t, b, rpb, lane.scanned);
        PrefixAgrees(t, u);
        OrAgrees(t, u, lo, Min(PastRow(b, rpb), lane.scanned));
        OrAgrees(t, u, lo, Min(PastRow(b, rpb), |t|));
        OrGrows(u, lo, Min(PastRow(b, rpb), |t|), Min(PastRow(b, rpb), |u|));
        assert got[b] == lane.bucket[b];
      } else {
        CeilBounds(|t|, rpb);
        BucketsBehind(|t|, rpb, b);
        OrEmpty(u, lo, Min(PastRow(b, rpb), lane.scanned));
      }
    }
  }

  lemma PrefixAgrees(t: seq<Marks>, u: seq<Marks>)
    requires |t| <= |u| && u[..|t|] == t
    ensures forall i :: 0 <= i < |t| ==> t[i] == u[i]
  {
    forall i | 0 <= i < |t| ensures t[i] == u[i] { assert u[..|t|][i] == t[i]; }
  }

  lemma BucketsBehind(rows: nat, rpb: nat, b: nat)
    requires rpb > 0 && b >= Ceil(rows, rpb)
    ensures rows <= FirstRow(b, rpb)
  {
    CeilBounds(rows, rpb);
    if b > Ceil(rows, rpb) { MulLess(Ceil(rows, rpb), b, rpb); }
  }

  /** Buckets [from, past) emptied and the scan sent back to the first of their rows. */
  function Cleared(lane: LaneState, from: nat, past: nat, rpb: nat): LaneState {
    LaneState(seq(|lane.bucket|, b requires 0 <= b < |lane.bucket| => if from <= b < past then {} else lane.bucket[b]),
              Min(lane.scanned, FirstRow(from, rpb)))
  }

  /** A lane right for `t` is right for `u` once every bucket with a row that changed is
      emptied and offered again. */
  lemma InvalidationRepairs(lane: LaneState, t: seq<Marks>, u: seq<Marks>, rpb: nat, from: nat, past: nat)
    requires rpb > 0 && LaneOk(lane, t, rpb) && |u| == |t| && from < past <= |lane.bucket|
    requires forall i :: 0 <= i < |u| && (i < FirstRow(from, rpb) || FirstRow(past, rpb) <= i) ==> t[i] == u[i]
    ensures LaneOk(Cleared(lane, from, past, rpb), u, rpb)
  {
    hide OrRange, FirstRow;
    var after := Cleared(lane, from, past, rpb);
    forall b | 0 <= b < |after.bucket| ensures BucketOk(after.bucket[b], u, b, rpb, after.scanned) {
      var lo := FirstRow(b, rpb);
      assert BucketOk(lane.bucket[b], t, b, rpb, lane.scanned);
      if b < from {
        MulLess(b, from, rpb);
        OrAgrees(t, u, lo, Min(PastRow(b, rpb), lane.scanned));
        OrAgrees(t, u, lo, Min(PastRow(b, rpb), |t|));
      } else {
        FirstRowMonotone(from, b, rpb);
        OrEmpty(u, lo, Min(PastRow(b, rpb), after.scanned));
        if past <= b {
          FirstRowMonotone(past, b, rpb);
          OrAgrees(t, u, lo, Min(PastRow(b, rpb), |t|));
        }
      }
    }
  }

  lemma FirstRowMonotone(a: nat, b: nat, rpb: nat)
    requires a <= b
    ensures FirstRow(a, rpb) <= FirstRow(b, rpb)
  {
    if a < b { MulLess(a, b, rpb); }
  }

  /** Rows taken off the end: only the last bucket left may hold a mark of theirs. */
  lemma ShrinkRepairs(lane: LaneState, t: seq<Marks>, n: nat, rpb: nat)
    requires rpb > 0 && LaneOk(lane, t, rpb) && 0 < n < |t|
    ensures var count := Ceil(n, rpb);
            0 < count && n - rpb <= FirstRow(count - 1, rpb)
            && LaneOk(Cleared(LaneState(Fitted(lane.bucket, count), Min(lane.scanned, n)), count - 1, count, rpb), t[..n], rpb)
  {
    hide OrRange, FirstRow;
    var count := Ceil(n, rpb);
    CeilBounds(n, rpb);
    CeilMonotone(n, |t|, rpb);
    var u := t[..n];
    var after := Cleared(LaneState(Fitted(lane.bucket, count), Min(lane.scanned, n)), count - 1, count, rpb);
    forall b | 0 <= b < |after.bucket| ensures BucketOk(after.bucket[b], u, b, rpb, after.scanned) {
      var lo := FirstRow(b, rpb);
      if b < count - 1 {
        assert BucketOk(lane.bucket[b], t, b, rpb, lane.scanned);
        MulLess(b, count - 1, rpb);
        OrAgrees(t, u, lo, Min(PastRow(b, rpb), lane.scanned));
        OrAgrees(t, u, lo, PastRow(b, rpb));
      } else {
        OrEmpty(u, lo, Min(PastRow(b, rpb), after.scanned));
      }
    }
  }

  lemma CeilMonotone(n: nat, m: nat, rpb: nat)
    requires rpb > 0 && n <= m
    ensures Ceil(n, rpb) <= Ceil(m, rpb)
  {
    CeilBounds(n, rpb);
    CeilBounds(m, rpb);
    if Ceil(m, rpb) < Ceil(n, rpb) { BucketsBehind(m, rpb, Ceil(n, rpb) - 1); }
  }

  /** Offering the next row: its marks go into its own bucket. */
  lemma ScanStep(lane: LaneState, t: seq<Marks>, rpb: nat, b: nat)
    requires rpb > 0 && LaneOk(lane, t, rpb) && lane.scanned < |t| && b == lane.scanned / rpb
    ensures b < |lane.bucket|
    ensures LaneOk(LaneState(lane.bucket[b := lane.bucket[b] + t[lane.scanned]], lane.scanned + 1), t, rpb)
  {
    hide FirstRow;
    var row := lane.scanned;
    BucketOfRow(row, rpb, b);
    if Ceil(|t|, rpb) <= b { BucketsBehind(|t|, rpb, b); }
    var after := LaneState(lane.bucket[b := lane.bucket[b] + t[row]], row + 1);
    forall k | 0 <= k < |after.bucket| ensures BucketOk(after.bucket[k], t, k, rpb, row + 1) {
      assert BucketOk(lane.bucket[k], t, k, rpb, row);
      if k < b { MulLess(k, b, rpb); }
      if b < k { MulLess(b, k, rpb); }
      if k == b {
        OrSplit(t, FirstRow(b, rpb), row, Min(PastRow(b, rpb), |t|));
        OrSplit(t, row, row + 1, Min(PastRow(b, rpb), |t|));
      }
    }
  }

  /** Once a lane is complete, a bucket holds a class exactly when one of its rows gives it. */
  lemma CompleteIsExact(lane: LaneState, t: seq<Marks>, rpb: nat, b: nat, c: nat)
    requires rpb > 0 && LaneOk(lane, t, rpb) && lane.scanned >= |t| && b < |lane.bucket|
    ensures c in lane.bucket[b] <==> exists row :: 0 <= row < |t| && row / rpb == b && c in t[row]
  {
    var hi := Min(PastRow(b, rpb), |t|);
    assert BucketOk(lane.bucket[b], t, b, rpb, lane.scanned);
    OrMeaning(t, FirstRow(b, rpb), hi, c);
    if c in lane.bucket[b] {
      var row :| FirstRow(b, rpb) <= row < hi && c in t[row];
      BucketOfRow(row, rpb, b);
      assert row / rpb == b && c in t[row];
    }
    if row :| 0 <= row < |t| && row / rpb == b && c in t[row] {
      BucketOfRow(row, rpb, b);
      assert FirstRow(b, rpb) <= row < hi;
    }
  }

  /** At every moment, complete or not: a scanned row's classes are in its bucket, and no
      bucket holds a class that none of its rows gives. */
  lemma ScannedIsShown(lane: LaneState, t: seq<Marks>, rpb: nat, b: nat, c: nat)
    requires rpb > 0 && LaneOk(lane, t, rpb) && b < |lane.bucket|
    ensures forall row :: 0 <= row < lane.scanned && row / rpb == b && c in t[row] ==> c in lane.bucket[b]
    ensures c in lane.bucket[b] ==> exists row :: 0 <= row < |t| && row / rpb == b && c in t[row]
  {
    assert BucketOk(lane.bucket[b], t, b, rpb, lane.scanned);
    var hi := Min(PastRow(b, rpb), |t|);
    OrMeaning(t, FirstRow(b, rpb), hi, c);
    if c in lane.bucket[b] {
      var row :| FirstRow(b, rpb) <= row < hi && c in t[row];
      BucketOfRow(row, rpb, b);
      assert row / rpb == b && c in t[row];
    }
    forall row | 0 <= row < lane.scanned && row / rpb == b && c in t[row] ensures c in lane.bucket[b] {
      BucketOfRow(row, rpb, b);
      OrMeaning(t, FirstRow(b, rpb), Min(PastRow(b, rpb), lane.scanned), c);
    }
  }

  // ---------------------------------------------------------------------------
  // The map
  // ---------------------------------------------------------------------------

  class DensityMap {
    var rows: nat
    var rowsPerBucket: nat
    var rules: LaneState
    var find: LaneState
    ghost var ruleAnswers: seq<Marks> // what each row's probe answers, per lane
    ghost var findAnswers: seq<Marks>

    constructor ()
      ensures Valid() && rows == 0
    {
      rows, rowsPerBucket := 0, 1;
      rules, find := LaneState([], 0), LaneState([], 0);
      ruleAnswers, findAnswers := [], [];
    }

    ghost predicate Valid()
      reads this
    {
      && rowsPerBucket > 0 && rows == |ruleAnswers| == |findAnswers|
      && Ceil(rows, rowsPerBucket) <= MAX_BUCKETS
      && LaneOk(rules, ruleAnswers, rowsPerBucket) && LaneOk(find, findAnswers, rowsPerBucket)
    }

    function Of(lane: Lane): LaneState
      reads this
    {
      if lane == Rules then rules else find
    }

    ghost function Answers(lane: Lane): seq<Marks>
      reads this
    {
      if lane == Rules then ruleAnswers else findAnswers
    }

    function BucketCount(): nat
      reads this
    {
      |rules.bucket|
    }

    predicate Complete(lane: Lane)
      reads this
    {
      Of(lane).scanned >= rows
    }

    function BucketOf(row: int): int
      requires rowsPerBucket > 0
      reads this
    {
      var b := row / rowsPerBucket;
      if b < 0 then 0 else if b > Max(0, BucketCount() - 1) then Max(0, BucketCount() - 1) else b
    }

    function At(lane: Lane, bucket: int): Marks
      reads this
    {
      if bucket < 0 || bucket >= |Of(lane).bucket| then {} else Of(lane).bucket[bucket]
    }

    /** A row's bucket is the one its rows fall in, the nearest one for a row that is not there. */
    lemma BucketOfMeans(row: int)
      requires Valid() && rows > 0
      ensures 0 <= BucketOf(row) < |rules.bucket| == |find.bucket|
      ensures 0 <= row < rows ==> BucketOf(row) == row / rowsPerBucket
      ensures row < 0 ==> BucketOf(row) == 0
      ensures row >= rows ==> BucketOf(row) == |rules.bucket| - 1
    {
      LaneSizes();
      LastBucket(rows, rowsPerBucket);
      hide Ceil, LaneOk;
      if 0 <= row < rows { RowsBucket(row, rows, rowsPerBucket); }
      if row >= rows { Reaches(rows - 1, row, rowsPerBucket); }
    }

    /** A lane is complete once every row was offered, and then the map shows for a row exactly the
        classes that some row of its bucket gives. */
    lemma CompleteShows(lane: Lane, row: int, c: nat)
      requires Valid() && rows > 0
      ensures Complete(lane) <==> Of(lane).scanned == rows
      ensures Complete(lane) ==>
                (c in At(lane, BucketOf(row)) <==> exists r :: 0 <= r < rows && r / rowsPerBucket == BucketOf(row) && c in Answers(lane)[r])
    {
      BucketOfMeans(row);
      hide BucketOf;
      if Complete(lane) { CompleteIsExact(Of(lane), Answers(lane), rowsPerBucket, BucketOf(row), c); }
    }

    lemma NothingOutside(lane: Lane, bucket: int)
      requires Valid()
      ensures At(lane, bucket) == if 0 <= bucket < |rules.bucket| then Of(lane).bucket[bucket] else {}
      ensures Of(Rules) == rules && Of(Find) == find
    {
      LaneSizes();
    }

    /** One bucket list merged pairwise. */
    static method Merge(bucket: seq<Marks>) returns (merged: seq<Marks>)
      ensures merged == Merged(bucket)
    {
      merged := seq((|bucket| + 1) / 2, _ => {});
      var i := 0;
      while i < |bucket|
        invariant 0 <= i <= |bucket| && |merged| == (|bucket| + 1) / 2
        invariant forall k :: 0 <= k < |merged| ==>
                                merged[k] == (if 2 * k < i then bucket[2 * k] else {}) + (if 2 * k + 1 < i then bucket[2 * k + 1] else {})
      {
        merged := merged[i / 2 := merged[i / 2] + bucket[i]];
        i := i + 1;
      }
    }

    static method Fit(bucket: seq<Marks>, want: nat) returns (fitted: seq<Marks>)
      ensures fitted == Fitted(bucket, want)
    {
      fitted := if |bucket| > want then bucket[..want] else bucket;
      while |fitted| < want
        invariant |fitted| <= want
        invariant forall b :: 0 <= b < |fitted| ==> fitted[b] == if b < |bucket| then bucket[b] else {}
        decreases want - |fitted|
      {
        fitted := fitted + [{}];
      }
    }

    static function Half(rpb: nat): (h: nat)
      ensures rpb > 1 ==> h > 0
    {
      rpb / 2
    }

    /** Merges until the buckets for `rows` rows fit, both lanes alike. The lanes stay right
        for the rows they were right for. */
    method Coarsen()
      requires rowsPerBucket > 0
      requires LaneOk(rules, ruleAnswers, rowsPerBucket) && LaneOk(find, findAnswers, rowsPerBucket)
      modifies this`rules, this`find, this`rowsPerBucket
      ensures rowsPerBucket >= old(rowsPerBucket) && Ceil(rows, rowsPerBucket) <= MAX_BUCKETS
      ensures rowsPerBucket > old(rowsPerBucket) ==> Ceil(rows, Half(rowsPerBucket)) > MAX_BUCKETS
      ensures Ceil(rows, old(rowsPerBucket)) <= MAX_BUCKETS ==> rowsPerBucket == old(rowsPerBucket) && rules == old(rules) && find == old(find)
      ensures rules.scanned == old(rules.scanned) && find.scanned == old(find.scanned)
      ensures LaneOk(rules, ruleAnswers, rowsPerBucket) && LaneOk(find, findAnswers, rowsPerBucket)
    {
      hide LaneOk, FirstRow;
      while Ceil(rows, rowsPerBucket) > MAX_BUCKETS
        invariant rowsPerBucket >= old(rowsPerBucket) > 0
        invariant rowsPerBucket > old(rowsPerBucket) ==> Ceil(rows, Half(rowsPerBucket)) > MAX_BUCKETS
        invariant rowsPerBucket == old(rowsPerBucket) ==> rules == old(rules) && find == old(find)
        invariant Ceil(rows, old(rowsPerBucket)) <= MAX_BUCKETS ==> rowsPerBucket == old(rowsPerBucket)
        invariant rules.scanned == old(rules.scanned) && find.scanned == old(find.scanned)
        invariant LaneOk(rules, ruleAnswers, rowsPerBucket) && LaneOk(find, findAnswers, rowsPerBucket)
        decreases rows - rowsPerBucket
      {
        FewBuckets(rows, rowsPerBucket);
        MergeIsExact(rules, ruleAnswers, rowsPerBucket);
        MergeIsExact(find, findAnswers, rowsPerBucket);
        var merged := Merge(rules.bucket);
        rules := rules.(bucket := merged);
        merged := Merge(find.bucket);
        find := find.(bucket := merged);
        rowsPerBucket := 2 * rowsPerBucket;
      }
    }

    static lemma FewBuckets(rows: nat, rpb: nat)
      requires rpb > 0
      ensures rows <= rpb ==> Ceil(rows, rpb) <= 1
    {
      CeilBounds(rows, rpb);
      if rows <= rpb && Ceil(rows, rpb) > 1 { MulLess(1, Ceil(rows, rpb), rpb); }
    }

    /** Brings both lanes to the size `rows` asks for. */
    method Reshape()
      requires rowsPerBucket > 0
      requires LaneOk(rules, ruleAnswers, rowsPerBucket) && LaneOk(find, findAnswers, rowsPerBucket)
      modifies this`rules, this`find, this`rowsPerBucket
      ensures rowsPerBucket > 0 && Ceil(rows, rowsPerBucket) <= MAX_BUCKETS
      ensures rows == 0 ==> rules == find == LaneState([], 0) && rowsPerBucket == 1
      ensures rows > 0 ==> rowsPerBucket >= old(rowsPerBucket)
      ensures rows > 0 && Ceil(rows, old(rowsPerBucket)) <= MAX_BUCKETS ==>
                rowsPerBucket == old(rowsPerBucket)
                && rules == LaneState(Fitted(old(rules).bucket, Ceil(rows, rowsPerBucket)), Min(old(rules).scanned, rows))
                && find == LaneState(Fitted(old(find).bucket, Ceil(rows, rowsPerBucket)), Min(old(find).scanned, rows))
      ensures rows > 0 ==> rules.scanned == Min(old(rules).scanned, rows) && find.scanned == Min(old(find).scanned, rows)
      ensures forall u :: rows > 0 && |u| == rows && |ruleAnswers| <= rows && u[..|ruleAnswers|] == ruleAnswers ==> LaneOk(rules, u, rowsPerBucket)
      ensures forall u :: rows > 0 && |u| == rows && |findAnswers| <= rows && u[..|findAnswers|] == findAnswers ==> LaneOk(find, u, rowsPerBucket)
    {
      if rows == 0 {
        rules, find := LaneState([], 0), LaneState([], 0);
        rowsPerBucket := 1;
        return;
      }
      Coarsen();
      var want := Ceil(rows, rowsPerBucket);
      ghost var wasRules, wasFind := rules, find;
      forall u | |u| == rows && |ruleAnswers| <= rows && u[..|ruleAnswers|] == ruleAnswers
        ensures LaneOk(LaneState(Fitted(wasRules.bucket, want), wasRules.scanned), u, rowsPerBucket)
      {
        GrowthKeeps(wasRules, ruleAnswers, u, rowsPerBucket);
      }
      forall u | |u| == rows && |findAnswers| <= rows && u[..|findAnswers|] == findAnswers
        ensures LaneOk(LaneState(Fitted(wasFind.bucket, want), wasFind.scanned), u, rowsPerBucket)
      {
        GrowthKeeps(wasFind, findAnswers, u, rowsPerBucket);
      }
      var fitted := Fit(rules.bucket, want);
      rules := LaneState(fitted, Min(rules.scanned, rows));
      fitted := Fit(find.bucket, want);
      find := LaneState(fitted, Min(find.scanned, rows));
    }

    /** A new row space: nothing is kept. */
    method Rebind(n: int, ghost ruleNow: seq<Marks>, ghost findNow: seq<Marks>)
      requires |ruleNow| == |findNow| == Max(0, n)
      modifies this
      ensures Valid() && rows == Max(0, n) && ruleAnswers == ruleNow && findAnswers == findNow
      ensures rules.scanned == find.scanned == 0
    {
      rows := Max(0, n);
      rowsPerBucket := 1;
      rules, find := LaneState([], 0), LaneState([], 0);
      ruleAnswers, findAnswers := [], [];
      assert forall u: seq<Marks> :: u[..0] == [];
      Reshape();
      ruleAnswers, findAnswers := ruleNow, findNow;
    }

    /** The same rows, more or fewer of them. Growth offers nothing again; a shrink offers at
        most one bucket of the rows that are left. */
    method SetRows(n: int, ghost ruleNow: seq<Marks>, ghost findNow: seq<Marks>)
      requires Valid() && |ruleNow| == |findNow| == Max(0, n)
      requires forall i :: 0 <= i < |ruleNow| && i < rows ==> ruleNow[i] == ruleAnswers[i] && findNow[i] == findAnswers[i]
      modifies this
      ensures Valid() && rows == Max(0, n) && ruleAnswers == ruleNow && findAnswers == findNow
      ensures rows >= old(rows) ==> rules.scanned == old(rules.scanned) && find.scanned == old(find.scanned)
      ensures 0 < rows < old(rows) ==> rowsPerBucket == old(rowsPerBucket)
      ensures rules.scanned >= Min(old(rules.scanned), rows) - rowsPerBucket && find.scanned >= Min(old(find.scanned), rows) - rowsPerBucket
    {
      hide LaneOk, OrRange, FirstRow;
      var m := Max(0, n);
      LaneSizes();
      if m == rows {
        assert ruleNow == ruleAnswers && findNow == findAnswers;
        return;
      }
      if m < rows {
        Shrink(m, ruleNow, findNow);
      } else {
        assert ruleNow[..rows] == ruleAnswers && findNow[..rows] == findAnswers;
        rows := m;
        Reshape();
        ruleAnswers, findAnswers := ruleNow, findNow;
      }
    }

    lemma LaneSizes()
      requires Valid()
      ensures rules.scanned <= rows && find.scanned <= rows
      ensures |rules.bucket| == |find.bucket| == Ceil(rows, rowsPerBucket)
    {
    }

    method Shrink(n: nat, ghost ruleNow: seq<Marks>, ghost findNow: seq<Marks>)
      requires Valid() && n < rows && |ruleNow| == |findNow| == n
      requires forall i :: 0 <= i < n ==> ruleNow[i] == ruleAnswers[i] && findNow[i] == findAnswers[i]
      modifies this
      ensures Valid() && rows == n && ruleAnswers == ruleNow && findAnswers == findNow
      ensures 0 < rows ==> rowsPerBucket == old(rowsPerBucket)
      ensures rules.scanned >= Min(old(rules.scanned), rows) - rowsPerBucket && find.scanned >= Min(old(find.scanned), rows) - rowsPerBucket
    {
      hide LaneOk, OrRange, FirstRow;
      LaneSizes();
      CeilMonotone(n, rows, rowsPerBucket);
      if n > 0 {
        ShrinkRepairs(rules, ruleAnswers, n, rowsPerBucket);
        ShrinkRepairs(find, findAnswers, n, rowsPerBucket);
        assert ruleNow == ruleAnswers[..n] && findNow == findAnswers[..n];
      }
      rows := n;
      Reshape();
      EmptyLane();
      var last := |rules.bucket| - 1;
      if last >= 0 {
        ClearBuckets(last, last + 1);
      } else {
        rules, find := rules.(scanned := 0), find.(scanned := 0);
      }
      ruleAnswers, findAnswers := ruleNow, findNow;
    }

    static lemma EmptyLane()
      ensures LaneOk(LaneState([], 0), [], 1)
    {
    }

    /** Empties buckets [from, past) of both lanes and sends both scans back. */
    method ClearBuckets(from: nat, past: nat)
      requires from < past <= |rules.bucket| == |find.bucket|
      modifies this`rules, this`find
      ensures rules == Cleared(old(rules), from, past, rowsPerBucket) && find == Cleared(old(find), from, past, rowsPerBucket)
    {
      hide FirstRow;
      ghost var wasRules, wasFind := rules.bucket, find.bucket;
      var b := from;
      while b < past
        invariant from <= b <= past && |rules.bucket| == |wasRules| && |find.bucket| == |wasFind|
        invariant rules.scanned == old(rules.scanned) && find.scanned == old(find.scanned)
        invariant forall k :: 0 <= k < |wasRules| ==> rules.bucket[k] == if from <= k < b then {} else wasRules[k]
        invariant forall k :: 0 <= k < |wasFind| ==> find.bucket[k] == if from <= k < b then {} else wasFind[k]
      {
        rules := rules.(bucket := rules.bucket[b := {}]);
        find := find.(bucket := find.bucket[b := {}]);
        b := b + 1;
      }
      var rewind := FirstRow(from, rowsPerBucket);
      rules := rules.(scanned := Min(rules.scanned, rewind));
      find := find.(scanned := Min(find.scanned, rewind));
    }

    /** The rows between the two, whichever way round and as far as they exist. */
    function Affected(firstRow: int, lastRow: int): (int, int)
      requires rows > 0
      reads this
    {
      (Max(0, Min(Min(firstRow, lastRow), rows - 1)), Max(0, Min(Max(firstRow, lastRow), rows - 1)))
    }

    /** Every row between the two is among them, and in range they are the two. */
    lemma AffectedMeans(firstRow: int, lastRow: int, i: nat)
      requires rows > 0
      ensures var (a, z) := Affected(firstRow, lastRow);
              && 0 <= a <= z < rows
              && (i < rows && (firstRow <= i <= lastRow || lastRow <= i <= firstRow) ==> a <= i <= z)
      ensures 0 <= firstRow <= lastRow < rows ==> Affected(firstRow, lastRow) == (firstRow, lastRow)
    {
    }

    /** Some rows answer differently now: their buckets are emptied and offered again. */
    method InvalidateRows(firstRow: int, lastRow: int, ghost ruleNow: seq<Marks>, ghost findNow: seq<Marks>)
      requires Valid() && |ruleNow| == |findNow| == rows
      requires rows > 0 ==> var (a, z) := Affected(firstRow, lastRow);
                            forall i :: 0 <= i < rows && !(a <= i <= z) ==> ruleNow[i] == ruleAnswers[i] && findNow[i] == findAnswers[i]
      modifies this
      ensures Valid() && rows == old(rows) && rowsPerBucket == old(rowsPerBucket) && ruleAnswers == ruleNow && findAnswers == findNow
      ensures rows > 0 ==>
                var (a, _) := old(Affected(firstRow, lastRow));
                rules.scanned >= Min(old(rules.scanned), a + 1 - rowsPerBucket) && find.scanned >= Min(old(find.scanned), a + 1 - rowsPerBucket)
    {
      hide LaneOk, OrRange, FirstRow;
      LaneSizes();
      CeilBounds(rows, rowsPerBucket);
      if rows <= 0 || BucketCount() <= 0 {
        ruleAnswers, findAnswers := ruleNow, findNow;
        return;
      }
      var (a, z) := Affected(firstRow, lastRow);
      AffectedBuckets(a, z);
      hide BucketOf, Ceil, Affected;
      var from: nat := BucketOf(a);
      var past: nat := BucketOf(z) + 1;
      InvalidationRepairs(rules, ruleAnswers, ruleNow, rowsPerBucket, from, past);
      InvalidationRepairs(find, findAnswers, findNow, rowsPerBucket, from, past);
      ClearBuckets(from, past);
      ruleAnswers, findAnswers := ruleNow, findNow;
    }

    /** The buckets of a row range, and how far in front of the range they start. */
    lemma AffectedBuckets(a: nat, z: nat)
      requires Valid() && a <= z < rows
      ensures 0 <= BucketOf(a) < BucketOf(z) + 1 <= |rules.bucket| == |find.bucket|
      ensures FirstRow(BucketOf(a), rowsPerBucket) <= a < FirstRow(BucketOf(a), rowsPerBucket) + rowsPerBucket
      ensures z < FirstRow(BucketOf(z) + 1, rowsPerBucket)
    {
      hide LaneOk, FirstRow;
      LaneSizes();
      RowsBucket(a, rows, rowsPerBucket);
      RowsBucket(z, rows, rowsPerBucket);
      Reaches(a, z, rowsPerBucket);
    }

    static lemma RowsBucket(row: nat, rows: nat, rpb: nat)
      requires rpb > 0 && row < rows
      ensures row / rpb < Ceil(rows, rpb)
    {
      BucketOfRow(row, rpb, row / rpb);
      if Ceil(rows, rpb) <= row / rpb { BucketsBehind(rows, rpb, row / rpb); }
    }

    static lemma Reaches(a: nat, z: nat, rpb: nat)
      requires rpb > 0 && a <= z
      ensures a / rpb <= z / rpb
      ensures FirstRow(a / rpb, rpb) <= a && z < FirstRow(z / rpb + 1, rpb)
      ensures a < FirstRow(a / rpb, rpb) + rpb
    {
      BucketOfRow(a, rpb, a / rpb);
      BucketOfRow(z, rpb, z / rpb);
      MulLess(z / rpb, z / rpb + 1, rpb);
      if z / rpb < a / rpb { MulLess(z / rpb, a / rpb, rpb); }
    }

    /** Forgets one lane, whose answers may all be new; the other keeps everything. */
    method Clear(lane: Lane, ghost now: seq<Marks>)
      requires Valid() && |now| == rows
      modifies this
      ensures Valid() && rows == old(rows) && rowsPerBucket == old(rowsPerBucket)
      ensures Answers(lane) == now && Of(lane).scanned == 0
      ensures lane == Rules ==> find == old(find) && findAnswers == old(findAnswers)
      ensures lane == Find ==> rules == old(rules) && ruleAnswers == old(ruleAnswers)
    {
      var empty := LaneState(seq(|Of(lane).bucket|, _ => {}), 0);
      ClearedLane(now, rowsPerBucket, empty);
      hide LaneOk;
      if lane == Rules {
        rules, ruleAnswers := empty, now;
      } else {
        find, findAnswers := empty, now;
      }
    }

    static lemma ClearedLane(t: seq<Marks>, rpb: nat, empty: LaneState)
      requires rpb > 0 && |empty.bucket| == Ceil(|t|, rpb) && empty.scanned == 0
      requires forall b :: 0 <= b < |empty.bucket| ==> empty.bucket[b] == {}
      ensures LaneOk(empty, t, rpb)
    {
    }

    /** Offers up to `budget` more rows of one lane. */
    method Scan(lane: Lane, budget: int, probe: nat -> Marks) returns (done: nat)
      requires Valid() && forall row: nat :: row < rows ==> probe(row) == Answers(lane)[row]
      modifies this`rules, this`find
      ensures Valid()
      ensures done == Max(0, Min(budget, rows - old(Of(lane).scanned)))
      ensures Of(lane).scanned == old(Of(lane).scanned) + done
      ensures lane == Rules ==> find == old(find)
      ensures lane == Find ==> rules == old(rules)
    {
      var s := Of(lane);
      if budget <= 0 || s.scanned >= rows || s.bucket == [] {
        CeilBounds(rows, rowsPerBucket);
        return 0;
      }
      var end := Min(rows, s.scanned + budget);
      done := end - s.scanned;
      s := Offered(s, end, rowsPerBucket, probe, Answers(lane));
      hide LaneOk;
      if lane == Rules { rules := s; } else { find := s; }
    }

    /** Offers the rows up to `end` to one lane. */
    static method Offered(s: LaneState, end: nat, rpb: nat, probe: nat -> Marks, ghost t: seq<Marks>) returns (after: LaneState)
      requires rpb > 0 && LaneOk(s, t, rpb) && s.scanned <= end <= |t|
      requires forall row: nat :: row < |t| ==> probe(row) == t[row]
      ensures LaneOk(after, t, rpb) && after.scanned == end
    {
      hide LaneOk;
      var bucket := s.bucket;
      var row := s.scanned;
      while row < end
        invariant s.scanned <= row <= end && LaneOk(LaneState(bucket, row), t, rpb)
      {
        ScanStep(LaneState(bucket, row), t, rpb, row / rpb);
        var answer := probe(row);
        var b := row / rpb;
        if answer == {} { assert bucket[b := bucket[b] + answer] == bucket by { assert bucket[b] + {} == bucket[b]; } }
        if answer != {} { bucket := bucket[b := bucket[b] + answer]; }
        row := row + 1;
      }
      after := LaneState(bucket, end);
    }

    /** Every class the lane has found anywhere. */
    method UnionMask(lane: Lane) returns (all: Marks)
      requires Valid()
      ensures forall c :: c in all <==> exists b :: 0 <= b < |Of(lane).bucket| && c in Of(lane).bucket[b]
    {
      all := {};
      var s := Of(lane);
      var b := 0;
      while b < |s.bucket|
        invariant 0 <= b <= |s.bucket|
        invariant forall c :: c in all <==> exists k :: 0 <= k < b && c in s.bucket[k]
      {
        all := all + s.bucket[b];
        b := b + 1;
      }
    }
  }
}
