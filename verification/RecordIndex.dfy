/** The record array with its two-level prefix sums of display lines. */
module RecordIndexes {
  import opened Records

  const BLOCK_SIZE: nat := 4096
  const DISPLAY_LINE_CAP: nat := 100

  function DisplayLines(r: Record): nat {
    if r.lineCount < DISPLAY_LINE_CAP then r.lineCount else DISPLAY_LINE_CAP
  }

  /** Display lines of the first `k` records. */
  function Lines(records: seq<Record>, k: nat): nat
    requires k <= |records|
  {
    if k == 0 then 0 else Lines(records, k - 1) + DisplayLines(records[k - 1])
  }

  /** A record takes as many lines as it has, a hundred at most. */
  lemma LinesOfRecord(records: seq<Record>, k: nat)
    requires k < |records|
    ensures Lines(records, k + 1) - Lines(records, k) == if records[k].lineCount <= 100 then records[k].lineCount else 100
  {
  }

  function Blocks(n: nat): nat { (n + BLOCK_SIZE - 1) / BLOCK_SIZE }

  function BoundaryOf(b: nat, n: nat): nat {
    if b * BLOCK_SIZE < n then b * BLOCK_SIZE else n
  }

  /** What the sums must be: the lines before each block, and the grand total last. */
  function SumsOf(records: seq<Record>): seq<nat> {
    seq(Blocks(|records|) + 1, b requires 0 <= b => Lines(records, BoundaryOf(b, |records|)))
  }

  lemma {:induction false} LinesAgree(a: seq<Record>, b: seq<Record>, k: nat)
    requires k <= |a| && k <= |b| && a[..k] == b[..k]
    ensures Lines(a, k) == Lines(b, k)
  {
    if k > 0 {
      assert a[..k - 1] == a[..k][..k - 1] == b[..k][..k - 1] == b[..k - 1];
      assert a[k - 1] == a[..k][k - 1] == b[..k][k - 1] == b[k - 1];
      LinesAgree(a, b, k - 1);
    }
  }

  lemma {:induction false} LinesMonotone(a: seq<Record>, j: nat, k: nat)
    requires j <= k <= |a|
    ensures Lines(a, j) <= Lines(a, k)
    decreases k
  {
    if j < k { LinesMonotone(a, j, k - 1); }
  }

  /** With no empty record, later records start strictly later. */
  lemma {:induction false} LinesStrict(a: seq<Record>, j: nat, k: nat)
    requires j < k <= |a|
    requires forall i :: 0 <= i < |a| ==> a[i].lineCount >= 1
    ensures Lines(a, j) < Lines(a, k)
    decreases k
  {
    if j < k - 1 { LinesStrict(a, j, k - 1); }
  }

  class RecordIndex {
    var records: seq<Record>
    var blockSums: seq<nat>

    constructor ()
      ensures records == [] && blockSums == []
    {
      records := [];
      blockSums := [];
    }

    ghost predicate SumsFresh()
      reads this
    {
      blockSums == SumsOf(records)
    }

    /** The one pass shared by the full build and the extension: sums from `start` on. */
    method AppendSums(start: nat, acc0: nat)
      requires start <= |records| && start % BLOCK_SIZE == 0 && acc0 == Lines(records, start)
      requires |blockSums| == start / BLOCK_SIZE
      requires forall b :: 0 <= b < |blockSums| ==> blockSums[b] == Lines(records, BoundaryOf(b, |records|))
      modifies this`blockSums
      ensures SumsFresh()
    {
      var acc := acc0;
      var i := start;
      var n := |records|;
      while i < n
        invariant start <= i <= n && acc == Lines(records, i)
        invariant |blockSums| == Blocks(i)
        invariant forall b :: 0 <= b < |blockSums| ==> blockSums[b] == Lines(records, BoundaryOf(b, n))
        modifies this`blockSums
      {
        if i % BLOCK_SIZE == 0 {
          blockSums := blockSums + [acc];
        }
        acc := acc + DisplayLines(records[i]);
        i := i + 1;
      }
      blockSums := blockSums + [acc];
      assert BoundaryOf(Blocks(n), n) == n;
      assert blockSums == SumsOf(records);
    }

    method RebuildBlockSums()
      modifies this`blockSums
      ensures SumsFresh()
    {
      blockSums := [];
      AppendSums(0, 0);
    }

    /** Repairs the sums after records were appended, popped or rewritten behind the first
        `validCount`: the result is that of a full rebuild. `was` is the record list the
        sums were last right for. */
    method ExtendBlockSums(validCount: int, ghost was: seq<Record>)
      requires blockSums == [] || blockSums == SumsOf(was)
      requires 0 <= validCount ==> validCount <= |was| && validCount <= |records| && was[..validCount] == records[..validCount]
      modifies this`blockSums
      ensures SumsFresh()
    {
      var valid := if validCount < 0 then 0 else if validCount > |records| then |records| else validCount;
      if blockSums == [] {
        RebuildBlockSums();
        return;
      }
      var startBlock := valid / BLOCK_SIZE;
      var startRec := startBlock * BLOCK_SIZE;
      forall b | 0 <= b <= startBlock ensures b < |blockSums| && blockSums[b] == Lines(records, BoundaryOf(b, |records|)) {
        KeptEntry(was, records, valid, b);
      }
      var acc := blockSums[startBlock];
      blockSums := blockSums[..startBlock];
      AppendSums(startRec, acc);
    }

    lemma KeptEntry(was: seq<Record>, now: seq<Record>, valid: nat, b: nat)
      requires valid <= |was| && valid <= |now| && was[..valid] == now[..valid]
      requires b <= valid / BLOCK_SIZE
      ensures b < |SumsOf(was)| && BoundaryOf(b, |now|) == b * BLOCK_SIZE
      ensures SumsOf(was)[b] == Lines(now, BoundaryOf(b, |now|))
    {
      var k := b * BLOCK_SIZE;
      assert was[..k] == was[..valid][..k] == now[..valid][..k] == now[..k];
      LinesAgree(was, now, k);
    }

    method FirstLineOfRecord(r: int) returns (line: nat)
      requires SumsFresh() && r <= |records|
      ensures line == if r <= 0 then 0 else Lines(records, r)
    {
      if r <= 0 || |records| == 0 {
        return 0;
      }
      var block := r / BLOCK_SIZE;
      line := blockSums[block];
      var i := block * BLOCK_SIZE;
      while i < r
        invariant block * BLOCK_SIZE <= i <= r && line == Lines(records, i)
      {
        line := line + DisplayLines(records[i]);
        i := i + 1;
      }
    }

    /** The record whose lines contain `line`; the last one for a line past the end. */
    method RecordAtLine(line: int) returns (r: int)
      requires SumsFresh()
      ensures |records| == 0 ==> r == -1
      ensures |records| > 0 ==> 0 <= r < |records|
      ensures |records| > 0 && line < 0 ==> r == 0
      ensures |records| > 0 && 0 <= line < Lines(records, |records|) ==> Lines(records, r) <= line < Lines(records, r + 1)
      ensures |records| > 0 && line >= Lines(records, |records|) ==> r == |records| - 1
    {
      var n := |records|;
      if n == 0 { return -1; }
      if line < 0 { return 0; }
      var lo := 0;
      var hi := |blockSums| - 1;
      while lo < hi
        invariant 0 <= lo <= hi < |blockSums|
        invariant blockSums[lo] <= line
        invariant hi + 1 < |blockSums| ==> line < blockSums[hi + 1]
      {
        var mid := (lo + hi + 1) / 2;
        if blockSums[mid] <= line { lo := mid; } else { hi := mid - 1; }
      }
      var block := lo;
      if block >= Blocks(n) { return n - 1; }
      assert line < blockSums[block + 1] <= Lines(records, n) by {
        LinesMonotone(records, BoundaryOf(block + 1, n), n);
      }
      var acc := blockSums[block];
      var i := block * BLOCK_SIZE;
      var end := if i + BLOCK_SIZE < n then i + BLOCK_SIZE else n;
      assert end == BoundaryOf(block + 1, n);
      while i < end
        invariant block * BLOCK_SIZE <= i <= end && acc == Lines(records, i) <= line
      {
        var next := acc + DisplayLines(records[i]);
        if line < next { return i; }
        acc := next;
        i := i + 1;
      }
      assert false;
    }
  }

  /** Looking up a record's first line finds that record again. */
  lemma {:induction false} FirstLineFindsRecord(records: seq<Record>, r: nat, r': nat)
    requires r < |records| && r' < |records|
    requires forall i :: 0 <= i < |records| ==> records[i].lineCount >= 1
    requires Lines(records, r') <= Lines(records, r) < Lines(records, r' + 1)
    ensures r' == r
  {
    if r' < r { LinesMonotone(records, r' + 1, r); }
    if r < r' { LinesStrict(records, r, r'); }
  }
}
