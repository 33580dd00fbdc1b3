/** The digest: per rule that asks for it, the newest matching record, found by a backward
    walk and kept up to date as the log grows. */
module Digests {
  import opened Records
  import opened Filter
  import opened RecordIndexes
  import opened FilteredIndexes
  import opened Highlights
  import opened Runs
  import opened DigestOrders

  /** How many in-bound records the walk looks at. */
  const DIGEST_LOOKBACK: nat := 100000

  /** What decides whether a record answers a rule. */
  datatype DigestConfig = DigestConfig(highlighters: HighlighterSet, bounds: Bounds, message: Record -> string) {
    predicate Hit(r: Record, i: nat) {
      && i < |highlighters.rules| && InRunBound(bounds, r) && Digest in highlighters.rules[i].actions
      && highlighters.Matches(i, r, message(r))
    }

    /** Some enabled rule, configured to match something, asks for a digest. */
    ghost predicate AnyDigestRule() {
      exists i: nat :: i < |highlighters.rules| && Candidate(i)
    }

    predicate Candidate(i: nat)
      requires i < |highlighters.rules|
    {
      highlighters.rules[i].enabled && highlighters.rules[i].configured && Digest in highlighters.rules[i].actions
    }

    /** No digest rule became active by being resolved. */
    ghost predicate Agrees() {
      forall i: nat :: i < |highlighters.rules| && highlighters.rules[i].enabled && highlighters.Criteria(i).AnyActive() ==>
                         highlighters.rules[i].configured
    }

    lemma OnlyCandidatesHit(r: Record, i: nat)
      requires Agrees()
      ensures Hit(r, i) ==> Candidate(i)
    {
    }
  }

  /** The newest of the first `n` records that answers rule `i`, -1 for none. */
  function Newest(c: DigestConfig, records: seq<Record>, i: nat, n: nat): (row: int)
    requires n <= |records|
    ensures -1 <= row < n
  {
    if n == 0 then -1 else if c.Hit(records[n - 1], i) then n - 1 else Newest(c, records, i, n - 1)
  }

  lemma {:induction false} NewestMeaning(c: DigestConfig, records: seq<Record>, i: nat, n: nat)
    requires n <= |records|
    ensures var row := Newest(c, records, i, n);
            && (row >= 0 ==> c.Hit(records[row], i))
            && forall k :: row < k < n ==> !c.Hit(records[k], i)
  {
    if n > 0 && !c.Hit(records[n - 1], i) { NewestMeaning(c, records, i, n - 1); }
  }

  lemma {:induction false} NewestAgrees(c: DigestConfig, d: DigestConfig, was: seq<Record>, now: seq<Record>, i: nat, n: nat)
    requires n <= |was| && n <= |now| && forall k :: 0 <= k < n ==> c.Hit(was[k], i) == d.Hit(now[k], i)
    ensures Newest(c, was, i, n) == Newest(d, now, i, n)
  {
    if n > 0 { NewestAgrees(c, d, was, now, i, n - 1); }
  }

  lemma {:induction false} NewestGrows(c: DigestConfig, records: seq<Record>, i: nat, m: nat, n: nat)
    requires m <= n <= |records|
    ensures var row := Newest(c, records, i, n);
            row < m ==> row == Newest(c, records, i, m)
    ensures Newest(c, records, i, n) >= Newest(c, records, i, m)
    decreases n
  {
    if m < n { NewestGrows(c, records, i, m, n - 1); }
  }

  /** In-bound records of [from, n). */
  function InBound(c: DigestConfig, records: seq<Record>, from: nat, n: nat): nat
    requires from <= n <= |records|
    decreases n - from
  {
    if from == n then 0 else InBound(c, records, from + 1, n) + (if InRunBound(c.bounds, records[from]) then 1 else 0)
  }

  /** The newest answer the walk from record `n` down to `from` comes across. */
  function Found(c: DigestConfig, records: seq<Record>, i: nat, from: nat, n: nat): (row: int)
    requires from <= n <= |records|
    ensures row == -1 || from <= row < n
    decreases n - from
  {
    if from == n then -1
    else
      var later := Found(c, records, i, from + 1, n);
      if later >= 0 then later
      else if c.Hit(records[from], i) && InBound(c, records, from, n) <= DIGEST_LOOKBACK then from
      else -1
  }

  /** A record answers a rule exactly when it lies in the run bound, and the rule carries the digest
      and matches it. */
  lemma HitMeans(c: DigestConfig, r: Record, i: nat)
    ensures c.Hit(r, i) <==>
            && i < |c.highlighters.rules| && Digest in c.highlighters.rules[i].actions
            && (!c.bounds.restricted || c.bounds.start <= r.offset < c.bounds.end)
            && c.highlighters.Matches(i, r, c.message(r))
  {
  }

  /** The rows of [from, n) that lie in the run bound. */
  ghost function BoundRows(c: DigestConfig, records: seq<Record>, from: nat, n: nat): set<nat>
    requires n <= |records|
  {
    set k: nat | from <= k < n && InRunBound(c.bounds, records[k])
  }

  lemma {:induction false} InBoundMeans(c: DigestConfig, records: seq<Record>, from: nat, n: nat)
    requires from <= n <= |records|
    ensures InBound(c, records, from, n) == |BoundRows(c, records, from, n)|
    decreases n - from
  {
    if from < n {
      InBoundMeans(c, records, from + 1, n);
      var rest := BoundRows(c, records, from + 1, n);
      assert BoundRows(c, records, from, n) == if InRunBound(c.bounds, records[from]) then rest + {from} else rest;
    } else {
      assert BoundRows(c, records, from, n) == {};
    }
  }

  /** The walk never goes past the fence. */
  lemma {:induction false} FenceStops(c: DigestConfig, records: seq<Record>, i: nat, from: nat, n: nat)
    requires from <= n <= |records| && InBound(c, records, from, n) > 100000
    ensures Found(c, records, i, 0, n) == Found(c, records, i, from, n)
    decreases from
  {
    if from > 0 {
      FenceStops(c, records, i, from - 1, n);
    }
  }

  /** Within the fence the walk finds the newest answer there is. */
  lemma {:induction false} FoundIsNewest(c: DigestConfig, records: seq<Record>, i: nat, from: nat, n: nat)
    requires from <= n <= |records| && InBound(c, records, from, n) <= 100000
    ensures Found(c, records, i, from, n) == if Newest(c, records, i, n) >= from then Newest(c, records, i, n) else -1
    decreases n - from
  {
    NewestMeaning(c, records, i, n);
    if from < n { FoundIsNewest(c, records, i, from + 1, n); }
  }

  lemma {:induction false} InBoundShrinks(c: DigestConfig, records: seq<Record>, from: nat, m: nat, n: nat)
    requires from <= m <= n <= |records|
    ensures InBound(c, records, from, m) <= InBound(c, records, from, n)
    decreases n - from
  {
    if from < m { InBoundShrinks(c, records, from + 1, m, n); }
  }

  /** What a full rebuild finds. */
  ghost predicate Rebuilt(c: DigestConfig, records: seq<Record>, last: seq<int>) {
    |last| == |c.highlighters.rules| && forall i :: 0 <= i < |last| ==> last[i] == Found(c, records, i, 0, |records|)
  }

  /** Every record that counts is within the walk's reach. */
  ghost predicate FitsLookback(c: DigestConfig, records: seq<Record>) {
    InBound(c, records, 0, |records|) <= 100000
  }

  lemma RebuiltIsNewest(c: DigestConfig, records: seq<Record>, last: seq<int>)
    requires FitsLookback(c, records) && |last| == |c.highlighters.rules|
    ensures Rebuilt(c, records, last) <==> forall i :: 0 <= i < |last| ==> last[i] == Newest(c, records, i, |records|)
  {
    forall i | 0 <= i < |last| ensures Found(c, records, i, 0, |records|) == Newest(c, records, i, |records|) {
      FoundIsNewest(c, records, i, 0, |records|);
    }
  }

  /** How many candidate rules of the first `k` have no answer yet. */
  function Unanswered(c: DigestConfig, last: seq<int>, k: nat): nat
    requires k <= |last| == |c.highlighters.rules|
  {
    if k == 0 then 0 else Unanswered(c, last, k - 1) + (if c.Candidate(k - 1) && last[k - 1] < 0 then 1 else 0)
  }

  lemma {:induction false} NobodyLooking(c: DigestConfig, last: seq<int>, k: nat)
    requires k <= |last| == |c.highlighters.rules| && Unanswered(c, last, k) == 0
    ensures forall i :: 0 <= i < k ==> !(c.Candidate(i) && last[i] < 0)
  {
    if k > 0 { NobodyLooking(c, last, k - 1); }
  }

  lemma {:induction false} AnswerOne(c: DigestConfig, last: seq<int>, i: nat, row: nat, k: nat)
    requires k <= |last| == |c.highlighters.rules| && i < |last| && c.Candidate(i) && last[i] < 0
    ensures Unanswered(c, last[i := row], k) == Unanswered(c, last, k) - (if i < k then 1 else 0)
    ensures i < k ==> Unanswered(c, last, k) > 0
  {
    if k > 0 { AnswerOne(c, last, i, row, k - 1); }
  }

  /** With every candidate answered the rest of the walk changes nothing. */
  lemma {:induction false} AnsweredStays(c: DigestConfig, records: seq<Record>, i: nat, from: nat, n: nat)
    requires c.Agrees() && from <= n <= |records| && i < |c.highlighters.rules|
    requires !(c.Candidate(i) && Found(c, records, i, from, n) < 0)
    ensures Found(c, records, i, 0, n) == Found(c, records, i, from, n)
    decreases from
  {
    if from > 0 {
      c.OnlyCandidatesHit(records[from - 1], i);
      AnsweredStays(c, records, i, from - 1, n);
    }
  }

  lemma {:induction false} NoCandidateNoHit(c: DigestConfig, records: seq<Record>, i: nat, from: nat)
    requires c.Agrees() && !c.AnyDigestRule() && from <= |records| && i < |c.highlighters.rules|
    ensures Found(c, records, i, from, |records|) == -1
    decreases |records| - from
  {
    if from < |records| {
      c.OnlyCandidatesHit(records[from], i);
      NoCandidateNoHit(c, records, i, from + 1);
    }
  }

  /** The entries that name a record. */
  function Named(last: seq<int>): seq<int> {
    if last == [] then []
    else Named(last[..|last| - 1]) + (if last[|last| - 1] >= 0 then [last[|last| - 1]] else [])
  }

  lemma {:induction false} NamedMeaning(last: seq<int>)
    ensures forall y :: y in Named(last) <==> y >= 0 && y in last
  {
    if last != [] {
      NamedMeaning(last[..|last| - 1]);
      assert last == last[..|last| - 1] + [last[|last| - 1]];
    }
  }

  /** What the strip lists for these entries. */
  function Listing(records: seq<Record>, last: seq<int>): seq<int>
    requires forall i :: 0 <= i < |last| ==> last[i] < |records|
  {
    NamedInRange(records, last);
    DigestOrder(records, Named(last))
  }

  lemma NamedInRange(records: seq<Record>, last: seq<int>)
    requires forall i :: 0 <= i < |last| ==> last[i] < |records|
    ensures InRange(records, Ordinals(Named(last)))
  {
    NamedMeaning(last);
    OrdinalsMeaning(Named(last));
    var asc := Ordinals(Named(last));
    forall k | 0 <= k < |asc| ensures 0 <= asc[k] < |records| {
      assert asc[k] in asc;
    }
  }

  lemma ListingRows(records: seq<Record>, last: seq<int>)
    requires forall i :: 0 <= i < |last| ==> last[i] < |records|
    ensures InRange(records, Listing(records, last))
    ensures forall y :: y in Listing(records, last) <==> y >= 0 && y in last
  {
    NamedInRange(records, last);
    NamedMeaning(last);
    OrdinalsMeaning(Named(last));
    DigestOrderMeaning(records, Named(last));
    SameMembers(Listing(records, last), Ordinals(Named(last)));
  }

  /** The order only looks at the listed records. */
  lemma ListingAgrees(was: seq<Record>, now: seq<Record>, last: seq<int>)
    requires forall i :: 0 <= i < |last| ==> last[i] < |was| && last[i] < |now|
    requires forall i :: 0 <= i < |last| && last[i] >= 0 ==> was[last[i]] == now[last[i]]
    ensures Listing(was, last) == Listing(now, last)
  {
    NamedInRange(was, last);
    NamedInRange(now, last);
    NamedMeaning(last);
    OrdinalsMeaning(Named(last));
    var asc := Ordinals(Named(last));
    forall k | 0 <= k < |asc| ensures was[asc[k]] == now[asc[k]] {
      assert asc[k] in asc;
    }
    OrderAgrees(was, now, asc);
  }

  lemma OrderAgrees(was: seq<Record>, now: seq<Record>, asc: seq<int>)
    requires InRange(was, asc) && InRange(now, asc) && forall k :: 0 <= k < |asc| ==> was[asc[k]] == now[asc[k]]
    ensures PlaceableOf(was, asc) == PlaceableOf(now, asc) && InRange(was, PlaceableOf(was, asc)) && InRange(now, PlaceableOf(was, asc))
    ensures var sorted := ByTime(was, PlaceableOf(was, asc));
            && sorted == ByTime(now, PlaceableOf(was, asc)) && |PlaceableOf(was, asc)| <= |sorted|
            && Refilled(was, asc, sorted) == Refilled(now, asc, sorted)
  {
    PlaceableAgrees(was, now, asc);
    PlaceableInRange(was, asc);
    var placeable := PlaceableOf(was, asc);
    forall k | 0 <= k < |placeable| ensures was[placeable[k]] == now[placeable[k]] && placeable[k] < |now| {
      assert placeable[k] in placeable;
      var j :| 0 <= j < |asc| && asc[j] == placeable[k];
    }
    ByTimeAgrees(was, now, placeable);
    ByTimeKeeps(was, placeable);
    RefilledAgrees(was, now, asc, ByTime(was, placeable));
  }

  lemma {:induction false} PlaceableAgrees(was: seq<Record>, now: seq<Record>, asc: seq<int>)
    requires InRange(was, asc) && InRange(now, asc) && forall k :: 0 <= k < |asc| ==> was[asc[k]] == now[asc[k]]
    ensures PlaceableOf(was, asc) == PlaceableOf(now, asc)
  {
    if asc != [] {
      assert was[asc[|asc| - 1]] == now[asc[|asc| - 1]];
      PlaceableAgrees(was, now, asc[..|asc| - 1]);
    }
  }

  lemma {:induction false} RefilledAgrees(was: seq<Record>, now: seq<Record>, asc: seq<int>, sorted: seq<int>)
    requires InRange(was, asc) && InRange(now, asc) && forall k :: 0 <= k < |asc| ==> was[asc[k]] == now[asc[k]]
    requires |PlaceableOf(was, asc)| <= |sorted| && |PlaceableOf(now, asc)| <= |sorted|
    ensures Refilled(was, asc, sorted) == Refilled(now, asc, sorted)
  {
    if asc != [] {
      assert was[asc[|asc| - 1]] == now[asc[|asc| - 1]];
      PlaceableAgrees(was, now, asc[..|asc| - 1]);
      RefilledAgrees(was, now, asc[..|asc| - 1], sorted);
    }
  }

  lemma {:induction false} ByTimeAgrees(was: seq<Record>, now: seq<Record>, rows: seq<int>)
    requires InRange(was, rows) && InRange(now, rows) && forall k :: 0 <= k < |rows| ==> was[rows[k]] == now[rows[k]]
    ensures ByTime(was, rows) == ByTime(now, rows)
  {
    if rows != [] {
      var front := rows[..|rows| - 1];
      var x := rows[|rows| - 1];
      ByTimeAgrees(was, now, front);
      ByTimeKeeps(was, front);
      SameMembers(ByTime(was, front), front);
      forall k | 0 <= k < |ByTime(was, front)| ensures was[ByTime(was, front)[k]] == now[ByTime(was, front)[k]] {
        assert ByTime(was, front)[k] in ByTime(was, front);
        var j :| 0 <= j < |front| && front[j] == ByTime(was, front)[k];
        assert was[rows[j]] == now[rows[j]];
      }
      InsertedByTimeAgrees(was, now, ByTime(was, front), x);
    }
  }

  lemma {:induction false} InsertedByTimeAgrees(was: seq<Record>, now: seq<Record>, rows: seq<int>, x: int)
    requires InRange(was, rows) && InRange(now, rows) && forall k :: 0 <= k < |rows| ==> was[rows[k]] == now[rows[k]]
    requires 0 <= x < |was| && x < |now| && was[x] == now[x]
    ensures InsertedByTime(was, rows, x) == InsertedByTime(now, rows, x)
  {
    if rows != [] {
      assert was[rows[|rows| - 1]] == now[rows[|rows| - 1]];
      InsertedByTimeAgrees(was, now, rows[..|rows| - 1], x);
    }
  }

  // ---------------------------------------------------------------------------
  // One append
  // ---------------------------------------------------------------------------

  /** The records a growth cannot have touched are the same and answer the same. */
  ghost predicate Settled(was: DigestConfig, before: seq<Record>, now: DigestConfig, after: seq<Record>, settled: nat) {
    && settled <= |before| <= |after|
    && forall k :: 0 <= k < settled ==> before[k] == after[k] && forall i: nat :: was.Hit(before[k], i) == now.Hit(after[k], i)
  }

  /** The growth of the trailing record made it answer a rule it did not answer, and no newer
      record answers that rule. */
  ghost predicate NewlyMatched(was: DigestConfig, before: seq<Record>, now: DigestConfig, after: seq<Record>, i: nat)
    requires 0 < |before| <= |after|
  {
    && now.Hit(after[|before| - 1], i) && !was.Hit(before[|before| - 1], i)
    && forall k :: |before| <= k < |after| ==> !now.Hit(after[k], i)
  }

  /** An entry once the grown trailing record was looked at again. */
  function Refound(now: DigestConfig, after: seq<Record>, i: nat, base: nat, entry: int): (row: int)
    requires base < |after|
    ensures row == entry || -1 <= row < base
  {
    if entry == base && !now.Hit(after[base], i) then Newest(now, after, i, base) else entry
  }

  /** An entry once the new records were looked at. */
  function Folded(now: DigestConfig, after: seq<Record>, i: nat, from: nat, n: nat, entry: int): (row: int)
    requires from <= n <= |after|
    ensures row == entry || from <= row < n
  {
    if Newest(now, after, i, n) >= from then Newest(now, after, i, n) else entry
  }

  /** The update reaches the newest answer exactly when the trailing record did not newly
      match. */
  lemma UpdateReaches(was: DigestConfig, before: seq<Record>, now: DigestConfig, after: seq<Record>, i: nat, changed: bool)
    requires changed ==> before != []
    requires Settled(was, before, now, after, |before| - (if changed then 1 else 0))
    ensures var entry := Newest(was, before, i, |before|);
            var mid := if changed then Refound(now, after, i, |before| - 1, entry) else entry;
            var got := Folded(now, after, i, |before|, |after|, mid);
            got == Newest(now, after, i, |after|) <==> !(changed && NewlyMatched(was, before, now, after, i))
  {
    var settled := |before| - (if changed then 1 else 0);
    NewestAgrees(was, now, before, after, i, settled);
    NewestGrows(now, after, i, |before|, |after|);
    NewestMeaning(now, after, i, |after|);
    if changed {
      NewestMeaning(was, before, i, |before|);
    }
  }

  /** It does happen: one record, one text rule, and what it looks for arrives with the
      record's second line. The entry stays at none while a rebuild names the record. */
  lemma GrownTextIsMissed() returns (c: DigestConfig, before: seq<Record>, after: seq<Record>)
    ensures c.Agrees() && before != [] && Settled(c, before, c, after, |before| - 1) && FitsLookback(c, before) && FitsLookback(c, after)
    ensures |c.highlighters.rules| == 1 && NewlyMatched(c, before, c, after, 0)
    ensures Rebuilt(c, before, [-1]) && !Rebuilt(c, after, [-1])
    ensures Folded(c, after, 0, |before|, |after|, Refound(c, after, 0, |before| - 1, -1)) == -1
  {
    var text := TextFilter(true, false, false, (m: string) => |m| > 5);
    var fs := INERT.(text := text);
    var message := (r: Record) => if r.lineCount > 1 then "short\nand more" else "short";
    c := DigestConfig(HighlighterSet([Rule(true, true, {Highlights.Digest})], [fs]), Bounds(false, 0, 0), message);
    before := [Record(0, NO_TIMESTAMP, 6, 0, 0, 1, Unknown)];
    after := [Record(0, NO_TIMESTAMP, 12, 0, 0, 2, Unknown)];
    assert c.highlighters.Criteria(0) == fs;
    assert !c.Hit(before[0], 0) && c.Hit(after[0], 0);
    assert InBound(c, before, 0, 1) == InBound(c, after, 0, 1) == 1;
    assert Found(c, before, 0, 0, 1) == -1 && Found(c, after, 0, 0, 1) == 0;
    assert Newest(c, after, 0, 1) == 0;
  }

  class Digest {
    const idx: RecordIndex
    const published: FilteredIndex
    const message: Record -> string
    var highlighters: HighlighterSet
    var bounds: Bounds
    var last: seq<int>

    constructor (idx: RecordIndex, message: Record -> string, highlighters: HighlighterSet, bounds: Bounds)
      ensures this.idx == idx && this.message == message && this.highlighters == highlighters && this.bounds == bounds
      ensures Valid() && fresh(published) && fresh(published.compact) && last == []
    {
      this.idx := idx;
      this.published := new FilteredIndex(idx);
      this.message := message;
      this.highlighters := highlighters;
      this.bounds := bounds;
      last := [];
    }

    ghost predicate Valid()
      reads this, published, published.compact
    {
      published.Valid() && published.source == idx && published.compact != idx
    }

    function Config(): DigestConfig
      reads this
    {
      DigestConfig(highlighters, bounds, message)
    }

    /** The strip lists the entries over `records`, with copies of the records as they are. */
    ghost predicate Shows(records: seq<Record>)
      reads this, published, published.compact
    {
      && (forall i :: 0 <= i < |last| ==> -1 <= last[i] < |records|)
      && published.visible == Listing(records, last) && Copies(records, published.visible, published.compact.records)
    }

    /** The entries in the order the strip shows them. */
    method Chronological() returns (ordinals: seq<int>)
      requires forall i :: 0 <= i < |last| ==> -1 <= last[i] < |idx.records|
      ensures ordinals == Listing(idx.records, last)
    {
      var rows := [];
      var i := 0;
      while i < |last|
        invariant 0 <= i <= |last| && rows == Named(last[..i])
      {
        assert last[..i + 1][..i] == last[..i];
        if last[i] >= 0 { rows := rows + [last[i]]; }
        i := i + 1;
      }
      assert last[..|last|] == last;
      NamedInRange(idx.records, last);
      ordinals := Ordinals(rows);
      var chronological := PlaceableRows(ordinals);
      PlaceableInRange(idx.records, ordinals);
      ByTimeKeeps(idx.records, chronological);
      chronological := ByTime(idx.records, chronological);
      ordinals := RefilledRows(ordinals, chronological);
    }

    method PlaceableRows(ordinals: seq<int>) returns (rows: seq<int>)
      requires InRange(idx.records, ordinals)
      ensures rows == PlaceableOf(idx.records, ordinals)
    {
      rows := [];
      var k := 0;
      while k < |ordinals|
        invariant 0 <= k <= |ordinals| && rows == PlaceableOf(idx.records, ordinals[..k])
      {
        assert ordinals[..k + 1] == ordinals[..k] + [ordinals[k]];
        PlaceableAppend(idx.records, ordinals[..k], ordinals[k]);
        if Placeable(idx.records, ordinals[k]) { rows := rows + [ordinals[k]]; }
        k := k + 1;
      }
      assert ordinals[..|ordinals|] == ordinals;
    }

    method RefilledRows(ordinals: seq<int>, sorted: seq<int>) returns (rows: seq<int>)
      requires |PlaceableOf(idx.records, ordinals)| == |sorted|
      ensures rows == Refilled(idx.records, ordinals, sorted)
    {
      rows := [];
      var next := 0;
      var k := 0;
      assert ordinals[..|ordinals|] == ordinals;
      while k < |ordinals|
        invariant 0 <= k <= |ordinals| && next == |PlaceableOf(idx.records, ordinals[..k])| <= |sorted|
        invariant rows == Refilled(idx.records, ordinals[..k], sorted)
      {
        PlaceableMonotone(idx.records, ordinals, k + 1);
        assert ordinals[..k + 1] == ordinals[..k] + [ordinals[k]];
        PlaceableAppend(idx.records, ordinals[..k], ordinals[k]);
        RefilledAppend(idx.records, ordinals[..k], ordinals[k], sorted);
        if Placeable(idx.records, ordinals[k]) {
          rows := rows + [sorted[next]];
          next := next + 1;
        } else {
          rows := rows + [ordinals[k]];
        }
        k := k + 1;
      }
    }

    static lemma {:induction false} PlaceableMonotone(records: seq<Record>, rows: seq<int>, k: nat)
      requires k <= |rows|
      ensures |PlaceableOf(records, rows[..k])| <= |PlaceableOf(records, rows)|
    {
      if k < |rows| {
        assert rows[..|rows| - 1][..k] == rows[..k];
        PlaceableMonotone(records, rows[..|rows| - 1], k);
      } else {
        assert rows[..k] == rows;
      }
    }

    /** Publishes the entries, unless the list is the one already shown and no record behind
        it is known to have changed. */
    method PublishDigest(force: bool) returns (changed: bool)
      requires Valid() && forall i :: 0 <= i < |last| ==> -1 <= last[i] < |idx.records|
      modifies published, published.compact
      ensures Valid() && idx.records == old(idx.records)
      ensures published.visible == Listing(idx.records, last)
      ensures changed <==> force || Listing(idx.records, last) != old(published.visible)
      ensures changed ==> Shows(idx.records) && published.active
      ensures !changed ==> published.compact.records == old(published.compact.records)
    {
      var ordinals := Chronological();
      ListingRows(idx.records, last);
      if !force && ordinals == published.visible { return false; }
      published.SetVisible(ordinals, []);
      return true;
    }

    method AnyDigestEnabled() returns (any: bool)
      ensures any <==> Config().AnyDigestRule()
    {
      var i := 0;
      while i < |highlighters.rules|
        invariant 0 <= i <= |highlighters.rules|
        invariant forall k: nat :: k < i ==> !Config().Candidate(k)
      {
        if Config().Candidate(i) { return true; }
        i := i + 1;
      }
      return false;
    }

    method CountOutstanding(last: seq<int>) returns (outstanding: nat)
      requires |last| == |highlighters.rules| && forall i :: 0 <= i < |last| ==> last[i] == -1
      ensures outstanding == Unanswered(Config(), last, |last|)
    {
      outstanding := 0;
      var i := 0;
      while i < |highlighters.rules|
        invariant 0 <= i <= |highlighters.rules| && outstanding == Unanswered(Config(), last, i)
      {
        if Config().Candidate(i) { outstanding := outstanding + 1; }
        i := i + 1;
      }
    }

    /** Offers one in-bound record to the rules still looking. */
    method AnswerRow(row: nat, looking: nat) returns (outstanding: nat)
      requires Config().Agrees() && row < |idx.records| && InRunBound(bounds, idx.records[row])
      requires |last| == |highlighters.rules| && looking == Unanswered(Config(), last, |last|)
      modifies this`last
      ensures |last| == |highlighters.rules| && outstanding == Unanswered(Config(), last, |last|)
      ensures forall k :: 0 <= k < |last| ==>
                            last[k] == if old(last)[k] < 0 && Config().Hit(idx.records[row], k) then row else old(last)[k]
    {
      ghost var c, was := Config(), last;
      var rec := idx.records[row];
      var memo := NotDecoded;
      outstanding := looking;
      var i := 0;
      while i < |last| && outstanding > 0
        invariant 0 <= i <= |last| == |was| && Config() == c
        invariant memo == NotDecoded || memo == Decoded(message(rec))
        invariant outstanding == Unanswered(c, last, |last|)
        invariant forall k :: 0 <= k < i ==> last[k] == if was[k] < 0 && c.Hit(rec, k) then row else was[k]
        invariant forall k :: i <= k < |last| ==> last[k] == was[k]
      {
        if last[i] < 0 && Highlights.Digest in highlighters.rules[i].actions {
          var ok: bool, decodes: nat;
          ok, memo, decodes := highlighters.RuleMatches(i, rec, memo, message(rec));
          if ok {
            c.OnlyCandidatesHit(rec, i);
            AnswerOne(c, last, i, row, |last|);
            last := last[i := row];
            outstanding := outstanding - 1;
          }
        }
        i := i + 1;
      }
      if outstanding == 0 { NobodyLooking(c, last, |last|); }
      forall k | i <= k < |last| ensures !(was[k] < 0 && c.Hit(rec, k)) {
        c.OnlyCandidatesHit(rec, k);
      }
    }

    /** The full backward walk: every entry is the newest answer within the fence. */
    method RebuildDigest()
      requires Valid() && Config().Agrees()
      modifies this`last, published, published.compact
      ensures Valid() && idx.records == old(idx.records)
      ensures Rebuilt(Config(), idx.records, last)
      ensures published.visible == Listing(idx.records, last)
      ensures old(Copies(idx.records, published.visible, published.compact.records)) ==> Shows(idx.records)
    {
      Walk();
      var _ := PublishDigest(false);
    }

    /** Finds every entry, newest record first, until all rules are answered or the fence. */
    method Walk()
      requires Config().Agrees()
      modifies this`last
      ensures Rebuilt(Config(), idx.records, last)
    {
      ghost var c := Config();
      var n := |idx.records|;
      last := seq(|highlighters.rules|, _ => -1);
      var any := AnyDigestEnabled();
      if !any {
        forall i | 0 <= i < |last| ensures last[i] == Found(c, idx.records, i, 0, n) { NoCandidateNoHit(c, idx.records, i, 0); }
        return;
      }
      var outstanding := CountOutstanding(last);
      var examined := 0;
      var row := n - 1;
      while row >= 0 && outstanding > 0
        invariant -1 <= row < n && Config() == c && |last| == |c.highlighters.rules|
        invariant examined == InBound(c, idx.records, row + 1, n) <= DIGEST_LOOKBACK
        invariant outstanding == Unanswered(c, last, |last|)
        invariant forall i :: 0 <= i < |last| ==> last[i] == Found(c, idx.records, i, row + 1, n)
      {
        if InRunBound(bounds, idx.records[row]) {
          examined := examined + 1;
          if examined > DIGEST_LOOKBACK {
            forall i | 0 <= i < |last| ensures last[i] == Found(c, idx.records, i, 0, n) {
              FenceStops(c, idx.records, i, row, n);
            }
            return;
          }
          outstanding := AnswerRow(row, outstanding);
        }
        row := row - 1;
      }
      if row >= 0 {
        NobodyLooking(c, last, |last|);
        forall i | 0 <= i < |last| ensures last[i] == Found(c, idx.records, i, 0, n) {
          AnsweredStays(c, idx.records, i, row + 1, n);
        }
      }
    }

    /** The newest record up to `fromRow` that one rule matches. */
    method FindLastMatchBefore(i: nat, fromRow: int) returns (row: int)
      requires i < |highlighters.rules| && Highlights.Digest in highlighters.rules[i].actions && -1 <= fromRow < |idx.records|
      ensures row == Found(Config(), idx.records, i, 0, fromRow + 1)
    {
      ghost var c := Config();
      var examined := 0;
      row := fromRow;
      while row >= 0
        invariant -1 <= row <= fromRow
        invariant examined == InBound(c, idx.records, row + 1, fromRow + 1) <= DIGEST_LOOKBACK
        invariant Found(c, idx.records, i, row + 1, fromRow + 1) == -1
      {
        var rec := idx.records[row];
        if InRunBound(bounds, rec) {
          examined := examined + 1;
          if examined > DIGEST_LOOKBACK {
            FenceStops(c, idx.records, i, row, fromRow + 1);
            return -1;
          }
          var ok, _, _ := highlighters.RuleMatches(i, rec, NotDecoded, message(rec));
          if ok {
            FoundIsFirst(c, idx.records, i, row, fromRow + 1);
            return;
          }
        }
        row := row - 1;
      }
      return -1;
    }

    static lemma {:induction false} FoundIsFirst(c: DigestConfig, records: seq<Record>, i: nat, from: nat, n: nat)
      requires from <= n <= |records| && Found(c, records, i, from, n) >= 0
      ensures Found(c, records, i, 0, n) == Found(c, records, i, from, n)
      decreases from
    {
      if from > 0 { FoundIsFirst(c, records, i, from - 1, n); }
    }

    /** Looks again at the entries that name the grown trailing record. */
    method RefindProvisional(base: nat) returns (changed: bool, staleRow: bool)
      requires base < |idx.records| && |last| == |highlighters.rules| && FitsLookback(Config(), idx.records)
      requires forall i :: 0 <= i < |last| ==> -1 <= last[i] <= base
      requires forall i :: 0 <= i < |last| && last[i] == base ==> Highlights.Digest in highlighters.rules[i].actions
      modifies this`last
      ensures |last| == |old(last)|
      ensures forall i :: 0 <= i < |last| ==> last[i] == Refound(Config(), idx.records, i, base, old(last)[i])
      ensures changed <==> base in old(last)
      ensures staleRow <==> base in last
    {
      hide Found, Newest, InBound;
      ghost var c, was := Config(), last;
      changed, staleRow := false, false;
      var prov := idx.records[base];
      var i := 0;
      while i < |last|
        invariant 0 <= i <= |last| == |was| && Config() == c
        invariant forall k :: 0 <= k < i ==> last[k] == Refound(c, idx.records, k, base, was[k])
        invariant forall k :: i <= k < |last| ==> last[k] == was[k]
        invariant changed <==> base in was[..i]
        invariant staleRow <==> base in last[..i]
      {
        assert was[..i + 1] == was[..i] + [was[i]];
        ghost var front := last[..i];
        if last[i] == base {
          var stillMatches := InRunBound(bounds, prov);
          if stillMatches {
            var memo: Memo, decodes: nat;
            stillMatches, memo, decodes := highlighters.RuleMatches(i, prov, NotDecoded, message(prov));
          }
          changed := true;
          if stillMatches {
            staleRow := true;
          } else {
            var found := FindLastMatchBefore(i, base - 1);
            InBoundShrinks(c, idx.records, 0, base, |idx.records|);
            FoundIsNewest(c, idx.records, i, 0, base);
            last := last[i := found];
          }
        }
        i := i + 1;
        assert last[..i] == front + [last[i - 1]];
      }
      assert was[..i] == was && last[..i] == last;
    }

    /** New records move entries forward and never back. */
    method FoldNew(from: nat) returns (changed: bool)
      requires from <= |idx.records| && |last| == |highlighters.rules| && forall i :: 0 <= i < |last| ==> -1 <= last[i] < from
      modifies this`last
      ensures |last| == |old(last)|
      ensures forall i :: 0 <= i < |last| ==> last[i] == Folded(Config(), idx.records, i, from, |idx.records|, old(last)[i])
      ensures !changed ==> last == old(last)
    {
      ghost var c, was := Config(), last;
      changed := false;
      forall i | 0 <= i < |last| ensures last[i] == Folded(c, idx.records, i, from, from, was[i]) {}
      var row := from;
      while row < |idx.records|
        invariant from <= row <= |idx.records| && Config() == c && |last| == |was|
        invariant forall i :: 0 <= i < |last| ==> last[i] == Folded(c, idx.records, i, from, row, was[i])
        invariant !changed ==> last == was
      {
        if InRunBound(bounds, idx.records[row]) {
          var moved := FoldRow(row);
          changed := changed || moved;
        }
        row := row + 1;
      }
    }

    method FoldRow(row: nat) returns (changed: bool)
      requires row < |idx.records| && InRunBound(bounds, idx.records[row]) && |last| == |highlighters.rules|
      modifies this`last
      ensures |last| == |old(last)|
      ensures forall i :: 0 <= i < |last| ==> last[i] == if Config().Hit(idx.records[row], i) then row else old(last)[i]
      ensures !changed ==> last == old(last)
    {
      ghost var c, was := Config(), last;
      var rec := idx.records[row];
      var memo := NotDecoded;
      changed := false;
      var i := 0;
      while i < |last|
        invariant 0 <= i <= |last| == |was| && Config() == c
        invariant memo == NotDecoded || memo == Decoded(message(rec))
        invariant forall k :: 0 <= k < i ==> last[k] == if c.Hit(rec, k) then row else was[k]
        invariant forall k :: i <= k < |last| ==> last[k] == was[k]
        invariant !changed ==> last == was
      {
        if last[i] != row && Highlights.Digest in highlighters.rules[i].actions {
          var ok: bool, decodes: nat;
          ok, memo, decodes := highlighters.RuleMatches(i, rec, memo, message(rec));
          if ok {
            last := last[i := row];
            changed := true;
          }
        }
        i := i + 1;
      }
    }

    /** The entries and the strip are those of a rebuild over `before`, within the fence. */
    ghost predicate UpToDate(was: DigestConfig, before: seq<Record>)
      reads this, published, published.compact
    {
      was.highlighters.rules == highlighters.rules && FitsLookback(was, before) && Rebuilt(was, before, last) && Shows(before)
    }

    /** Folds a growth in. Each entry is what a rebuild would find, unless the trailing record
        newly matched its rule; the strip never shows a record as it was before the growth. */
    method UpdateDigestAfterAppend(firstNewRow: nat, provisionalChanged: bool, provisionalRow: int,
                                   ghost was: DigestConfig, ghost before: seq<Record>) returns (republished: bool)
      requires Valid() && Config().Agrees() && firstNewRow == |before| && FitsLookback(Config(), idx.records)
      requires provisionalChanged ==> before != [] && provisionalRow == |before| - 1
      requires Settled(was, before, Config(), idx.records, |before| - (if provisionalChanged then 1 else 0))
      requires |last| == |highlighters.rules| ==> UpToDate(was, before)
      modifies this`last, published, published.compact
      ensures Valid() && idx.records == old(idx.records) && |last| == |highlighters.rules|
      ensures forall i :: 0 <= i < |last| && old(|last| == |highlighters.rules|) ==>
                            (last[i] == Found(Config(), idx.records, i, 0, |idx.records|)
                             <==> !(provisionalChanged && NewlyMatched(was, before, Config(), idx.records, i)))
      ensures old(|last| == |highlighters.rules|) ==> Shows(idx.records)
      ensures old(|last| != |highlighters.rules|) ==> Rebuilt(Config(), idx.records, last)
      ensures !republished ==> published.visible == old(published.visible)
    {
      hide Listing, Found, Newest, Folded, NewlyMatched, DigestConfig.Hit, InBound;
      ghost var c := Config();
      var any := AnyDigestEnabled();
      if !any {
        last := seq(|highlighters.rules|, _ => -1);
        NothingMatches(c, was, before, idx.records);
        EmptyDigest(c, idx.records, last);
        republished := PublishDigest(false);
        return;
      }
      if |last| != |highlighters.rules| {
        RebuildDigest();
        return true;
      }
      ghost var entries := last;
      var changed, staleRow := UpdateEntries(firstNewRow, provisionalChanged, provisionalRow, was, before);
      if !changed { ListingAgrees(before, idx.records, last); }
      republished := Republish(changed, staleRow, before, provisionalChanged);
    }

    /** The entries: first those the grown trailing record may have lost, then the new rows. */
    method UpdateEntries(firstNewRow: nat, provisionalChanged: bool, provisionalRow: int, ghost was: DigestConfig, ghost before: seq<Record>)
      returns (changed: bool, staleRow: bool)
      requires firstNewRow == |before| <= |idx.records| && FitsLookback(Config(), idx.records)
      requires provisionalChanged ==> before != [] && provisionalRow == |before| - 1
      requires Settled(was, before, Config(), idx.records, |before| - (if provisionalChanged then 1 else 0))
      requires |last| == |highlighters.rules| && was.highlighters.rules == highlighters.rules
      requires FitsLookback(was, before) && Rebuilt(was, before, last)
      modifies this`last
      ensures |last| == |old(last)|
      ensures forall i :: 0 <= i < |last| ==>
                            -1 <= last[i] < |idx.records|
                            && (last[i] == Found(Config(), idx.records, i, 0, |idx.records|)
                                <==> !(provisionalChanged && NewlyMatched(was, before, Config(), idx.records, i)))
      ensures !changed ==> last == old(last) && forall i :: 0 <= i < |last| ==> last[i] < |before|
      ensures provisionalChanged && !(changed && staleRow) ==> |before| - 1 !in last
    {
      hide Found, Newest, Folded, NewlyMatched, DigestConfig.Hit, InBound;
      ghost var c, entries := Config(), last;
      RebuiltIsNewest(was, before, last);
      EntriesAskForDigest(was, before, last);
      changed, staleRow := false, false;
      if provisionalChanged && 0 <= provisionalRow < |idx.records| {
        changed, staleRow := RefindProvisional(provisionalRow);
      }
      ghost var mid := last;
      var moved := FoldNew(firstNewRow);
      changed := changed || moved;
      EntriesReach(was, before, c, idx.records, entries, mid, last, provisionalChanged);
    }

    /** Publishes what moved, and anything behind which the record itself changed. */
    method Republish(changed: bool, staleRow: bool, ghost before: seq<Record>, ghost provisionalChanged: bool) returns (republished: bool)
      requires Valid() && |before| <= |idx.records| && Copies(before, published.visible, published.compact.records)
      requires forall i :: 0 <= i < |last| ==> -1 <= last[i] < |idx.records|
      requires forall k :: 0 <= k < |before| - (if provisionalChanged then 1 else 0) ==> before[k] == idx.records[k]
      requires provisionalChanged && !(changed && staleRow) ==> |before| - 1 !in last
      requires !changed ==> published.visible == Listing(idx.records, last)
      modifies published, published.compact
      ensures Valid() && idx.records == old(idx.records) && Shows(idx.records)
      ensures republished <==> changed
      ensures !changed ==> published.visible == old(published.visible)
    {
      hide Listing;
      ListingRows(idx.records, last);
      ghost var visible, copies := published.visible, published.compact.records;
      var shown := false;
      if changed { shown := PublishDigest(staleRow); }
      if !shown { StripStays(before, idx.records, last, visible, copies, provisionalChanged); }
      return changed;
    }
  }

  /** With no rule asking, nothing is an answer and nothing is listed. */
  lemma EmptyDigest(c: DigestConfig, records: seq<Record>, last: seq<int>)
    requires c.Agrees() && !c.AnyDigestRule() && |last| == |c.highlighters.rules| && forall i :: 0 <= i < |last| ==> last[i] == -1
    ensures forall i :: 0 <= i < |last| ==> Found(c, records, i, 0, |records|) == -1
    ensures forall i: nat, k :: 0 <= k < |records| ==> !c.Hit(records[k], i)
    ensures Listing(records, last) == []
  {
    forall i | 0 <= i < |last| ensures Found(c, records, i, 0, |records|) == -1 { NoCandidateNoHit(c, records, i, 0); }
    forall i: nat, k | 0 <= k < |records| ensures !c.Hit(records[k], i) { c.OnlyCandidatesHit(records[k], i); }
    ListingRows(records, last);
    HeadIn(Listing(records, last));
  }

  lemma NothingMatches(c: DigestConfig, was: DigestConfig, before: seq<Record>, after: seq<Record>)
    requires c.Agrees() && !c.AnyDigestRule() && |before| <= |after|
    ensures before != [] ==> forall i: nat :: !NewlyMatched(was, before, c, after, i)
  {
    if before != [] {
      var grown := after[|before| - 1];
      forall i: nat ensures !c.Hit(grown, i) { c.OnlyCandidatesHit(grown, i); }
    }
  }

  lemma HeadIn(s: seq<int>)
    ensures s != [] ==> s[0] in s
  {
  }

  /** An entry that names the trailing record belongs to a rule that asks for a digest. */
  lemma EntriesAskForDigest(was: DigestConfig, before: seq<Record>, last: seq<int>)
    requires forall i :: 0 <= i < |last| ==> last[i] == Newest(was, before, i, |before|)
    ensures forall i :: 0 <= i < |last| && last[i] >= 0 ==> i < |was.highlighters.rules| && Highlights.Digest in was.highlighters.rules[i].actions
  {
    forall i | 0 <= i < |last| && last[i] >= 0
      ensures i < |was.highlighters.rules| && Highlights.Digest in was.highlighters.rules[i].actions
    {
      NewestMeaning(was, before, i, |before|);
    }
  }

  lemma EntriesReach(was: DigestConfig, before: seq<Record>, now: DigestConfig, after: seq<Record>,
                     entries: seq<int>, mid: seq<int>, got: seq<int>, changed: bool)
    requires changed ==> before != []
    requires Settled(was, before, now, after, |before| - (if changed then 1 else 0)) && FitsLookback(now, after)
    requires |entries| == |mid| == |got|
    requires forall i :: 0 <= i < |got| ==> entries[i] == Newest(was, before, i, |before|)
    requires forall i :: 0 <= i < |got| ==> mid[i] == if changed then Refound(now, after, i, |before| - 1, entries[i]) else entries[i]
    requires forall i :: 0 <= i < |got| ==> got[i] == Folded(now, after, i, |before|, |after|, mid[i])
    ensures |before| - 1 !in mid ==> |before| - 1 !in got
    ensures forall i :: 0 <= i < |got| ==>
                          -1 <= got[i] < |after| &&
                          (got[i] == Found(now, after, i, 0, |after|) <==> !(changed && NewlyMatched(was, before, now, after, i)))
  {
    forall i | 0 <= i < |got|
      ensures -1 <= got[i] < |after|
      ensures got[i] == Found(now, after, i, 0, |after|) <==> !(changed && NewlyMatched(was, before, now, after, i))
    {
      UpdateReaches(was, before, now, after, i, changed);
      FoundIsNewest(now, after, i, 0, |after|);
    }
  }

  /** Copies taken before the growth still hold, unless the grown record is among them. */
  lemma StripStays(before: seq<Record>, after: seq<Record>, last: seq<int>, visible: seq<int>, copies: seq<Record>, changed: bool)
    requires |before| <= |after| && Copies(before, visible, copies) && forall y :: y in visible ==> y in last
    requires forall k :: 0 <= k < |before| - (if changed then 1 else 0) ==> before[k] == after[k]
    requires changed ==> |before| - 1 !in last
    ensures Copies(after, visible, copies)
  {
    forall k | 0 <= k < |visible| ensures 0 <= visible[k] < |after| && copies[k] == after[visible[k]] {
      assert visible[k] in visible;
    }
  }
}
