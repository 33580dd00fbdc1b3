/** The order the digest lists its records in: by time, with what has no time left in its
    slot. */
module DigestOrders {
  import opened Records
  import opened FilteredIndexes

  ghost predicate InRange(records: seq<Record>, rows: seq<int>) {
    forall k :: 0 <= k < |rows| ==> 0 <= rows[k] < |records|
  }

  /** A row that can be placed in time. */
  predicate Placeable(records: seq<Record>, row: int) {
    0 <= row < |records| && records[row].timestamp != NO_TIMESTAMP
  }

  /** `a` may stand in front of `b`: earlier, or at the same time and written first. */
  predicate Before(records: seq<Record>, a: int, b: int)
    requires 0 <= a < |records| && 0 <= b < |records|
  {
    records[a].timestamp < records[b].timestamp || (records[a].timestamp == records[b].timestamp && a < b)
  }

  ghost predicate InTime(records: seq<Record>, rows: seq<int>)
    requires InRange(records, rows)
  {
    forall j, k :: 0 <= j < k < |rows| ==> Before(records, rows[j], rows[k])
  }

  // ---------------------------------------------------------------------------
  // Sorting
  // ---------------------------------------------------------------------------

  /** Puts a row into an ascending list, once. */
  function Inserted(rows: seq<int>, x: int): seq<int> {
    if rows == [] then [x]
    else
      var last := rows[|rows| - 1];
      if last < x then rows + [x]
      else if last == x then rows
      else Inserted(rows[..|rows| - 1], x) + [last]
  }

  /** Sorted, without duplicates. */
  function Ordinals(rows: seq<int>): seq<int> {
    if rows == [] then [] else Inserted(Ordinals(rows[..|rows| - 1]), rows[|rows| - 1])
  }

  lemma {:induction false} InsertedKeeps(rows: seq<int>, x: int)
    requires StrictlyAscending(rows)
    ensures StrictlyAscending(Inserted(rows, x))
    ensures forall y :: y in Inserted(rows, x) <==> y in rows || y == x
  {
    if rows != [] && rows[|rows| - 1] > x {
      var front := rows[..|rows| - 1];
      InsertedKeeps(front, x);
      assert rows == front + [rows[|rows| - 1]];
      forall k | 0 <= k < |Inserted(front, x)| ensures Inserted(front, x)[k] < rows[|rows| - 1] {
        assert Inserted(front, x)[k] in Inserted(front, x);
      }
    }
  }

  lemma {:induction false} OrdinalsMeaning(rows: seq<int>)
    ensures StrictlyAscending(Ordinals(rows))
    ensures forall y :: y in Ordinals(rows) <==> y in rows
  {
    if rows != [] {
      var front := rows[..|rows| - 1];
      OrdinalsMeaning(front);
      InsertedKeeps(Ordinals(front), rows[|rows| - 1]);
      assert rows == front + [rows[|rows| - 1]];
    }
  }

  /** Puts a row behind everything that is not later than it. */
  function InsertedByTime(records: seq<Record>, rows: seq<int>, x: int): seq<int>
    requires InRange(records, rows) && 0 <= x < |records|
  {
    if rows == [] then [x]
    else if records[rows[|rows| - 1]].timestamp <= records[x].timestamp then rows + [x]
    else InsertedByTime(records, rows[..|rows| - 1], x) + [rows[|rows| - 1]]
  }

  /** A stable sort by timestamp. */
  function ByTime(records: seq<Record>, rows: seq<int>): (sorted: seq<int>)
    requires InRange(records, rows)
    ensures InRange(records, sorted)
  {
    if rows == [] then []
    else
      var front := ByTime(records, rows[..|rows| - 1]);
      InsertedByTimeKeeps(records, front, rows[|rows| - 1]);
      InsertedByTime(records, front, rows[|rows| - 1])
  }

  lemma {:induction false} ByTimeKeeps(records: seq<Record>, rows: seq<int>)
    requires InRange(records, rows)
    ensures multiset(ByTime(records, rows)) == multiset(rows) && |ByTime(records, rows)| == |rows|
  {
    hide InRange;
    if rows != [] {
      var front := rows[..|rows| - 1];
      var x := rows[|rows| - 1];
      FrontInRange(records, rows);
      ByTimeKeeps(records, front);
      InsertedByTimeKeeps(records, ByTime(records, front), x);
      assert rows == front + [x];
      assert |multiset(ByTime(records, rows))| == |multiset(rows)|;
    }
  }

  lemma FrontInRange(records: seq<Record>, rows: seq<int>)
    requires InRange(records, rows) && rows != []
    ensures InRange(records, rows[..|rows| - 1]) && 0 <= rows[|rows| - 1] < |records|
  {
  }

  lemma {:induction false} InsertedByTimeKeeps(records: seq<Record>, rows: seq<int>, x: int)
    requires InRange(records, rows) && 0 <= x < |records|
    ensures InRange(records, InsertedByTime(records, rows, x))
    ensures multiset(InsertedByTime(records, rows, x)) == multiset(rows) + multiset{x}
  {
    if rows != [] {
      var front := rows[..|rows| - 1];
      InsertedByTimeKeeps(records, front, x);
      assert rows == front + [rows[|rows| - 1]];
    }
  }

  lemma {:induction false} InsertedInTime(records: seq<Record>, rows: seq<int>, x: int)
    requires InRange(records, rows) && 0 <= x < |records| && InTime(records, rows)
    requires forall k :: 0 <= k < |rows| ==> rows[k] < x
    ensures InRange(records, InsertedByTime(records, rows, x)) && InTime(records, InsertedByTime(records, rows, x))
  {
    InsertedByTimeKeeps(records, rows, x);
    if rows != [] && records[rows[|rows| - 1]].timestamp > records[x].timestamp {
      var front := rows[..|rows| - 1];
      var last := rows[|rows| - 1];
      InsertedInTime(records, front, x);
      InsertedByTimeKeeps(records, front, x);
      var got := InsertedByTime(records, front, x);
      forall k | 0 <= k < |got| ensures Before(records, got[k], last) {
        assert got[k] in multiset(got);
        assert got[k] == x || got[k] in front;
      }
    }
  }

  /** The stable sort of an ascending list is in time order, ties in the order written. */
  lemma {:induction false} ByTimeInTime(records: seq<Record>, rows: seq<int>)
    requires InRange(records, rows) && StrictlyAscending(rows)
    ensures InTime(records, ByTime(records, rows))
  {
    if rows != [] {
      var front := rows[..|rows| - 1];
      var x := rows[|rows| - 1];
      ByTimeInTime(records, front);
      ByTimeKeeps(records, front);
      var sorted := ByTime(records, front);
      forall k | 0 <= k < |sorted| ensures sorted[k] < x {
        assert sorted[k] in multiset(sorted);
        assert sorted[k] in front;
      }
      InsertedInTime(records, sorted, x);
    }
  }

  // ---------------------------------------------------------------------------
  // Refilling the slots
  // ---------------------------------------------------------------------------

  /** The rows that can be placed in time, in their order. */
  function PlaceableOf(records: seq<Record>, rows: seq<int>): seq<int> {
    if rows == [] then []
    else PlaceableOf(records, rows[..|rows| - 1]) + (if Placeable(records, rows[|rows| - 1]) then [rows[|rows| - 1]] else [])
  }

  /** Every placeable slot takes the next row of `sorted`; the others keep theirs. */
  function Refilled(records: seq<Record>, rows: seq<int>, sorted: seq<int>): (out: seq<int>)
    requires |PlaceableOf(records, rows)| <= |sorted|
    ensures |out| == |rows|
  {
    if rows == [] then []
    else
      var front := rows[..|rows| - 1];
      var x := rows[|rows| - 1];
      Refilled(records, front, sorted) + [if Placeable(records, x) then sorted[|PlaceableOf(records, front)|] else x]
  }

  /** The published order. */
  function DigestOrder(records: seq<Record>, rows: seq<int>): seq<int>
    requires InRange(records, Ordinals(rows))
  {
    var ordinals := Ordinals(rows);
    PlaceableInRange(records, ordinals);
    ByTimeKeeps(records, PlaceableOf(records, ordinals));
    Refilled(records, ordinals, ByTime(records, PlaceableOf(records, ordinals)))
  }

  lemma {:induction false} PlaceableInRange(records: seq<Record>, rows: seq<int>)
    ensures InRange(records, PlaceableOf(records, rows))
    ensures forall k :: 0 <= k < |PlaceableOf(records, rows)| ==> Placeable(records, PlaceableOf(records, rows)[k])
    ensures forall y :: y in PlaceableOf(records, rows) <==> y in rows && Placeable(records, y)
  {
    if rows != [] {
      PlaceableInRange(records, rows[..|rows| - 1]);
      assert rows == rows[..|rows| - 1] + [rows[|rows| - 1]];
    }
  }

  lemma {:induction false} PlaceableAscends(records: seq<Record>, rows: seq<int>)
    requires StrictlyAscending(rows)
    ensures StrictlyAscending(PlaceableOf(records, rows))
  {
    if rows != [] {
      var front := rows[..|rows| - 1];
      PlaceableAscends(records, front);
      PlaceableInRange(records, front);
      forall k | 0 <= k < |PlaceableOf(records, front)| ensures PlaceableOf(records, front)[k] < rows[|rows| - 1] {
        assert PlaceableOf(records, front)[k] in front;
      }
    }
  }

  lemma PlaceableAppend(records: seq<Record>, rows: seq<int>, x: int)
    ensures PlaceableOf(records, rows + [x]) == PlaceableOf(records, rows) + (if Placeable(records, x) then [x] else [])
  {
    assert (rows + [x])[..|rows|] == rows;
  }

  lemma RefilledAppend(records: seq<Record>, rows: seq<int>, x: int, sorted: seq<int>)
    requires |PlaceableOf(records, rows + [x])| <= |sorted|
    ensures var n := |PlaceableOf(records, rows)|;
            n <= |sorted| && (Placeable(records, x) ==> n < |sorted| && sorted[..n + 1] == sorted[..n] + [sorted[n]])
            && Refilled(records, rows + [x], sorted) == Refilled(records, rows, sorted) + [if Placeable(records, x) then sorted[n] else x]
  {
    PlaceableAppend(records, rows, x);
    hide PlaceableOf, Placeable;
    assert (rows + [x])[..|rows + [x]| - 1] == rows;
  }

  /** Slot by slot: what could not be placed stays, and the rest is `sorted` in its order. */
  lemma {:induction false} RefilledSlots(records: seq<Record>, rows: seq<int>, sorted: seq<int>)
    requires |PlaceableOf(records, rows)| <= |sorted| && forall k :: 0 <= k < |sorted| ==> Placeable(records, sorted[k])
    ensures var out := Refilled(records, rows, sorted);
            && (forall k :: 0 <= k < |rows| ==> (Placeable(records, rows[k]) <==> Placeable(records, out[k])))
            && (forall k :: 0 <= k < |rows| && !Placeable(records, rows[k]) ==> out[k] == rows[k])
            && PlaceableOf(records, out) == sorted[..|PlaceableOf(records, rows)|]
  {
    if rows != [] {
      hide PlaceableOf, Refilled, Placeable;
      var front := rows[..|rows| - 1];
      var x := rows[|rows| - 1];
      assert rows == front + [x];
      PlaceableAppend(records, front, x);
      RefilledAppend(records, front, x, sorted);
      RefilledSlots(records, front, sorted);
      PlaceableAppend(records, Refilled(records, front, sorted), if Placeable(records, x) then sorted[|PlaceableOf(records, front)|] else x);
    }
  }

  /** What the refilling puts in and takes out. */
  lemma {:induction false} RefilledRows(records: seq<Record>, rows: seq<int>, sorted: seq<int>)
    requires |PlaceableOf(records, rows)| <= |sorted|
    ensures multiset(Refilled(records, rows, sorted)) + multiset(PlaceableOf(records, rows))
            == multiset(rows) + multiset(sorted[..|PlaceableOf(records, rows)|])
  {
    if rows != [] {
      hide PlaceableOf, Refilled, Placeable;
      var front := rows[..|rows| - 1];
      var x := rows[|rows| - 1];
      assert rows == front + [x];
      PlaceableAppend(records, front, x);
      RefilledAppend(records, front, x, sorted);
      RefilledRows(records, front, sorted);
      var n := |PlaceableOf(records, front)|;
      var y := if Placeable(records, x) then sorted[n] else x;
      assert multiset(Refilled(records, rows, sorted)) == multiset(Refilled(records, front, sorted)) + multiset{y};
      assert multiset(rows) == multiset(front) + multiset{x};
      if Placeable(records, x) {
        assert multiset(PlaceableOf(records, rows)) == multiset(PlaceableOf(records, front)) + multiset{x};
        assert multiset(sorted[..n + 1]) == multiset(sorted[..n]) + multiset{y};
      }
      Exchange(multiset(Refilled(records, front, sorted)), multiset(PlaceableOf(records, front)), multiset(front), multiset(sorted[..n]),
               multiset{x}, multiset{y});
    }
  }

  lemma Exchange(a: multiset<int>, b: multiset<int>, f: multiset<int>, s: multiset<int>, x: multiset<int>, y: multiset<int>)
    requires a + b == f + s
    ensures (a + y) + (b + x) == (f + x) + (s + y)
    ensures (a + x) + b == (f + x) + s
  {
    assert (a + y) + (b + x) == (a + b) + (x + y);
    assert (a + x) + b == (a + b) + x;
  }

  lemma Cancel(a: multiset<int>, b: multiset<int>, c: multiset<int>)
    requires a + c == b + c
    ensures a == b
  {
    forall y ensures a[y] == b[y] {
      assert (a + c)[y] == a[y] + c[y] && (b + c)[y] == b[y] + c[y];
    }
  }

  /** The sorted rows are the placeable ones, in time order. */
  lemma SortedSlots(records: seq<Record>, asc: seq<int>)
    requires InRange(records, asc) && StrictlyAscending(asc)
    ensures InRange(records, PlaceableOf(records, asc))
    ensures var sorted := ByTime(records, PlaceableOf(records, asc));
            && |sorted| == |PlaceableOf(records, asc)| && multiset(sorted) == multiset(PlaceableOf(records, asc))
            && InTime(records, sorted)
            && forall k :: 0 <= k < |sorted| ==> Placeable(records, sorted[k])
  {
    PlaceableInRange(records, asc);
    PlaceableAscends(records, asc);
    var placeable := PlaceableOf(records, asc);
    ByTimeInTime(records, placeable);
    ByTimeKeeps(records, placeable);
    SameMembers(ByTime(records, placeable), placeable);
  }

  lemma SameMembers(a: seq<int>, b: seq<int>)
    requires multiset(a) == multiset(b)
    ensures forall y :: y in a <==> y in b
  {
    forall y ensures y in a <==> y in b {
      assert y in a <==> y in multiset(a);
      assert y in b <==> y in multiset(b);
    }
  }

  /** The published list holds each row once; what has no timestamp keeps the slot it has in
      file order; the rest is in time order, ties in file order. */
  lemma DigestOrderMeaning(records: seq<Record>, rows: seq<int>)
    requires InRange(records, Ordinals(rows))
    ensures var asc := Ordinals(rows);
            var out := DigestOrder(records, rows);
            && |out| == |asc| && multiset(out) == multiset(asc)
            && InRange(records, out)
            && (forall k :: 0 <= k < |asc| && !Placeable(records, asc[k]) ==> out[k] == asc[k])
            && (forall k :: 0 <= k < |asc| ==> (Placeable(records, asc[k]) <==> Placeable(records, out[k])))
            && InRange(records, PlaceableOf(records, out)) && InTime(records, PlaceableOf(records, out))
  {
    hide PlaceableOf, ByTime, Refilled, Ordinals;
    var asc := Ordinals(rows);
    OrdinalsMeaning(rows);
    SortedSlots(records, asc);
    var sorted := ByTime(records, PlaceableOf(records, asc));
    assert sorted[..|sorted|] == sorted;
    RefilledSlots(records, asc, sorted);
    RefilledRows(records, asc, sorted);
    assert DigestOrder(records, rows) == Refilled(records, asc, sorted);
    Cancel(multiset(DigestOrder(records, rows)), multiset(asc), multiset(sorted));
    SameMembers(DigestOrder(records, rows), asc);
  }

  lemma {:induction false} PairsOfPlaceable(records: seq<Record>, rows: seq<int>, j: nat, k: nat)
    requires InRange(records, rows) && InRange(records, PlaceableOf(records, rows)) && InTime(records, PlaceableOf(records, rows))
    requires j < k < |rows| && Placeable(records, rows[j]) && Placeable(records, rows[k])
    ensures Before(records, rows[j], rows[k])
    decreases |rows|
  {
    var front, last := rows[..|rows| - 1], rows[|rows| - 1];
    var all := PlaceableOf(records, rows);
    PlaceableInRange(records, front);
    if k < |front| {
      assert forall i :: 0 <= i < |PlaceableOf(records, front)| ==> PlaceableOf(records, front)[i] == all[i];
      PairsOfPlaceable(records, front, j, k);
    } else {
      assert rows[j] in front;
      var i :| 0 <= i < |PlaceableOf(records, front)| && PlaceableOf(records, front)[i] == rows[j];
      assert all[i] == rows[j] && all[|all| - 1] == last;
    }
  }

  /** Told of the records alone: a record without a timestamp stands where it stands in file order,
      and of two with one the earlier stands first, or the one written first. */
  lemma DigestOrderReads(records: seq<Record>, rows: seq<int>)
    requires InRange(records, Ordinals(rows))
    ensures var asc := Ordinals(rows);
            var out := DigestOrder(records, rows);
            && |out| == |asc| && InRange(records, out)
            && (forall k :: 0 <= k < |asc| && records[asc[k]].timestamp == NO_TIMESTAMP ==> out[k] == asc[k])
            && (forall k :: 0 <= k < |asc| && records[asc[k]].timestamp != NO_TIMESTAMP ==> records[out[k]].timestamp != NO_TIMESTAMP)
            && forall j, k :: 0 <= j < k < |out| && records[out[j]].timestamp != NO_TIMESTAMP && records[out[k]].timestamp != NO_TIMESTAMP ==>
                 records[out[j]].timestamp < records[out[k]].timestamp
                 || (records[out[j]].timestamp == records[out[k]].timestamp && out[j] < out[k])
  {
    DigestOrderMeaning(records, rows);
    var out := DigestOrder(records, rows);
    hide DigestOrder, PlaceableOf, InTime;
    forall j, k | 0 <= j < k < |out| && records[out[j]].timestamp != NO_TIMESTAMP && records[out[k]].timestamp != NO_TIMESTAMP
      ensures Before(records, out[j], out[k])
    {
      PairsOfPlaceable(records, out, j, k);
    }
  }
}
