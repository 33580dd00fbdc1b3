/** The visible subset: source ordinals, context flags and copies of the visible records,
    edited at the tail as the log grows. */
module FilteredIndexes {
  import opened Records
  import opened RecordIndexes
  import opened ContextEmitter

  predicate StrictlyAscending(v: seq<int>) {
    forall i, j :: 0 <= i < j < |v| ==> v[i] < v[j]
  }

  function ContextRows(context: seq<bool>): (n: nat) {
    if context == [] then 0
    else ContextRows(context[..|context| - 1]) + (if context[|context| - 1] then 1 else 0)
  }

  lemma ContextRowsAppend(context: seq<bool>, c: bool)
    ensures ContextRows(context + [c]) == ContextRows(context) + (if c then 1 else 0)
  {
    assert (context + [c])[..|context|] == context;
  }

  /** It is how many there are. */
  lemma {:induction false} ContextRowsCount(context: seq<bool>)
    ensures ContextRows(context) == multiset(context)[true]
  {
    if context != [] {
      ContextRowsCount(context[..|context| - 1]);
      assert context == context[..|context| - 1] + [context[|context| - 1]];
    }
  }

  function Zip(visible: seq<int>, context: seq<bool>): seq<Emitted>
    requires |visible| == |context|
  {
    seq(|visible|, i requires 0 <= i < |visible| => Emitted(visible[i], context[i]))
  }

  /** Whether every listed row names a record of `records` and `copies` holds exactly those. */
  ghost predicate Copies(records: seq<Record>, visible: seq<int>, copies: seq<Record>) {
    |copies| == |visible| && forall i :: 0 <= i < |visible| ==> 0 <= visible[i] < |records| && copies[i] == records[visible[i]]
  }

  class FilteredIndex {
    const source: RecordIndex
    const compact: RecordIndex
    var active: bool
    var ascending: bool
    var visible: seq<int>
    var context: seq<bool>
    var contextCount: nat

    constructor (source: RecordIndex)
      ensures this.source == source && fresh(compact) && compact != source
      ensures Valid() && !active && compact.records == []
    {
      this.source := source;
      compact := new RecordIndex();
      active, ascending := false, true;
      visible, context, contextCount := [], [], 0;
    }

    ghost predicate Valid()
      reads this, compact
    {
      && source != compact
      && |visible| == |context| == |compact.records|
      && contextCount == ContextRows(context)
      && (ascending ==> StrictlyAscending(visible))
      && (!active ==> visible == [])
    }

    /** The subset as the emitter's list. */
    function View(): seq<Emitted>
      reads this
      requires |visible| == |context|
    {
      Zip(visible, context)
    }

    /** Builds the subset from the ordinals a filter or the digest publishes. */
    method SetVisible(rows: seq<int>, flags: seq<bool>)
      requires Valid()
      requires |flags| == 0 || |flags| == |rows|
      requires forall i :: 0 <= i < |rows| ==> 0 <= rows[i] < |source.records|
      modifies this, compact
      ensures Valid() && active
      ensures visible == rows && context == (if |flags| == 0 then seq(|rows|, _ => false) else flags)
      ensures ascending <==> StrictlyAscending(rows)
      ensures Copies(source.records, visible, compact.records) && compact.SumsFresh()
      ensures source.records == old(source.records)
    {
      visible := rows;
      context := if |flags| == 0 then seq(|rows|, _ => false) else flags;
      contextCount := CountContext(context);
      compact.records := CopyRecords(source.records, visible);
      compact.RebuildBlockSums();
      ascending := IsAscending(visible);
      active := true;
    }

    static method CountContext(context: seq<bool>) returns (n: nat)
      ensures n == ContextRows(context)
    {
      n := 0;
      var i := 0;
      while i < |context|
        invariant 0 <= i <= |context| && n == ContextRows(context[..i])
      {
        assert context[..i + 1] == context[..i] + [context[i]];
        ContextRowsAppend(context[..i], context[i]);
        n := n + (if context[i] then 1 else 0);
        i := i + 1;
      }
      assert context[..i] == context;
    }

    static method CopyRecords(records: seq<Record>, rows: seq<int>) returns (copies: seq<Record>)
      requires forall i :: 0 <= i < |rows| ==> 0 <= rows[i] < |records|
      ensures Copies(records, rows, copies)
    {
      copies := [];
      var i := 0;
      while i < |rows|
        invariant 0 <= i <= |rows| && |copies| == i
        invariant forall k :: 0 <= k < i ==> copies[k] == records[rows[k]]
      {
        copies := copies + [records[rows[i]]];
        i := i + 1;
      }
    }

    static method IsAscending(rows: seq<int>) returns (b: bool)
      ensures b <==> StrictlyAscending(rows)
    {
      var i := 1;
      while i < |rows|
        invariant 1 <= i
        invariant forall a, c :: 0 <= a < c < i && c < |rows| ==> rows[a] < rows[c]
      {
        if rows[i] <= rows[i - 1] { return false; }
        i := i + 1;
      }
      return true;
    }

    /** Back to the identity view. */
    method Clear()
      requires Valid()
      modifies this, compact
      ensures Valid() && !active && compact.records == [] && contextCount == 0 && ascending
    {
      active := false;
      visible, context, contextCount := [], [], 0;
      ascending := true;
      compact.records := [];
      compact.blockSums := [];
    }

    method RecordCount() returns (n: nat)
      requires Valid()
      ensures n == if active then |visible| else |source.records|
    {
      n := if active then |compact.records| else |source.records|;
    }

    method SourceRow(viewRow: int) returns (row: int)
      requires Valid()
      ensures row == if !active then (if 0 <= viewRow < |source.records| then viewRow else -1)
                     else (if 0 <= viewRow < |visible| then visible[viewRow] else -1)
    {
      if !active {
        row := if 0 <= viewRow < |source.records| then viewRow else -1;
      } else {
        row := if 0 <= viewRow < |visible| then visible[viewRow] else -1;
      }
    }

    /** First view row whose ordinal is at least `row`. */
    method LowerBound(row: int) returns (k: nat)
      requires Valid() && ascending
      ensures k <= |visible|
      ensures forall i :: 0 <= i < k ==> visible[i] < row
      ensures forall i :: k <= i < |visible| ==> visible[i] >= row
    {
      var lo, hi := 0, |visible|;
      while lo < hi
        invariant 0 <= lo <= hi <= |visible|
        invariant forall i :: 0 <= i < lo ==> visible[i] < row
        invariant forall i :: hi <= i < |visible| ==> visible[i] >= row
      {
        var mid := (lo + hi) / 2;
        if visible[mid] < row { lo := mid + 1; } else { hi := mid; }
      }
      k := lo;
    }

    /** The inverse of SourceRow, for an ascending subset and for the digest's order alike. */
    method ViewRowOf(sourceRow: int) returns (r: int)
      requires Valid()
      ensures !active ==> r == if 0 <= sourceRow < |source.records| then sourceRow else -1
      ensures active && r != -1 ==> 0 <= r < |visible| && visible[r] == sourceRow
      ensures active && r == -1 ==> sourceRow !in visible
    {
      var n := RecordCount();
      if !active {
        return if 0 <= sourceRow < n then sourceRow else -1;
      }
      if ascending {
        var k := LowerBound(sourceRow);
        return if k < n && visible[k] == sourceRow then k else -1;
      }
      var i := 0;
      while i < |visible|
        invariant 0 <= i <= |visible| && sourceRow !in visible[..i]
      {
        if visible[i] == sourceRow { return i; }
        i := i + 1;
      }
      return -1;
    }

    /** The first row of the view that shows `sourceRow` or something behind it. */
    method ViewRowAtOrAfter(sourceRow: int) returns (r: nat)
      requires Valid() && (active ==> ascending)
      ensures !active ==> r == if sourceRow < 0 then 0 else if sourceRow > |source.records| then |source.records| else sourceRow
      ensures active ==> r <= |visible| && (forall i :: 0 <= i < r ==> visible[i] < sourceRow)
                         && (forall i :: r <= i < |visible| ==> visible[i] >= sourceRow)
    {
      var n := RecordCount();
      if !active {
        return if sourceRow < 0 then 0 else if sourceRow > n then n else sourceRow;
      }
      r := LowerBound(sourceRow);
    }

    method LastMatchSource() returns (row: int)
      requires Valid()
      ensures row == LastMatchRow(View())
    {
      var i := |visible| - 1;
      assert View()[..i + 1] == View();
      while i >= 0
        invariant -1 <= i < |visible|
        invariant LastMatchRow(View()) == LastMatchRow(View()[..i + 1])
      {
        assert View()[..i + 1][..i] == View()[..i];
        if !context[i] { return visible[i]; }
        i := i - 1;
      }
      return -1;
    }

    method TrailingCountFrom(minSourceRow: int) returns (n: nat)
      requires Valid()
      ensures n == TrailingFrom(View(), minSourceRow) && n <= |visible|
    {
      n := 0;
      var i := |visible| - 1;
      assert View()[..i + 1] == View();
      while i >= 0 && visible[i] >= minSourceRow
        invariant -1 <= i < |visible| && n == |visible| - 1 - i
        invariant TrailingFrom(View(), minSourceRow) == n + TrailingFrom(View()[..i + 1], minSourceRow)
      {
        assert View()[..i + 1][..i] == View()[..i];
        n := n + 1;
        i := i - 1;
      }
    }

    method LastVisibleSource() returns (row: int)
      requires Valid()
      ensures row == LastRow(View())
    {
      row := if visible == [] then -1 else visible[|visible| - 1];
    }

    /** Drops the newest visible row; the block sums are repaired afterwards, once. */
    method PopLastVisible()
      requires Valid()
      modifies this, compact`records
      ensures Valid() && active == old(active)
      ensures var n := |old(visible)|;
              var k := if n == 0 then 0 else n - 1;
              visible == old(visible)[..k] && context == old(context)[..k]
              && compact.records == old(compact.records)[..k]
      ensures ascending == old(ascending)
    {
      if visible != [] {
        var n := |visible|;
        contextCount := contextCount - (if context[n - 1] then 1 else 0);
        context := context[..n - 1];
        visible := visible[..n - 1];
        compact.records := compact.records[..n - 1];
      }
    }

    method AppendVisible(sourceRow: int, rec: Record, isContext: bool)
      requires Valid() && active
      modifies this, compact`records
      ensures Valid() && active
      ensures visible == old(visible) + [sourceRow] && context == old(context) + [isContext]
      ensures compact.records == old(compact.records) + [rec]
      ensures ascending == (old(ascending) && (old(visible) == [] || old(visible)[|old(visible)| - 1] < sourceRow))
    {
      ContextRowsAppend(context, isContext);
      ascending := ascending && (visible == [] || visible[|visible| - 1] < sourceRow);
      visible := visible + [sourceRow];
      context := context + [isContext];
      contextCount := contextCount + (if isContext then 1 else 0);
      compact.records := compact.records + [rec];
    }
  }
}
