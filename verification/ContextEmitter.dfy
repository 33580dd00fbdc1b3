/** Filter context ("grep -B/-A"): the forward pass that emits the visible subset of a log,
    stated first as a declarative set of rows and then as the pass the program runs. */
module ContextEmitter {

  /** What the two callables answer for one row: `inBound` is the stream being searched,
      `matches` the search itself, asked for in-bound rows only. */
  datatype RowFlags = RowFlags(inBound: bool, matches: bool)

  /** One call of the sink. */
  datatype Emitted = Emitted(row: int, isContext: bool)

  /** The state carried between calls. -1 stands for "none yet". */
  datatype ContextState = ContextState(lastEmitted: int, lastMatch: int, sinceMatch: nat)

  const FRESH := ContextState(-1, -1, 0)

  function Min(a: int, b: int): int { if a < b then a else b }

  // ---------------------------------------------------------------------------
  // The declarative specification
  // ---------------------------------------------------------------------------

  /** How many rows of [lo, hi) are in bound. */
  ghost function InBoundCount(s: seq<RowFlags>, lo: int, hi: int): (c: nat)
    requires 0 <= lo && hi <= |s|
    decreases hi - lo
  {
    if hi <= lo then 0
    else InBoundCount(s, lo, hi - 1) + (if s[hi - 1].inBound then 1 else 0)
  }

  predicate IsMatch(s: seq<RowFlags>, m: int) {
    0 <= m < |s| && s[m].inBound && s[m].matches
  }

  /** `q` lies at most `before` in-bound places ahead of the match `m`. */
  ghost predicate LeadOf(s: seq<RowFlags>, q: int, m: int, before: nat) {
    0 <= q < m && IsMatch(s, m) && InBoundCount(s, q, m) <= before
  }

  /** `q` lies at most `after` in-bound places behind the match `m`. */
  ghost predicate TrailOf(s: seq<RowFlags>, q: int, m: int, after: nat)
    requires q < |s|
  {
    m < q && IsMatch(s, m) && InBoundCount(s, m + 1, q + 1) <= after
  }

  /** `q` belongs to the view of the first `n` rows: in bound, and a match or near one. */
  ghost predicate Visible(s: seq<RowFlags>, n: int, q: int, before: nat, after: nat)
    requires n <= |s|
  {
    0 <= q < n && s[q].inBound &&
    (s[q].matches
     || (exists m :: m < n && LeadOf(s, q, m, before))
     || (exists m :: TrailOf(s, q, m, after)))
  }

  /** The entries of the rows below `k`, in ascending order, that the view of the first
      `n` rows holds. */
  ghost function VisibleBelow(s: seq<RowFlags>, n: int, k: int, before: nat, after: nat): seq<Emitted>
    requires 0 <= k <= n <= |s|
    decreases k
  {
    if k == 0 then []
    else VisibleBelow(s, n, k - 1, before, after)
         + (if Visible(s, n, k - 1, before, after) then [Emitted(k - 1, !s[k - 1].matches)] else [])
  }

  /** The whole view, as a one-shot search of all the rows defines it. */
  ghost function Widened(s: seq<RowFlags>, before: nat, after: nat): seq<Emitted> {
    VisibleBelow(s, |s|, |s|, before, after)
  }

  ghost predicate Ascending(es: seq<Emitted>) {
    forall i, j :: 0 <= i < j < |es| ==> es[i].row < es[j].row
  }

  // ---------------------------------------------------------------------------
  // The pass, as a function and as the loop
  // ---------------------------------------------------------------------------

  /** The leading window: the last `need` in-bound rows of (floor, q], ascending. */
  function Lead(s: seq<RowFlags>, q: int, floor: int, need: int): seq<Emitted>
    requires -1 <= floor && q < |s|
    decreases q - floor
  {
    if q <= floor || need <= 0 then []
    else if s[q].inBound then Lead(s, q - 1, floor, need - 1) + [Emitted(q, true)]
    else Lead(s, q - 1, floor, need)
  }

  /** One row of the pass: what it writes and the state it leaves. */
  function Step(s: seq<RowFlags>, r: int, before: nat, after: nat, st: ContextState): (ContextState, seq<Emitted>)
    requires 0 <= r < |s| && -1 <= st.lastEmitted
  {
    if !s[r].inBound then (st, [])
    else if s[r].matches then
      (ContextState(r, r, 0), Lead(s, r - 1, st.lastEmitted, before) + [Emitted(r, false)])
    else if st.lastMatch >= 0 && st.sinceMatch < after then
      (ContextState(r, st.lastMatch, st.sinceMatch + 1), [Emitted(r, true)])
    else (st, [])
  }

  /** The pass over [r, hi). */
  function Pass(s: seq<RowFlags>, r: int, hi: int, before: nat, after: nat, st: ContextState): (ContextState, seq<Emitted>)
    requires 0 <= r && hi <= |s| && -1 <= st.lastEmitted
    decreases hi - r
  {
    if r >= hi then (st, [])
    else
      var (st1, e1) := Step(s, r, before, after, st);
      var (st2, e2) := Pass(s, r + 1, hi, before, after, st1);
      (st2, e1 + e2)
  }

  /** The program's loop: rows forward, and for each match a walk back that gathers the
      leading window descending into a buffer and emits it ascending. */
  method EmitWithContext(s: seq<RowFlags>, first: int, last: int, before: nat, after: nat, start: ContextState)
    returns (st: ContextState, out: seq<Emitted>)
    requires last < |s| && -1 <= start.lastEmitted
    ensures (st, out) == Pass(s, if first < 0 then 0 else first, last + 1, before, after, start)
  {
    st := start;
    out := [];
    var from := if first < 0 then 0 else first;
    ghost var whole := Pass(s, from, last + 1, before, after, start);
    assert out + whole.1 == whole.1;
    var r := from;
    while r <= last
      invariant from <= r && -1 <= st.lastEmitted
      invariant whole == (Pass(s, r, last + 1, before, after, st).0,
                          out + Pass(s, r, last + 1, before, after, st).1)
      decreases last - r
    {
      ghost var was, state := out, st;
      hide Step, Lead;
      st, out := EmitRow(s, r, before, after, st, out);
      ghost var rest := Pass(s, r + 1, last + 1, before, after, st);
      assert was + (Step(s, r, before, after, state).1 + rest.1) == out + rest.1;
      r := r + 1;
    }
    assert out + [] == out;
  }

  /** One row of the loop. */
  method EmitRow(s: seq<RowFlags>, r: int, before: nat, after: nat, was: ContextState, written: seq<Emitted>)
    returns (st: ContextState, out: seq<Emitted>)
    requires 0 <= r < |s| && -1 <= was.lastEmitted
    ensures st == Step(s, r, before, after, was).0 && out == written + Step(s, r, before, after, was).1
    ensures -1 <= st.lastEmitted
  {
    st, out := was, written;
    if s[r].inBound {
      if s[r].matches {
        var lead := GatherLead(s, r - 1, st.lastEmitted, before);
        var k := |lead| - 1;
        while k >= 0
          invariant -1 <= k < |lead|
          invariant out == written + Lead(s, r - 1, was.lastEmitted, before)[..|lead| - 1 - k]
        {
          out := out + [Emitted(lead[k], true)];
          k := k - 1;
        }
        out := out + [Emitted(r, false)];
        st := ContextState(r, r, 0);
      } else if st.lastMatch >= 0 && st.sinceMatch < after {
        out := out + [Emitted(r, true)];
        st := ContextState(r, st.lastMatch, st.sinceMatch + 1);
      }
    }
  }

  /** The walk back of one match: rows are gathered newest first. */
  method GatherLead(s: seq<RowFlags>, q0: int, floor: int, before: nat) returns (lead: seq<int>)
    requires -1 <= floor && q0 < |s|
    ensures |lead| == |Lead(s, q0, floor, before)|
    ensures forall k :: 0 <= k < |lead| ==> Lead(s, q0, floor, before)[|lead| - 1 - k] == Emitted(lead[k], true)
  {
    lead := [];
    var q := q0;
    while q > floor && |lead| < before
      invariant q <= q0 && |lead| <= before
      invariant |Lead(s, q0, floor, before)| == |Lead(s, q, floor, before - |lead|)| + |lead|
      invariant Lead(s, q, floor, before - |lead|) <= Lead(s, q0, floor, before)
      invariant forall k :: 0 <= k < |lead| ==>
                              Lead(s, q0, floor, before)[|Lead(s, q0, floor, before)| - 1 - k] == Emitted(lead[k], true)
    {
      if s[q].inBound {
        lead := lead + [q];
      }
      q := q - 1;
    }
  }

  // ---------------------------------------------------------------------------
  // Reading the state back off an emitted list
  // ---------------------------------------------------------------------------

  function LastRow(es: seq<Emitted>): int {
    if es == [] then -1 else es[|es| - 1].row
  }

  function LastMatchRow(es: seq<Emitted>): int {
    if es == [] then -1
    else if !es[|es| - 1].isContext then es[|es| - 1].row
    else LastMatchRow(es[..|es| - 1])
  }

  /** How many trailing entries have a row at or above `min`. */
  function TrailingFrom(es: seq<Emitted>, min: int): (n: nat)
    ensures n <= |es|
  {
    if es == [] || es[|es| - 1].row < min then 0
    else 1 + TrailingFrom(es[..|es| - 1], min)
  }

  /** The state the live path rebuilds; nothing is cached between ticks. */
  function Rebuilt(es: seq<Emitted>): ContextState {
    var lm := LastMatchRow(es);
    ContextState(LastRow(es), lm, if lm >= 0 then TrailingFrom(es, lm + 1) else 0)
  }

  // ---------------------------------------------------------------------------
  // Counting
  // ---------------------------------------------------------------------------

  lemma {:induction false} CountSplit(s: seq<RowFlags>, lo: int, mid: int, hi: int)
    requires 0 <= lo <= mid <= hi <= |s|
    ensures InBoundCount(s, lo, hi) == InBoundCount(s, lo, mid) + InBoundCount(s, mid, hi)
    decreases hi - mid
  {
    if mid < hi { CountSplit(s, lo, mid, hi - 1); }
  }

  /** Widening an interval never lowers its count. */
  lemma CountGrows(s: seq<RowFlags>, lo: int, lo': int, hi': int, hi: int)
    requires 0 <= lo <= lo' <= hi' <= hi <= |s|
    ensures InBoundCount(s, lo', hi') <= InBoundCount(s, lo, hi)
  {
    CountSplit(s, lo, lo', hi);
    CountSplit(s, lo', hi', hi);
  }

  lemma {:induction false} CountAgrees(s: seq<RowFlags>, t: seq<RowFlags>, lo: int, hi: int)
    requires 0 <= lo && hi <= |s| && hi <= |t|
    requires forall i :: lo <= i < hi ==> s[i] == t[i]
    ensures InBoundCount(s, lo, hi) == InBoundCount(t, lo, hi)
    decreases hi - lo
  {
    if lo < hi { CountAgrees(s, t, lo, hi - 1); }
  }

  // ---------------------------------------------------------------------------
  // The view as a list
  // ---------------------------------------------------------------------------

  /** The view holds exactly the visible rows, once each, ascending, flagged as context
      exactly when the row is not itself a match. */
  lemma {:induction false} VisibleBelowExact(s: seq<RowFlags>, n: int, k: int, before: nat, after: nat)
    requires 0 <= k <= n <= |s|
    ensures Ascending(VisibleBelow(s, n, k, before, after))
    ensures forall e :: e in VisibleBelow(s, n, k, before, after) <==>
                        e.row < k && Visible(s, n, e.row, before, after) && e.isContext == !s[e.row].matches
    decreases k
  {
    if k > 0 {
      VisibleBelowExact(s, n, k - 1, before, after);
      var prev := VisibleBelow(s, n, k - 1, before, after);
      var here := VisibleBelow(s, n, k, before, after);
      assert forall i :: 0 <= i < |prev| ==> prev[i] in prev && here[i] == prev[i];
      forall e ensures e in here <==> e.row < k && Visible(s, n, e.row, before, after) && e.isContext == !s[e.row].matches {
        if Visible(s, n, k - 1, before, after) {
          assert here == prev + [Emitted(k - 1, !s[k - 1].matches)];
          assert e in here <==> e in prev || e == Emitted(k - 1, !s[k - 1].matches);
        } else {
          assert here == prev;
        }
      }
    }
  }

  /** A stretch with no visible row adds nothing. */
  lemma {:induction false} VisibleBelowSkip(s: seq<RowFlags>, n: int, k: int, k': int, before: nat, after: nat)
    requires 0 <= k <= k' <= n <= |s|
    requires forall q :: k <= q < k' ==> !Visible(s, n, q, before, after)
    ensures VisibleBelow(s, n, k', before, after) == VisibleBelow(s, n, k, before, after)
    decreases k' - k
  {
    if k < k' { VisibleBelowSkip(s, n, k, k' - 1, before, after); }
  }

  /** Two searches that agree on every row below `k` list the same entries there. */
  lemma {:induction false} VisibleBelowAgrees(s: seq<RowFlags>, n: int, t: seq<RowFlags>, n': int, k: int, before: nat, after: nat)
    requires 0 <= k <= n <= |s| && k <= n' <= |t|
    requires forall q :: 0 <= q < k ==> Visible(s, n, q, before, after) == Visible(t, n', q, before, after)
    requires forall q :: 0 <= q < k ==> s[q] == t[q]
    ensures VisibleBelow(s, n, k, before, after) == VisibleBelow(t, n', k, before, after)
    decreases k
  {
    if k > 0 { VisibleBelowAgrees(s, n, t, n', k - 1, before, after); }
  }

  lemma VisibleGrows(s: seq<RowFlags>, n: int, n': int, q: int, before: nat, after: nat)
    requires n <= n' <= |s|
    requires Visible(s, n, q, before, after)
    ensures Visible(s, n', q, before, after)
  {
  }

  /** The suffix invariant: at or below a row already shown, later matches add nothing. */
  lemma SuffixClosed(s: seq<RowFlags>, n: int, n': int, q: int, e: int, before: nat, after: nat)
    requires n <= n' <= |s| && q <= e
    requires Visible(s, n, e, before, after) && Visible(s, n', q, before, after)
    ensures Visible(s, n, q, before, after)
  {
    if q < e && !s[q].matches && !(exists m :: TrailOf(s, q, m, after)) {
      var m :| m < n' && LeadOf(s, q, m, before);
      if m >= n {
        if s[e].matches {
          CountGrows(s, q, q, e, m);
          assert LeadOf(s, q, e, before);
        } else if exists m1 :: m1 < n && LeadOf(s, e, m1, before) {
          var m1 :| m1 < n && LeadOf(s, e, m1, before);
          CountGrows(s, q, q, m1, m);
          assert LeadOf(s, q, m1, before);
        } else {
          var m2 :| TrailOf(s, e, m2, after);
          if q < m2 {
            CountGrows(s, q, q, m2, m);
            assert LeadOf(s, q, m2, before);
          } else if q > m2 {
            CountGrows(s, m2 + 1, m2 + 1, q + 1, e + 1);
            assert TrailOf(s, q, m2, after);
          }
        }
      }
    }
  }

  // ---------------------------------------------------------------------------
  // The pass produces the view
  // ---------------------------------------------------------------------------

  ghost predicate IsLastMatch(s: seq<RowFlags>, r: int, lm: int) {
    -1 <= lm < r && (lm >= 0 ==> IsMatch(s, lm)) && forall m :: lm < m < r ==> !IsMatch(s, m)
  }

  /** What holds when the pass stands in front of row `r` with `es` already written. */
  ghost predicate Good(s: seq<RowFlags>, r: int, st: ContextState, es: seq<Emitted>, before: nat, after: nat) {
    && -1 <= st.lastEmitted < r <= |s|
    && es == VisibleBelow(s, |s|, st.lastEmitted + 1, before, after)
    && (forall q :: st.lastEmitted < q < r ==> !Visible(s, r, q, before, after))
    && IsLastMatch(s, r, st.lastMatch)
    && (st.lastMatch >= 0 ==> Min(st.sinceMatch, after) == Min(InBoundCount(s, st.lastMatch + 1, r), after))
  }

  lemma {:induction false} LeadIsVisible(s: seq<RowFlags>, r: int, x: int, floor: int, before: nat, after: nat)
    requires -1 <= floor <= x < r < |s|
    requires InBoundCount(s, x + 1, r) <= before
    requires forall q :: floor < q <= x ==>
                           (Visible(s, |s|, q, before, after) <==> s[q].inBound && InBoundCount(s, q, r) <= before)
    requires forall q :: floor < q <= x && s[q].inBound ==> !s[q].matches
    ensures VisibleBelow(s, |s|, floor + 1, before, after) + Lead(s, x, floor, before - InBoundCount(s, x + 1, r))
            == VisibleBelow(s, |s|, x + 1, before, after)
    decreases x - floor
  {
    var need := before - InBoundCount(s, x + 1, r);
    if x == floor {
    } else if need == 0 {
      forall q | floor < q <= x ensures !Visible(s, |s|, q, before, after) {
        if s[q].inBound {
          CountSplit(s, q, q + 1, r);
          CountGrows(s, q + 1, x + 1, r, r);
          assert InBoundCount(s, q, q + 1) == 1;
        }
      }
      VisibleBelowSkip(s, |s|, floor + 1, x + 1, before, after);
    } else {
      CountSplit(s, x, x + 1, r);
      assert InBoundCount(s, x, x + 1) == if s[x].inBound then 1 else 0;
      LeadIsVisible(s, r, x - 1, floor, before, after);
    }
  }

  /** A row not shown before the match `r` is shown exactly when `r`'s window reaches it. */
  lemma AheadOfMatch(s: seq<RowFlags>, r: int, q: int, before: nat, after: nat)
    requires 0 <= q < r < |s| && IsMatch(s, r) && !Visible(s, r, q, before, after)
    ensures Visible(s, |s|, q, before, after) <==> s[q].inBound && InBoundCount(s, q, r) <= before
    ensures s[q].inBound ==> !s[q].matches
  {
    if Visible(s, |s|, q, before, after) {
      var m :| m < |s| && LeadOf(s, q, m, before);
      CountGrows(s, q, q, r, m);
    }
    if s[q].inBound && InBoundCount(s, q, r) <= before {
      assert LeadOf(s, q, r, before);
    }
  }

  /** A row that is no match shows nothing ahead of itself. */
  lemma MissAddsNothing(s: seq<RowFlags>, r: int, q: int, before: nat, after: nat)
    requires q < r < |s| && !IsMatch(s, r)
    requires Visible(s, r + 1, q, before, after)
    ensures Visible(s, r, q, before, after)
  {
    if !s[q].matches && !(exists m :: TrailOf(s, q, m, after)) {
      var m :| m < r + 1 && LeadOf(s, q, m, before);
      assert m < r;
    }
  }

  lemma GoodStepMatch(s: seq<RowFlags>, r: int, st: ContextState, es: seq<Emitted>, before: nat, after: nat)
    requires r < |s| && Good(s, r, st, es, before, after) && IsMatch(s, r)
    ensures Good(s, r + 1, Step(s, r, before, after, st).0, es + Step(s, r, before, after, st).1, before, after)
  {
    var floor := st.lastEmitted;
    forall q | floor < q < r
      ensures Visible(s, |s|, q, before, after) <==> s[q].inBound && InBoundCount(s, q, r) <= before
      ensures s[q].inBound ==> !s[q].matches
    {
      AheadOfMatch(s, r, q, before, after);
    }
    assert InBoundCount(s, r, r) == 0;
    LeadIsVisible(s, r, r - 1, floor, before, after);
    assert Visible(s, |s|, r, before, after);
    var lead := Lead(s, r - 1, floor, before);
    assert es + (lead + [Emitted(r, false)]) == (es + lead) + [Emitted(r, false)];
  }

  lemma GoodStepMiss(s: seq<RowFlags>, r: int, st: ContextState, es: seq<Emitted>, before: nat, after: nat)
    requires r < |s| && Good(s, r, st, es, before, after) && !IsMatch(s, r)
    ensures Good(s, r + 1, Step(s, r, before, after, st).0, es + Step(s, r, before, after, st).1, before, after)
  {
    var lm := st.lastMatch;
    var next := r + 1;
    forall q | q < r && Visible(s, next, q, before, after) ensures Visible(s, r, q, before, after) {
      MissAddsNothing(s, r, q, before, after);
    }
    if !s[r].inBound {
      assert es + [] == es;

      assert InBoundCount(s, lm + 1, r + 1) == InBoundCount(s, lm + 1, r);

    } else if lm >= 0 && st.sinceMatch < after {
      assert TrailOf(s, r, lm, after);
      assert Visible(s, r, lm, before, after);
      forall q | lm < q < r && s[q].inBound ensures Visible(s, r, q, before, after) {
        CountGrows(s, lm + 1, lm + 1, q + 1, r);
        assert TrailOf(s, q, lm, after);
      }
      VisibleBelowSkip(s, |s|, st.lastEmitted + 1, r, before, after);
    } else {
      if Visible(s, r + 1, r, before, after) {
        var m :| TrailOf(s, r, m, after);
        CountGrows(s, m + 1, lm + 1, r + 1, r + 1);
      }
      assert es + [] == es;
    }
  }

  /** Resuming at `r` from any good state completes the one-shot view. */
  lemma {:induction false} PassCompletes(s: seq<RowFlags>, r: int, st: ContextState, es: seq<Emitted>, before: nat, after: nat)
    requires 0 <= r && Good(s, r, st, es, before, after)
    ensures es + Pass(s, r, |s|, before, after, st).1 == Widened(s, before, after)
    decreases |s| - r
  {
    if r == |s| {
      VisibleBelowSkip(s, |s|, st.lastEmitted + 1, |s|, before, after);
    } else {
      if IsMatch(s, r) { GoodStepMatch(s, r, st, es, before, after); }
      else { GoodStepMiss(s, r, st, es, before, after); }
      var (st1, e1) := Step(s, r, before, after, st);
      PassCompletes(s, r + 1, st1, es + e1, before, after);
      var e2 := Pass(s, r + 1, |s|, before, after, st1).1;
      assert (es + e1) + e2 == es + (e1 + e2);
    }
  }

  /** The one-shot pass computes the declarative view. */
  lemma OneShotIsWidened(s: seq<RowFlags>, before: nat, after: nat)
    ensures Pass(s, 0, |s|, before, after, FRESH).1 == Widened(s, before, after)
  {
    PassCompletes(s, 0, FRESH, [], before, after);
    assert [] + Pass(s, 0, |s|, before, after, FRESH).1 == Pass(s, 0, |s|, before, after, FRESH).1;
  }

  // ---------------------------------------------------------------------------
  // Resuming from the emitted list alone
  // ---------------------------------------------------------------------------

  /** Visible rows of [lo, hi), the search seeing `n` rows. */
  ghost function VisibleCount(s: seq<RowFlags>, n: int, lo: int, hi: int, before: nat, after: nat): nat
    requires 0 <= lo && hi <= n <= |s|
    decreases hi - lo
  {
    if hi <= lo then 0
    else VisibleCount(s, n, lo, hi - 1, before, after) + (if Visible(s, n, hi - 1, before, after) then 1 else 0)
  }

  lemma {:induction false} TrailingIsVisibleCount(s: seq<RowFlags>, n: int, c: int, lo: int, before: nat, after: nat)
    requires 0 <= c <= n <= |s| && 0 <= lo
    ensures TrailingFrom(VisibleBelow(s, n, c, before, after), lo) == VisibleCount(s, n, lo, c, before, after)
    decreases c
  {
    if c > 0 {
      var prev := VisibleBelow(s, n, c - 1, before, after);
      var here := VisibleBelow(s, n, c, before, after);
      TrailingIsVisibleCount(s, n, c - 1, lo, before, after);
      if Visible(s, n, c - 1, before, after) {
        assert here[..|here| - 1] == prev;
      } else {
        assert here == prev;
        if c > lo {
        } else {
          VisibleBelowExact(s, n, c - 1, before, after);
        }
      }
    }
  }

  /** The rows shown behind the last match spend the window exactly as far as it goes. */
  lemma {:induction false} WindowSpent(s: seq<RowFlags>, n: int, lm: int, c: int, before: nat, after: nat)
    requires lm < c <= n <= |s| && IsMatch(s, lm)
    ensures Min(VisibleCount(s, n, lm + 1, c, before, after), after) == Min(InBoundCount(s, lm + 1, c), after)
    ensures VisibleCount(s, n, lm + 1, c, before, after) <= InBoundCount(s, lm + 1, c)
    decreases c
  {
    if lm + 1 < c {
      WindowSpent(s, n, lm, c - 1, before, after);
      if s[c - 1].inBound && InBoundCount(s, lm + 1, c) <= after {
        assert TrailOf(s, c - 1, lm, after);
      }
    }
  }

  lemma {:induction false} LastMatchFound(s: seq<RowFlags>, n: int, c: int, before: nat, after: nat)
    requires 0 <= c <= n <= |s|
    ensures IsLastMatch(s, c, LastMatchRow(VisibleBelow(s, n, c, before, after)))
    decreases c
  {
    if c > 0 {
      LastMatchFound(s, n, c - 1, before, after);
      var prev := VisibleBelow(s, n, c - 1, before, after);
      var here := VisibleBelow(s, n, c, before, after);
      if Visible(s, n, c - 1, before, after) {
        assert here[..|here| - 1] == prev;
      } else {
        assert here == prev;
        assert !IsMatch(s, c - 1);
      }
    }
  }

  lemma {:induction false} LastRowFound(s: seq<RowFlags>, n: int, c: int, before: nat, after: nat)
    requires 0 <= c <= n <= |s|
    ensures var e := LastRow(VisibleBelow(s, n, c, before, after));
            -1 <= e < c && (e >= 0 ==> Visible(s, n, e, before, after))
            && (forall q :: e < q < c ==> !Visible(s, n, q, before, after))
    decreases c
  {
    if c > 0 { LastRowFound(s, n, c - 1, before, after); }
  }

  /** The list up to its last row is the same whether `n` rows or all of them are seen. */
  lemma PrefixOfTheWhole(s: seq<RowFlags>, n: int, e: int, before: nat, after: nat)
    requires -1 <= e < n <= |s| && (e >= 0 ==> Visible(s, n, e, before, after))
    ensures VisibleBelow(s, n, e + 1, before, after) == VisibleBelow(s, |s|, e + 1, before, after)
  {
    hide Visible, VisibleBelow;
    forall q | 0 <= q < e + 1 ensures Visible(s, n, q, before, after) == Visible(s, |s|, q, before, after) {
      if Visible(s, n, q, before, after) { VisibleGrows(s, n, |s|, q, before, after); }
      else if Visible(s, |s|, q, before, after) { SuffixClosed(s, n, |s|, q, e, before, after); }
    }
    VisibleBelowAgrees(s, n, s, |s|, e + 1, before, after);
  }

  /** Whatever number `n` of rows the list was computed over, cutting it below `c` and
      rebuilding the state from what is left is a good place to resume at `c`. */
  lemma RebuiltIsGood(s: seq<RowFlags>, n: int, c: int, before: nat, after: nat)
    requires 0 <= c <= n <= |s|
    ensures var es := VisibleBelow(s, n, c, before, after);
            Good(s, c, Rebuilt(es), es, before, after)
  {
    hide Visible, VisibleBelow, LastRow, LastMatchRow, TrailingFrom, InBoundCount, VisibleCount;
    var es := VisibleBelow(s, n, c, before, after);
    LastRowFound(s, n, c, before, after);
    LastMatchFound(s, n, c, before, after);
    var e := LastRow(es);
    VisibleBelowSkip(s, n, e + 1, c, before, after);
    PrefixOfTheWhole(s, n, e, before, after);
    forall q | e < q < c ensures !Visible(s, c, q, before, after) {
      if Visible(s, c, q, before, after) { VisibleGrows(s, c, n, q, before, after); }
    }
    var lm := LastMatchRow(es);
    if lm >= 0 {
      TrailingIsVisibleCount(s, n, c, lm + 1, before, after);
      WindowSpent(s, n, lm, c, before, after);
    }
  }

  /** The resume theorem. */
  lemma ResumeCompletes(s: seq<RowFlags>, n: int, c: int, before: nat, after: nat)
    requires 0 <= c <= n <= |s|
    ensures var es := VisibleBelow(s, n, c, before, after);
            -1 <= Rebuilt(es).lastEmitted
            && es + Pass(s, c, |s|, before, after, Rebuilt(es)).1 == Widened(s, before, after)
  {
    RebuiltIsGood(s, n, c, before, after);
    var es := VisibleBelow(s, n, c, before, after);
    PassCompletes(s, c, Rebuilt(es), es, before, after);
  }

  /** Cutting a scan at any row and going on with the carried state changes nothing. */
  lemma {:induction false} PassSplits(s: seq<RowFlags>, r: int, mid: int, hi: int, before: nat, after: nat, st: ContextState)
    requires 0 <= r <= mid <= hi <= |s| && -1 <= st.lastEmitted
    ensures var a := Pass(s, r, mid, before, after, st);
            -1 <= a.0.lastEmitted &&
            var b := Pass(s, mid, hi, before, after, a.0);
            Pass(s, r, hi, before, after, st) == (b.0, a.1 + b.1)
    decreases mid - r
  {
    if r < mid {
      var (st1, e1) := Step(s, r, before, after, st);
      PassSplits(s, r + 1, mid, hi, before, after, st1);
      var a := Pass(s, r + 1, mid, before, after, st1);
      var b := Pass(s, mid, hi, before, after, a.0);
      assert e1 + (a.1 + b.1) == (e1 + a.1) + b.1;
    } else {
      assert [] + Pass(s, mid, hi, before, after, st).1 == Pass(s, mid, hi, before, after, st).1;
    }
  }

  // ---------------------------------------------------------------------------
  // What the widening means for a caller
  // ---------------------------------------------------------------------------

  /** With both windows empty the view is exactly the in-bound matches. */
  lemma NoContextIsTheFilter(s: seq<RowFlags>, q: int)
    requires 0 <= q < |s|
    ensures Visible(s, |s|, q, 0, 0) <==> IsMatch(s, q)
  {
    forall m | q < m < |s| && s[q].inBound ensures !LeadOf(s, q, m, 0) {
      CountGrows(s, q, q, q + 1, m);
      assert InBoundCount(s, q, q + 1) == 1;
    }
    forall m | 0 <= m < q && s[q].inBound ensures !TrailOf(s, q, m, 0) {
      CountGrows(s, m + 1, q, q + 1, q + 1);
      assert InBoundCount(s, q, q + 1) == 1;
    }
  }

  /** A search that misses nothing leaves nothing to be context to. */
  lemma {:induction false} InertWhenAllMatch(s: seq<RowFlags>, n: int, k: int, before: nat, after: nat)
    requires 0 <= k <= n <= |s|
    requires forall q :: 0 <= q < |s| && s[q].inBound ==> s[q].matches
    ensures VisibleBelow(s, n, k, before, after) == VisibleBelow(s, n, k, 0, 0)
    ensures forall e :: e in VisibleBelow(s, n, k, before, after) ==> !e.isContext
    decreases k
  {
    if k > 0 { InertWhenAllMatch(s, n, k - 1, before, after); }
  }
}
