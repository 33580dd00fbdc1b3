/** One live tick of a filtered view, on values: which trailing rows are withdrawn, where the
    emitter resumes, and why the result is the view a fresh search would build. */
module LiveView {
  import opened ContextEmitter

  /** How far back a match at `row` shows its leading context, found by walking back over
      in-bound rows. */
  function WindowStart(s: seq<RowFlags>, row: int, before: int): int
    requires row <= |s|
  {
    if before <= 0 then (if row < 0 then 0 else row) else WalkBack(s, row - 1, before)
  }

  function WalkBack(s: seq<RowFlags>, r: int, need: int): int
    requires r < |s| && need > 0
    decreases r
  {
    if r < 0 then 0
    else if s[r].inBound then (if need == 1 then r else WalkBack(s, r - 1, need - 1))
    else WalkBack(s, r - 1, need)
  }

  /** The walk stops at the `need`-th in-bound row back, or at row 0 with no more than that
      many in front of it. */
  lemma {:induction false} WalkBackCounts(s: seq<RowFlags>, row: int, r: int, need: int)
    requires -1 <= r < row <= |s| && need > 0
    ensures var w := WalkBack(s, r, need);
            0 <= w <= (if r < 0 then 0 else r)
            && (w > 0 ==> s[w].inBound && InBoundCount(s, w, r + 1) == need)
            && (w == 0 ==> InBoundCount(s, 0, r + 1) <= need)
    decreases r
  {
    if r >= 0 && !(s[r].inBound && need == 1) {
      WalkBackCounts(s, row, r - 1, if s[r].inBound then need - 1 else need);
    }
  }

  /** The resume row: past an unchanged trailing record, at a changed one, or at the start of
      its leading window when it turned into or out of a match. */
  function CandidateStart(view: seq<Emitted>, now: seq<RowFlags>, base: int, changed: bool, before: nat): int
    requires 0 <= base < |now|
  {
    if !changed then base + 1
    else if before > 0 && (LastMatchRow(view) == base) != IsMatch(now, base) then WindowStart(now, base, before)
    else base
  }

  /** The view with every trailing entry at or past `c` popped. */
  function Cut(view: seq<Emitted>, c: int): seq<Emitted> {
    view[..|view| - TrailingFrom(view, c)]
  }

  /** What one tick leaves. `oldCount` is the number of records before it; the record at
      `oldCount - 1` was re-read and everything past it is new. */
  function Tick(view: seq<Emitted>, now: seq<RowFlags>, oldCount: nat, changed: bool, before: nat, after: nat): seq<Emitted>
    requires oldCount <= |now|
  {
    var c := if oldCount == 0 then 0 else CandidateStart(view, now, oldCount - 1, changed, before);
    var kept := Cut(view, c);
    if c < 0 || Rebuilt(kept).lastEmitted < -1 then kept
    else kept + Pass(now, c, |now|, before, after, Rebuilt(kept)).1
  }

  // ---------------------------------------------------------------------------
  // Correctness
  // ---------------------------------------------------------------------------

  lemma {:induction false} CutIsPrefix(s: seq<RowFlags>, n: int, k: int, c: int, before: nat, after: nat)
    requires 0 <= c <= k <= n <= |s|
    ensures Cut(VisibleBelow(s, n, k, before, after), c) == VisibleBelow(s, n, c, before, after)
    decreases k
  {
    hide Visible;
    var view := VisibleBelow(s, n, k, before, after);
    if k == c {
      VisibleBelowExact(s, n, k, before, after);
      if view != [] { assert view[|view| - 1] in view; }
      assert view[..|view|] == view;
    } else {
      CutIsPrefix(s, n, k - 1, c, before, after);
      var prev := VisibleBelow(s, n, k - 1, before, after);
      if Visible(s, n, k - 1, before, after) {
        assert view[..|view| - 1] == prev;
        assert view[..|view| - TrailingFrom(view, c)] == prev[..|prev| - TrailingFrom(prev, c)];
      } else {
        assert view == prev;
      }
    }
  }

  /** Searches over the same first `n` rows agree. */
  lemma SamePrefixSameView(s: seq<RowFlags>, t: seq<RowFlags>, n: int, q: int, before: nat, after: nat)
    requires 0 <= q < n <= |s| && n <= |t|
    requires forall i :: 0 <= i < n ==> s[i] == t[i]
    requires Visible(s, n, q, before, after)
    ensures Visible(t, n, q, before, after)
  {
    if !s[q].matches {
      if exists m :: m < n && LeadOf(s, q, m, before) {
        var m :| m < n && LeadOf(s, q, m, before);
        CountAgrees(s, t, q, m);
        assert LeadOf(t, q, m, before);
      } else {
        var m :| TrailOf(s, q, m, after);
        CountAgrees(s, t, m + 1, q + 1);
        assert TrailOf(t, q, m, after);
      }
    }
  }

  /** A trailing record that is a match before and after its growth keeps its window. */
  lemma SameClassSameView(s: seq<RowFlags>, t: seq<RowFlags>, base: int, q: int, before: nat, after: nat)
    requires 0 <= q < base < |s| && base < |t|
    requires forall i :: 0 <= i < base ==> s[i] == t[i]
    requires IsMatch(s, base) && IsMatch(t, base)
    requires Visible(s, base + 1, q, before, after)
    ensures Visible(t, base + 1, q, before, after)
  {
    if !s[q].matches {
      if exists m :: m < base + 1 && LeadOf(s, q, m, before) {
        var m :| m < base + 1 && LeadOf(s, q, m, before);
        CountAgrees(s, t, q, m);
        assert LeadOf(t, q, m, before);
      } else {
        var m :| TrailOf(s, q, m, after);
        CountAgrees(s, t, m + 1, q + 1);
        assert TrailOf(t, q, m, after);
      }
    }
  }

  /** Rows behind the leading window of `base` are shown without its help. */
  lemma OutsideTheWindow(s: seq<RowFlags>, base: int, q: int, before: nat, after: nat)
    requires 0 <= q < base < |s|
    requires s[q].inBound ==> InBoundCount(s, q, base) > before
    requires Visible(s, base + 1, q, before, after)
    ensures Visible(s, base, q, before, after)
  {
    if !s[q].matches && !(exists m :: TrailOf(s, q, m, after)) {
      var m :| m < base + 1 && LeadOf(s, q, m, before);
      assert m < base;
    }
  }

  /** The popped list is the view of a prefix of the grown log, cut at the resume row. */
  lemma CutIsResumable(s: seq<RowFlags>, t: seq<RowFlags>, changed: bool, before: nat, after: nat) returns (n: int)
    requires 0 < |s| <= |t|
    requires forall i :: 0 <= i < |s| - 1 ==> s[i] == t[i]
    requires !changed ==> s[|s| - 1] == t[|s| - 1]
    ensures var c := CandidateStart(Widened(s, before, after), t, |s| - 1, changed, before);
            0 <= c <= n <= |t| && c <= |s|
            && VisibleBelow(s, |s|, c, before, after) == VisibleBelow(t, n, c, before, after)
  {
    var base := |s| - 1;
    LastMatchIs(s, before, after);
    var c := CandidateStart(Widened(s, before, after), t, base, changed, before);
    if !changed {
      n := |s|;
      forall q | 0 <= q < c ensures Visible(s, |s|, q, before, after) == Visible(t, n, q, before, after) {
        if Visible(s, n, q, before, after) { SamePrefixSameView(s, t, n, q, before, after); }
        if Visible(t, n, q, before, after) { SamePrefixSameView(t, s, n, q, before, after); }
      }
    } else if IsMatch(s, base) && IsMatch(t, base) {
      n := base + 1;
      forall q | 0 <= q < c ensures Visible(s, |s|, q, before, after) == Visible(t, n, q, before, after) {
        if Visible(s, n, q, before, after) { SameClassSameView(s, t, base, q, before, after); }
        if Visible(t, n, q, before, after) { SameClassSameView(t, s, base, q, before, after); }
      }
    } else {
      n := base;
      if before > 0 && IsMatch(s, base) != IsMatch(t, base) { WalkBackCounts(t, base, base - 1, before); }
      forall q | 0 <= q < c ensures Visible(s, |s|, q, before, after) == Visible(t, n, q, before, after) {
        NotShownByBase(s, t, c, q, before, after);
      }
    }
    VisibleBelowAgrees(s, |s|, t, n, c, before, after);
  }

  lemma NotShownByBase(s: seq<RowFlags>, t: seq<RowFlags>, c: int, q: int, before: nat, after: nat)
    requires 0 < |s| <= |t| && 0 <= q < c < |s|
    requires forall i :: 0 <= i < |s| - 1 ==> s[i] == t[i]
    requires var base := |s| - 1;
             !IsMatch(s, base) || before == 0 || (c > 0 && t[c].inBound && c < base && InBoundCount(t, c, base) == before)
    ensures Visible(s, |s|, q, before, after) == Visible(t, |s| - 1, q, before, after)
  {
    var base := |s| - 1;
    if Visible(s, |s|, q, before, after) {
      if !IsMatch(s, base) {
        MissAddsNothing(s, base, q, before, after);
      } else {
        if s[q].inBound {
          CountSplit(s, q, q + 1, base);
          assert InBoundCount(s, q, q + 1) == 1;
          if before > 0 {
            CountAgrees(s, t, c, base);
            CountGrows(s, q + 1, c, base, base);
          }
        }
        OutsideTheWindow(s, base, q, before, after);
      }
      SamePrefixSameView(s, t, base, q, before, after);
    }
    if Visible(t, base, q, before, after) {
      SamePrefixSameView(t, s, base, q, before, after);
      VisibleGrows(s, base, |s|, q, before, after);
    }
  }

  /** Reading "was it a match" off the view is right. */
  lemma LastMatchIs(s: seq<RowFlags>, before: nat, after: nat)
    requires |s| > 0
    ensures LastMatchRow(Widened(s, before, after)) == |s| - 1 <==> IsMatch(s, |s| - 1)
  {
    LastMatchFound(s, |s|, |s|, before, after);
  }

  /** One tick, whatever the growth did to the trailing record, leaves the view a fresh
      search over the grown log computes. */
  lemma TickIsFresh(s: seq<RowFlags>, t: seq<RowFlags>, changed: bool, before: nat, after: nat)
    requires |s| <= |t|
    requires forall i :: 0 <= i < |s| - 1 ==> s[i] == t[i]
    requires |s| > 0 && !changed ==> s[|s| - 1] == t[|s| - 1]
    ensures Tick(Widened(s, before, after), t, |s|, changed, before, after) == Widened(t, before, after)
  {
    if |s| == 0 {
      assert Cut([], 0) == [];
      ResumeCompletes(t, 0, 0, before, after);
    } else {
      var c := CandidateStart(Widened(s, before, after), t, |s| - 1, changed, before);
      var n := CutIsResumable(s, t, changed, before, after);
      CutIsPrefix(s, |s|, |s|, c, before, after);
      ResumeCompletes(t, n, c, before, after);
    }
  }

  /** One entry of a tailing history: the flags of the rows after the tick and whether the
      re-read trailing record came back different. */
  datatype Growth = Growth(flags: seq<RowFlags>, changed: bool)

  ghost predicate Follows(s: seq<RowFlags>, g: Growth) {
    && |s| <= |g.flags|
    && (forall i :: 0 <= i < |s| - 1 ==> s[i] == g.flags[i])
    && (|s| > 0 && !g.changed ==> s[|s| - 1] == g.flags[|s| - 1])
  }

  ghost predicate History(s: seq<RowFlags>, gs: seq<Growth>)
    decreases gs
  {
    gs == [] || (Follows(s, gs[0]) && History(gs[0].flags, gs[1..]))
  }

  function LastFlags(s: seq<RowFlags>, gs: seq<Growth>): seq<RowFlags> {
    if gs == [] then s else gs[|gs| - 1].flags
  }

  function Tailed(view: seq<Emitted>, count: nat, gs: seq<Growth>, before: nat, after: nat): seq<Emitted>
    decreases gs
  {
    if gs == [] || count > |gs[0].flags| then view
    else Tailed(Tick(view, gs[0].flags, count, gs[0].changed, before, after), |gs[0].flags|, gs[1..], before, after)
  }

  /** A log tailed through any history shows exactly what a fresh open shows. */
  lemma {:induction false} TailedIsFresh(s: seq<RowFlags>, gs: seq<Growth>, before: nat, after: nat)
    requires History(s, gs)
    ensures Tailed(Widened(s, before, after), |s|, gs, before, after) == Widened(LastFlags(s, gs), before, after)
    decreases gs
  {
    if gs != [] {
      TickIsFresh(s, gs[0].flags, gs[0].changed, before, after);
      TailedIsFresh(gs[0].flags, gs[1..], before, after);
    }
  }

  /** A trailing record that keeps its class costs at most one withdrawn row, so a detached
      reader's tail is not churned. */
  lemma SameClassPopsOne(s: seq<RowFlags>, t: seq<RowFlags>, before: nat, after: nat)
    requires 0 < |s| <= |t| && IsMatch(s, |s| - 1) == IsMatch(t, |s| - 1)
    ensures var view := Widened(s, before, after);
            TrailingFrom(view, CandidateStart(view, t, |s| - 1, true, before)) <= 1
  {
    LastMatchIs(s, before, after);
    TrailingIsVisibleCount(s, |s|, |s|, |s| - 1, before, after);
    assert VisibleCount(s, |s|, |s| - 1, |s| - 1, before, after) == 0;
  }

  // ---------------------------------------------------------------------------
  // A tick over any list: filters that changed in between
  // ---------------------------------------------------------------------------

  /** A list of rows of the first `n`, ascending: all a tick needs of the view it finds. */
  ghost predicate Sane(view: seq<Emitted>, n: int) {
    Ascending(view) && forall e :: e in view ==> 0 <= e.row < n
  }

  lemma {:induction false} LeadMeans(s: seq<RowFlags>, q: int, floor: int, need: int)
    requires -1 <= floor && q < |s|
    ensures var es := Lead(s, q, floor, need);
            Ascending(es) && (need <= 0 ==> es == [])
            && forall e :: e in es ==> floor < e.row <= q && e.isContext && 0 <= e.row && s[e.row].inBound
    decreases q - floor
  {
    if q > floor && need > 0 {
      var rest := Lead(s, q - 1, floor, if s[q].inBound then need - 1 else need);
      LeadMeans(s, q - 1, floor, if s[q].inBound then need - 1 else need);
      assert Lead(s, q, floor, need) == if s[q].inBound then rest + [Emitted(q, true)] else rest;
      assert forall i :: 0 <= i < |rest| ==> rest[i] in rest;
      hide Lead;
    }
  }

  /** What a pass writes from a state in front of it, whatever rows that state comes from: every
      match from `r` on and nothing else as a match, in order, behind the last row written. */
  ghost predicate Writes(s: seq<RowFlags>, r: int, hi: int, before: nat, after: nat, last: int, es: seq<Emitted>) {
    && Ascending(es)
    && (forall e :: e in es ==> last < e.row < hi && 0 <= e.row < |s|)
    && (forall q :: Emitted(q, false) in es <==> r <= q < hi && IsMatch(s, q))
    && (before == 0 && after == 0 ==> forall e :: e in es ==> !e.isContext)
    && ((forall q :: 0 <= q < |s| && s[q].inBound ==> s[q].matches) ==>
          forall e :: e in es && e.isContext ==> e.row < r && s[e.row].inBound)
  }

  lemma StepWrites(s: seq<RowFlags>, r: int, before: nat, after: nat, st: ContextState)
    requires 0 <= r < |s| && -1 <= st.lastEmitted < r
    ensures var (st1, es) := Step(s, r, before, after, st);
            && Writes(s, r, r + 1, before, after, st.lastEmitted, es)
            && st.lastEmitted <= st1.lastEmitted <= r && (forall e :: e in es ==> e.row <= st1.lastEmitted)
            && (IsMatch(s, r) ==> st1.lastEmitted == r)
  {
    if IsMatch(s, r) {
      LeadMeans(s, r - 1, st.lastEmitted, before);
      var lead := Lead(s, r - 1, st.lastEmitted, before);
      assert forall i :: 0 <= i < |lead| ==> lead[i] in lead;
    }
  }

  lemma {:induction false} PassWrites(s: seq<RowFlags>, r: int, hi: int, before: nat, after: nat, st: ContextState)
    requires 0 <= r <= hi <= |s| && -1 <= st.lastEmitted < r
    ensures Writes(s, r, hi, before, after, st.lastEmitted, Pass(s, r, hi, before, after, st).1)
    decreases hi - r
  {
    if r < hi {
      var (st1, e1) := Step(s, r, before, after, st);
      StepWrites(s, r, before, after, st);
      PassWrites(s, r + 1, hi, before, after, st1);
      var e2 := Pass(s, r + 1, hi, before, after, st1).1;
      hide Step, Pass;
      WritesJoin(s, r, hi, before, after, st.lastEmitted, st1.lastEmitted, e1, e2);
    }
  }

  lemma WritesJoin(s: seq<RowFlags>, r: int, hi: int, before: nat, after: nat, last: int, mid: int, e1: seq<Emitted>, e2: seq<Emitted>)
    requires 0 <= r < hi <= |s| && last <= mid <= r
    requires Writes(s, r, r + 1, before, after, last, e1) && (forall e :: e in e1 ==> e.row <= mid)
    requires Writes(s, r + 1, hi, before, after, mid, e2) && (IsMatch(s, r) ==> mid == r)
    ensures Writes(s, r, hi, before, after, last, e1 + e2)
  {
    assert forall i :: 0 <= i < |e1| ==> e1[i] in e1;
    assert forall i :: 0 <= i < |e2| ==> e2[i] in e2;
    if forall q :: 0 <= q < |s| && s[q].inBound ==> s[q].matches {
      assert s[r].inBound ==> IsMatch(s, r);
    }
  }

  /** Popping leaves exactly what lies below the resume row. */
  lemma {:induction false} CutMeans(view: seq<Emitted>, c: int)
    requires Ascending(view)
    ensures Ascending(Cut(view, c)) && forall e :: e in Cut(view, c) <==> e in view && e.row < c
    decreases |view|
  {
    if view != [] {
      var front, last := view[..|view| - 1], view[|view| - 1];
      assert view == front + [last];
      if last.row < c {
        assert Cut(view, c) == view;
        forall e | e in view ensures e.row < c { var i :| 0 <= i < |view| && view[i] == e; }
      } else {
        CutMeans(front, c);
        assert Cut(view, c) == Cut(front, c);
      }
    }
  }

  lemma ResumeInRange(view: seq<Emitted>, now: seq<RowFlags>, oldCount: nat, changed: bool, before: nat)
    requires 0 < oldCount <= |now|
    ensures 0 <= CandidateStart(view, now, oldCount - 1, changed, before) <= oldCount
    ensures changed ==> CandidateStart(view, now, oldCount - 1, changed, before) < oldCount
  {
    if before > 0 { WalkBackCounts(now, oldCount - 1, oldCount - 2, before); }
  }

  /** The row a tick starts over at. */
  function ResumeAt(view: seq<Emitted>, now: seq<RowFlags>, oldCount: nat, changed: bool, before: nat): int
    requires oldCount <= |now|
  {
    if oldCount == 0 then 0 else CandidateStart(view, now, oldCount - 1, changed, before)
  }

  lemma KeptState(view: seq<Emitted>, c: int)
    requires Sane(view, c)
    ensures -1 <= Rebuilt(view).lastEmitted && (c >= 0 ==> Rebuilt(view).lastEmitted < c)
    ensures forall e :: e in view ==> e.row <= Rebuilt(view).lastEmitted
  {
    if view != [] { assert view[|view| - 1] in view; }
  }

  /** What a tick does to any list, whatever filter built it: rows below the resume row stay as
      they were, those from it on are listed as matches exactly when they match now. */
  lemma TickMeans(view: seq<Emitted>, now: seq<RowFlags>, oldCount: nat, changed: bool, before: nat, after: nat)
    requires Sane(view, oldCount) && oldCount <= |now|
    ensures var c := ResumeAt(view, now, oldCount, changed, before);
            var got := Tick(view, now, oldCount, changed, before, after);
            && 0 <= c <= oldCount && Sane(Cut(view, c), c) && -1 <= Rebuilt(Cut(view, c)).lastEmitted
            && got == Cut(view, c) + Pass(now, c, |now|, before, after, Rebuilt(Cut(view, c))).1
            && Sane(got, |now|)
            && (forall q :: Emitted(q, false) in got <==> if q < c then Emitted(q, false) in view else IsMatch(now, q))
            && (before == 0 && after == 0 ==> forall e :: e in got && e.isContext ==> e in view && e.row < c)
            && ((forall q :: 0 <= q < |now| && now[q].inBound ==> now[q].matches) ==>
                  forall e :: e in got && e.isContext ==> e.row < c && (e in view || (now[e.row].inBound && Emitted(e.row, false) !in view)))
  {
    var c := ResumeAt(view, now, oldCount, changed, before);
    if oldCount > 0 { ResumeInRange(view, now, oldCount, changed, before); }
    var kept := Cut(view, c);
    CutMeans(view, c);
    KeptState(kept, c);
    var st := Rebuilt(kept);
    PassWrites(now, c, |now|, before, after, st);
    hide Cut, Rebuilt, CandidateStart, Pass, IsMatch;
    JoinMeans(view, kept, Pass(now, c, |now|, before, after, st).1, now, c, before, after, st.lastEmitted);
  }

  lemma JoinMeans(view: seq<Emitted>, kept: seq<Emitted>, es: seq<Emitted>, now: seq<RowFlags>, c: int, before: nat, after: nat, last: int)
    requires 0 <= c <= |now| && Ascending(kept) && (forall e :: e in kept ==> 0 <= e.row < c && e.row <= last) && -1 <= last
    requires forall e :: e in kept <==> e in view && e.row < c
    requires Writes(now, c, |now|, before, after, last, es)
    ensures var got := kept + es;
            && Sane(got, |now|)
            && (forall q :: Emitted(q, false) in got <==> if q < c then Emitted(q, false) in view else IsMatch(now, q))
            && (before == 0 && after == 0 ==> forall e :: e in got && e.isContext ==> e in view && e.row < c)
            && ((forall q :: 0 <= q < |now| && now[q].inBound ==> now[q].matches) ==>
                  forall e :: e in got && e.isContext ==> e.row < c && (e in view || (now[e.row].inBound && Emitted(e.row, false) !in view)))
  {
    var got := kept + es;
    assert forall i :: 0 <= i < |kept| ==> kept[i] in kept;
    assert forall i :: 0 <= i < |es| ==> es[i] in es;
    forall e | e in got ensures e in kept || e in es {}
    forall q ensures Emitted(q, false) in got <==> if q < c then Emitted(q, false) in view else IsMatch(now, q) {
      assert IsMatch(now, q) ==> 0 <= q < |now|;
    }
  }
}
