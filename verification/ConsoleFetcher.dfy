/** A growing log fetched over a console into its spool: generations, appends, and the writes
    that may fail. Each step is one critical section, one read or one file operation. */
module ConsoleFetchers {
  import opened Decoders

  datatype Status = Status(generation: nat, base: nat, committed: nat, total: nat, failed: bool)

  datatype Pc =
    | Idle
    | Making(size: nat)                         // about to create the next generation's file
    | Announcing(size: nat)                     // the file exists and is empty
    | Fetching(at: nat, end: nat)
    | Reading(at: nat, end: nat)
    | Writing(at: nat, end: nat, chunk: seq<Byte>)
    | Written(at: nat, end: nat, chunk: seq<Byte>) // on disk, not committed

  /** `device`: the log at its origin. `origin`: the log the current generation describes, which
      is the device's until that one is replaced (`stale`). */
  datatype S = S(status: Status, pc: Pc, stopping: bool, spool: map<nat, seq<Byte>>,
                 device: seq<Byte>, origin: seq<Byte>, stale: bool, tailStart: nat)

  datatype Step =
    | Grow(bytes: seq<Byte>)
    | Replace(log: seq<Byte>)
    | Poll(rotated: bool, size: nat)   // one turn, with the size its stat saw
    | MakeFile(ok: bool)
    | Announce
    | Enter
    | Read(got: int)
    | Write(ok: bool, landed: nat)
    | Commit
    | RequestStop

  predicate Enabled(s: S, step: Step) {
    match step
    case Grow(_) => true
    // A replacement is noticed before anything is appended: see Poll.
    case Replace(_) => s.pc == Idle
    case Poll(rotated, size) => s.pc == Idle && size <= |s.device| && (!rotated ==> s.status.generation > 0 && !s.stale)
    case MakeFile(_) => s.pc.Making?
    case Announce => s.pc.Announcing?
    case Enter => s.pc.Fetching?
    case Read(got) => s.pc.Reading? && -1 <= got && s.pc.at + got <= s.pc.end <= |s.device|
    case Write(ok, landed) => s.pc.Writing? && landed <= |s.pc.chunk|
    case Commit => s.pc.Written?
    case RequestStop => true
  }

  function Current(s: S): seq<Byte> {
    if s.status.generation in s.spool then s.spool[s.status.generation] else []
  }

  function BaseFor(tailStart: nat, size: nat): nat {
    if tailStart > 0 && size > tailStart then size - tailStart else 0
  }

  function Next(s: S, step: Step): S
    requires Enabled(s, step)
  {
    match step
    case Grow(bytes) => s.(device := s.device + bytes, origin := if s.stale then s.origin else s.origin + bytes)
    case Replace(log) => s.(device := log, stale := true)
    case Poll(rotated, size) =>
      if rotated then s.(pc := Making(size))
      else
        var consumed := s.status.base + s.status.committed;
        if size > consumed then s.(pc := Fetching(consumed, size)) else s.(status := s.status.(failed := false))
    case MakeFile(ok) =>
      if ok then s.(spool := s.spool[s.status.generation + 1 := []], pc := Announcing(s.pc.size))
      else s.(status := s.status.(failed := true), pc := Idle)
    case Announce =>
      var base := BaseFor(s.tailStart, s.pc.size);
      s.(status := Status(s.status.generation + 1, base, 0, s.pc.size, s.status.failed),
         origin := s.device, stale := false, pc := Fetching(base, s.pc.size))
    case Enter =>
      if s.pc.at >= s.pc.end || s.stopping then s.(status := s.status.(failed := false), pc := Idle)
      else s.(pc := Reading(s.pc.at, s.pc.end))
    case Read(got) =>
      if got < 0 then s.(status := s.status.(failed := true), pc := Idle)
      else if got == 0 then s.(status := s.status.(failed := false), pc := Idle)
      else s.(pc := Writing(s.pc.at, s.pc.end, s.device[s.pc.at..s.pc.at + got]))
    case Write(ok, landed) =>
      var s1 := s.(spool := s.spool[s.status.generation := Current(s) + s.pc.chunk[..landed]]);
      if ok then s1.(pc := Written(s.pc.at, s.pc.end, s.pc.chunk)) else s1.(status := s.status.(failed := true), pc := Idle)
    case Commit =>
      var at := s.pc.at + |s.pc.chunk|;
      s.(status := s.status.(committed := if at < s.status.base then 0 else at - s.status.base), pc := Fetching(at, s.pc.end))
    case RequestStop => s.(stopping := true)
  }

  predicate Init(s: S) {
    s.status == Status(0, 0, 0, 0, false) && s.pc == Idle && !s.stopping && s.spool == map[] && s.origin == [] && s.stale
  }

  /** Writes land whole and say so, or not at all and say so. */
  predicate AllOrNothing(s: S, step: Step) {
    step.Write? && s.pc.Writing? ==> step.landed == if step.ok then |s.pc.chunk| else 0
  }

  // ---------------------------------------------------------------------------
  // The invariant
  // ---------------------------------------------------------------------------

  predicate InFetch(pc: Pc) {
    pc.Fetching? || pc.Reading? || pc.Writing? || pc.Written?
  }

  /** Where the spool ends, as an offset of the origin. */
  function SpoolEnd(s: S): nat {
    s.status.base + s.status.committed + (if s.pc.Written? then |s.pc.chunk| else 0)
  }

  /** The current spool is the origin's bytes from the base offset on, exactly. */
  ghost predicate SpoolOk(s: S) {
    && s.status.generation in s.spool
    && SpoolEnd(s) <= |s.origin| && Current(s) == s.origin[s.status.base..SpoolEnd(s)]
  }

  ghost predicate PcOk(s: S) {
    && (!s.stale ==> s.origin == s.device)
    && (s.pc.Making? ==> s.pc.size <= |s.device|)
    && (s.pc.Announcing? ==> s.pc.size <= |s.device| && s.status.generation + 1 in s.spool && s.spool[s.status.generation + 1] == [])
    && (InFetch(s.pc) ==> s.status.generation > 0 && !s.stale && s.pc.at == s.status.base + s.status.committed && s.pc.end <= |s.device|)
    && (s.pc.Writing? || s.pc.Written? ==>
          s.pc.at + |s.pc.chunk| <= s.pc.end && s.pc.chunk == s.device[s.pc.at..s.pc.at + |s.pc.chunk|])
  }

  ghost predicate Inv(s: S) {
    PcOk(s) && (s.status.generation > 0 ==> SpoolOk(s))
  }

  lemma InitInv(s: S)
    requires Init(s)
    ensures Inv(s)
  {
  }

  lemma GrowKeepsInv(s: S, bytes: seq<Byte>)
    requires Inv(s)
    ensures Inv(Next(s, Grow(bytes)))
  {
    var s' := Next(s, Grow(bytes));
    if s.status.generation > 0 {
      assert s'.origin[s.status.base..SpoolEnd(s)] == s.origin[s.status.base..SpoolEnd(s)];
    }
    if s.pc.Writing? || s.pc.Written? {
      assert s'.device[s.pc.at..s.pc.at + |s.pc.chunk|] == s.device[s.pc.at..s.pc.at + |s.pc.chunk|];
    }
  }

  lemma WriteKeepsInv(s: S, ok: bool, landed: nat)
    requires Inv(s) && Enabled(s, Write(ok, landed)) && AllOrNothing(s, Write(ok, landed))
    ensures Inv(Next(s, Write(ok, landed)))
  {
    var s' := Next(s, Write(ok, landed));
    var b, e := s.status.base, SpoolEnd(s);
    if ok {
      assert s.pc.chunk[..landed] == s.pc.chunk;
      assert s.origin[b..e] + s.origin[e..e + |s.pc.chunk|] == s.origin[b..e + |s.pc.chunk|];
    } else {
      assert Current(s) + s.pc.chunk[..0] == Current(s);
    }
  }

  /** A fresh generation describes the device as it is, and holds nothing yet. */
  lemma AnnounceKeepsInv(s: S)
    requires Inv(s) && Enabled(s, Announce)
    ensures Inv(Next(s, Announce))
  {
    var s' := Next(s, Announce);
    var base := BaseFor(s.tailStart, s.pc.size);
    assert s'.origin[base..base] == [] == Current(s');
  }

  /** A step that writes nothing to the current file and opens no generation. */
  predicate Quiet(step: Step) {
    !step.Grow? && !step.Write? && !step.Announce?
  }

  lemma QuietKeepsPc(s: S, step: Step)
    requires PcOk(s) && Enabled(s, step) && Quiet(step)
    ensures PcOk(Next(s, step))
  {
  }

  /** Such a step moves neither the bytes nor what they are compared with. */
  lemma QuietKeepsBytes(s: S, step: Step)
    requires PcOk(s) && Enabled(s, step) && Quiet(step)
    ensures var t := Next(s, step);
            && t.status.generation == s.status.generation && t.status.base == s.status.base && t.origin == s.origin
            && Current(t) == Current(s) && SpoolEnd(t) == SpoolEnd(s) && s.status.committed <= t.status.committed
            && (s.status.generation in s.spool ==> t.status.generation in t.spool)
  {
  }

  /** With whole writes every step keeps the spool exact. */
  lemma StepKeepsInv(s: S, step: Step)
    requires Inv(s) && Enabled(s, step) && AllOrNothing(s, step)
    ensures Inv(Next(s, step))
  {
    hide Inv, Next, Enabled, AllOrNothing;
    match step
    case Grow(bytes) => GrowKeepsInv(s, bytes);
    case Write(ok, landed) => WriteKeepsInv(s, ok, landed);
    case Announce => AnnounceKeepsInv(s);
    case _ => QuietKeepsInv(s, step);
  }

  lemma QuietKeepsInv(s: S, step: Step)
    requires Inv(s) && Enabled(s, step) && Quiet(step)
    ensures Inv(Next(s, step))
  {
    QuietKeepsPc(s, step);
    QuietKeepsBytes(s, step);
    hide PcOk, Enabled, Next;
  }

  // ---------------------------------------------------------------------------
  // Whole runs
  // ---------------------------------------------------------------------------

  ghost predicate Leads(s: S, steps: seq<Step>, t: S)
    decreases |steps|
  {
    if steps == [] then s == t
    else Enabled(s, steps[0]) && AllOrNothing(s, steps[0]) && Leads(Next(s, steps[0]), steps[1..], t)
  }

  /** What a reader may rely on: the published file is there and its first `committed` bytes
      are the origin's from the base offset on. */
  ghost predicate Visible(s: S) {
    s.status.generation > 0 ==>
      && s.status.generation in s.spool && s.status.committed <= |Current(s)| && s.status.base + s.status.committed <= |s.origin|
      && Current(s)[..s.status.committed] == s.origin[s.status.base..s.status.base + s.status.committed]
  }

  lemma InvIsVisible(s: S)
    requires Inv(s)
    ensures Visible(s)
  {
    if s.status.generation > 0 {
      var b, c, e := s.status.base, s.status.committed, SpoolEnd(s);
      assert b + c <= e <= |s.origin|;
      assert s.origin[b..e][..c] == s.origin[b..b + c];
    }
  }

  /** What no later step takes back: sizes and bytes of a generation only grow. */
  ghost predicate Later(s: S, t: S) {
    && s.status.generation <= t.status.generation
    && (s.status.generation == t.status.generation ==>
          s.status.base == t.status.base && s.status.committed <= t.status.committed)
    && (forall g :: g in s.spool && g <= s.status.generation ==> g in t.spool && s.spool[g] <= t.spool[g])
  }

  lemma StepIsLater(s: S, step: Step)
    requires Inv(s) && Enabled(s, step)
    ensures Later(s, Next(s, step))
  {
  }

  /** On every run with whole writes, and from any of its moments on: what a reader sees is
      right, and what it saw stays. */
  lemma {:induction false} RunIsVisible(s: S, steps: seq<Step>, t: S)
    requires Inv(s) && Leads(s, steps, t)
    ensures Inv(t) && Visible(t) && Later(s, t)
    decreases |steps|
  {
    hide Inv, Enabled, Next, AllOrNothing, Visible;
    if steps == [] {
      InvIsVisible(t);
    } else {
      StepKeepsInv(s, steps[0]);
      StepIsLater(s, steps[0]);
      RunIsVisible(Next(s, steps[0]), steps[1..], t);
    }
  }

  // ---------------------------------------------------------------------------
  // The fetching goes on
  // ---------------------------------------------------------------------------

  /** A new generation of a log of `size` bytes fetches all of it, or its last `tailStart`. */
  lemma BaseMeans(tailStart: nat, size: nat)
    ensures BaseFor(tailStart, size) <= size
    ensures size - BaseFor(tailStart, size) == if tailStart == 0 || size < tailStart then size else tailStart
  {
  }

  /** A generation that describes the device as it is. */
  predicate Fresh(s: S) {
    s.status.generation > 0 && !s.stale
  }

  /** Everything the device has was fetched. */
  predicate CaughtUp(s: S) {
    s.pc == Idle && Fresh(s) && s.status.base + s.status.committed >= |s.device|
  }

  /** The next step of a worker that nothing disturbs. */
  function Onward(s: S): Step {
    match s.pc
    case Idle => Poll(!Fresh(s), |s.device|)
    case Making(_) => MakeFile(true)
    case Announcing(_) => Announce
    case Fetching(_, _) => Enter
    case Reading(at, end) => Read(end - at)
    case Writing(_, _, chunk) => Write(true, |chunk|)
    case Written(_, _, _) => Commit
  }

  /** What is still to be fetched. */
  function Behind(s: S): nat {
    if !Fresh(s) || s.pc.Making? || s.pc.Announcing? then |s.device| + 1
    else if s.status.base + s.status.committed < |s.device| then |s.device| - (s.status.base + s.status.committed)
    else 0
  }

  function Rank(pc: Pc): nat {
    match pc
    case Idle => 10
    case Making(_) => 9
    case Announcing(_) => 8
    case Fetching(at, end) => if at < end then 5 else 11
    case Reading(_, _) => 4
    case Writing(_, _, _) => 3
    case Written(_, _, _) => 2
  }

  /** A read asks for something, and what is written is something. */
  predicate Asks(s: S) {
    && (s.pc.Reading? ==> s.pc.at < s.pc.end)
    && (s.pc.Writing? || s.pc.Written? ==> s.pc.chunk != [])
  }

  lemma StepAsks(s: S, step: Step)
    requires Asks(s) && Enabled(s, step)
    ensures Asks(Next(s, step))
  {
  }

  lemma {:induction false} RunAsks(s: S, steps: seq<Step>, t: S)
    requires Asks(s) && Leads(s, steps, t)
    ensures Asks(t)
    decreases |steps|
  {
    hide Asks, Enabled, Next, AllOrNothing;
    if steps != [] {
      StepAsks(s, steps[0]);
      RunAsks(Next(s, steps[0]), steps[1..], t);
    }
  }

  lemma OnwardHelps(s: S)
    requires Inv(s) && Asks(s) && !s.stopping && !CaughtUp(s)
    ensures Enabled(s, Onward(s)) && AllOrNothing(s, Onward(s))
    ensures var t := Next(s, Onward(s));
            !t.stopping && t.device == s.device && 100 * Behind(t) + Rank(t.pc) < 100 * Behind(s) + Rank(s.pc)
  {
    hide SpoolOk, Current;
  }

  /** From every state of a fetch that was not stopped some run of whole writes fetches all the
      device has, through a replaced log and a new generation if need be. */
  lemma {:induction false} SomeRunCatchesUp(s: S) returns (steps: seq<Step>, t: S)
    requires Inv(s) && Asks(s) && !s.stopping
    ensures Leads(s, steps, t) && CaughtUp(t) && Visible(t) && t.device == s.device && RequestStop !in steps
    decreases 100 * Behind(s) + Rank(s.pc)
  {
    if CaughtUp(s) {
      steps, t := [], s;
      InvIsVisible(s);
    } else {
      OnwardHelps(s);
      StepKeepsInv(s, Onward(s));
      StepAsks(s, Onward(s));
      var rest;
      hide Inv, Asks, Enabled, Next, AllOrNothing, CaughtUp, Visible, Behind, Rank;
      rest, t := SomeRunCatchesUp(Next(s, Onward(s)));
      steps := [Onward(s)] + rest;
      FirstStep(s, Onward(s), rest, t);
    }
  }

  /** A step that goes wrong. */
  predicate GoesWrong(s: S, step: Step)
    requires Enabled(s, step)
  {
    (step.Read? && step.got < 0) || (step.Write? && !step.ok) || (step.MakeFile? && !step.ok)
  }

  /** A turn ends at once when a step of it goes wrong, and the failure is told; ended in any other
      way it takes the telling back. */
  lemma TurnsAreTold(s: S, step: Step)
    requires Enabled(s, step)
    ensures GoesWrong(s, step) ==> Next(s, step).pc == Idle && Next(s, step).status.failed
    ensures s.pc != Idle && Next(s, step).pc == Idle ==> (Next(s, step).status.failed <==> GoesWrong(s, step))
    ensures s.pc == Idle && step.Poll? && Next(s, step).pc == Idle ==> !Next(s, step).status.failed
  {
  }

  /** What the world does to a log: more bytes behind it, or another log in its place. */
  lemma LogsMove(s: S, bytes: seq<Byte>)
    ensures Enabled(s, Grow(bytes)) && Next(s, Grow(bytes)).device == s.device + bytes && Next(s, Grow(bytes)).stale == s.stale
    ensures Enabled(s, Replace(bytes)) ==> Next(s, Replace(bytes)).device == bytes && Next(s, Replace(bytes)).stale
  {
  }

  /** A read may bring anything that is there, or fail. */
  lemma ReadsMayFail(s: S)
    requires Inv(s) && s.pc.Reading? && s.pc.at <= s.pc.end
    ensures forall got :: -1 <= got <= s.pc.end - s.pc.at ==> Enabled(s, Read(got))
  {
  }

  /** Of every state a run of whole writes reaches from the start. */
  lemma FetchingGoesOn(init: S, before: seq<Step>, s: S)
    requires Init(init) && Leads(init, before, s) && !s.stopping
    ensures exists steps, t :: Leads(s, steps, t) && CaughtUp(t) && Visible(t) && t.device == s.device
  {
    InitInv(init);
    RunIsVisible(init, before, s);
    RunAsks(init, before, s);
    hide Inv, Asks, Leads, CaughtUp, Visible;
    var steps, t := SomeRunCatchesUp(s);
  }

  // ---------------------------------------------------------------------------
  // A write that lands in part
  // ---------------------------------------------------------------------------

  /** `left` stayed in the file at the origin's offset `at` without being counted: what was
      committed up to there, the left-over, and everything fetched from `at` on again. */
  ghost predicate LeftOver(s: S, at: nat, left: seq<Byte>) {
    && s.status.generation > 0 && s.status.generation in s.spool
    && s.status.base <= at <= s.status.base + s.status.committed && SpoolEnd(s) <= |s.origin|
    && at + |left| <= |s.origin| && left == s.origin[at..at + |left|]
    && Current(s) == (s.origin[s.status.base..at] + left) + s.origin[at..SpoolEnd(s)]
  }

  /** A write that fails with `landed` bytes on disk leaves exactly those. */
  lemma FailedWriteLeaves(s: S, landed: nat)
    requires Inv(s) && Enabled(s, Write(false, landed))
    ensures var t := Next(s, Write(false, landed));
            PcOk(t) && LeftOver(t, s.pc.at, s.pc.chunk[..landed])
  {
    var t := Next(s, Write(false, landed));
    var b, at := s.status.base, s.pc.at;
    assert s.pc.chunk[..landed] == s.origin[at..at + landed];
    assert s.origin[at..at] == [];
    assert Current(t) == s.origin[b..at] + s.pc.chunk[..landed];
  }

  lemma LeftOverGrows(s: S, bytes: seq<Byte>, at: nat, left: seq<Byte>)
    requires PcOk(s) && LeftOver(s, at, left)
    ensures PcOk(Next(s, Grow(bytes))) && LeftOver(Next(s, Grow(bytes)), at, left)
  {
    var t := Next(s, Grow(bytes));
    assert t.origin[s.status.base..at] == s.origin[s.status.base..at];
    assert t.origin[at..SpoolEnd(s)] == s.origin[at..SpoolEnd(s)];
    assert t.origin[at..at + |left|] == s.origin[at..at + |left|];
    if s.pc.Writing? || s.pc.Written? {
      assert t.device[s.pc.at..s.pc.at + |s.pc.chunk|] == s.device[s.pc.at..s.pc.at + |s.pc.chunk|];
    }
  }

  lemma LeftOverWritten(s: S, ok: bool, landed: nat, at: nat, left: seq<Byte>)
    requires PcOk(s) && LeftOver(s, at, left) && Enabled(s, Write(ok, landed)) && AllOrNothing(s, Write(ok, landed))
    ensures PcOk(Next(s, Write(ok, landed))) && LeftOver(Next(s, Write(ok, landed)), at, left)
  {
    var e := SpoolEnd(s);
    if ok {
      assert s.pc.chunk[..landed] == s.pc.chunk;
      assert s.origin[at..e] + s.origin[e..e + |s.pc.chunk|] == s.origin[at..e + |s.pc.chunk|];
      Regroup(s.origin[s.status.base..at] + left, s.origin[at..e], s.pc.chunk);
    } else {
      assert Current(s) + s.pc.chunk[..0] == Current(s);
    }
  }

  lemma Regroup(a: seq<Byte>, b: seq<Byte>, c: seq<Byte>)
    ensures (a + b) + c == a + (b + c)
  {
  }

  lemma LeftOverKept(s: S, step: Step, at: nat, left: seq<Byte>)
    requires PcOk(s) && LeftOver(s, at, left) && Enabled(s, step) && Quiet(step)
    ensures PcOk(Next(s, step)) && LeftOver(Next(s, step), at, left)
  {
    QuietKeepsPc(s, step);
    QuietKeepsBytes(s, step);
    hide PcOk, Enabled, Next;
  }

  /** Within the generation nothing takes a left-over away again. */
  lemma LeftOverStays(s: S, step: Step, at: nat, left: seq<Byte>)
    requires PcOk(s) && LeftOver(s, at, left) && Enabled(s, step) && AllOrNothing(s, step) && step != Announce
    ensures PcOk(Next(s, step)) && LeftOver(Next(s, step), at, left)
  {
    hide PcOk, LeftOver, Enabled, Next, AllOrNothing;
    match step
    case Grow(bytes) => LeftOverGrows(s, bytes, at, left);
    case Write(ok, landed) => LeftOverWritten(s, ok, landed, at, left);
    case Announce =>
    case _ => LeftOverKept(s, step, at, left);
  }

  lemma {:induction false} LeftOverLasts(s: S, steps: seq<Step>, t: S, at: nat, left: seq<Byte>)
    requires PcOk(s) && LeftOver(s, at, left) && Leads(s, steps, t) && Announce !in steps
    ensures PcOk(t) && LeftOver(t, at, left)
    decreases |steps|
  {
    hide PcOk, LeftOver, Enabled, Next, AllOrNothing;
    if steps != [] {
      LeftOverStays(s, steps[0], at, left);
      LeftOverLasts(Next(s, steps[0]), steps[1..], t, at, left);
    }
  }

  /** How many bytes were fetched again, and more, behind the left-over. */
  function Again(t: S, at: nat): nat {
    if t.status.base + t.status.committed < at then 0 else t.status.base + t.status.committed - at
  }

  /** What the file holds up to the committed size, with a left-over in it. */
  lemma ShownPart(t: S, at: nat, left: seq<Byte>)
    requires LeftOver(t, at, left)
    ensures var b, c := t.status.base, t.status.committed;
            && t.status.generation > 0 && t.status.generation in t.spool
            && b <= at <= b + c <= |t.origin| && at + |left| <= |t.origin| && left == t.origin[at..at + |left|] && c <= |Current(t)|
            && Current(t)[..c] == ((t.origin[b..at] + left) + t.origin[at..b + c])[..c]
  {
    var b, c, e := t.status.base, t.status.committed, SpoolEnd(t);
    SameFront(t.origin[b..at] + left, t.origin[at..b + c], t.origin[at..e], c);
  }

  lemma SameFront(head: seq<Byte>, x: seq<Byte>, y: seq<Byte>, n: nat)
    requires |x| <= |y| && y[..|x|] == x && n <= |head| + |x|
    ensures (head + x)[..n] == (head + y)[..n]
  {
  }

  /** What was fetched from the left-over's place on, `k` bytes of it, repeats with its length, or
      is no longer. */
  predicate Repeats(origin: seq<Byte>, at: nat, k: nat, n: nat)
    requires at + k <= |origin|
  {
    k <= n || origin[at..at + k][n..] == origin[at..at + k][..k - n]
  }

  /** With a left-over a reader sees the right bytes exactly while what was fetched behind it
      is no longer than it, or repeats with its length. */
  lemma LeftOverShows(t: S, at: nat, left: seq<Byte>)
    requires LeftOver(t, at, left)
    ensures at + Again(t, at) <= |t.origin| && (Visible(t) <==> Repeats(t.origin, at, Again(t, at), |left|))
  {
    ShownPart(t, at, left);
    VisibleMeans(t);
    hide LeftOver, Visible, Current, SpoolEnd, Repeats;
    LeftOverCompared(Current(t)[..t.status.committed], t.origin, t.status.base, at, left, t.status.committed);
  }

  lemma LeftOverCompared(shown: seq<Byte>, origin: seq<Byte>, b: nat, at: nat, left: seq<Byte>, c: nat)
    requires b <= at <= b + c <= |origin| && at + |left| <= |origin| && left == origin[at..at + |left|]
    requires c <= at - b + |left| + (b + c - at) && shown == ((origin[b..at] + left) + origin[at..b + c])[..c]
    ensures shown == origin[b..b + c] <==> Repeats(origin, at, b + c - at, |left|)
  {
    PartialBytes(origin, b, at, |left|, b + c - at);
  }

  /** After a write that failed with `landed` bytes on disk, at any moment of any later run of
      whole writes in the same generation. */
  lemma AfterPartialWrite(s: S, landed: nat, steps: seq<Step>, t: S)
    requires Inv(s) && Enabled(s, Write(false, landed))
    requires Leads(Next(s, Write(false, landed)), steps, t) && Announce !in steps
    ensures var k := Again(t, s.pc.at);
            s.pc.at + k <= |t.origin|
            && (Visible(t) <==> landed >= k || t.origin[s.pc.at..s.pc.at + k][landed..] == t.origin[s.pc.at..s.pc.at + k][..k - landed])
  {
    hide Leads, Visible, Next, LeftOver, PcOk, SpoolOk, Current;
    FailedWriteLeaves(s, landed);
    LeftOverLasts(Next(s, Write(false, landed)), steps, t, s.pc.at, s.pc.chunk[..landed]);
    LeftOverShows(t, s.pc.at, s.pc.chunk[..landed]);
  }

  /** So only a write that left nothing is harmless whatever is fetched next: behind a left-over
      the first byte fetched past its length is shown wrong unless it repeats the first one. */
  lemma OnlyNothingLeftIsSafe(t: S, at: nat, left: seq<Byte>)
    requires LeftOver(t, at, left)
    ensures left == [] ==> Visible(t)
    ensures left != [] && Again(t, at) > |left| && t.origin[at + |left|] != t.origin[at] ==> !Visible(t)
  {
    hide LeftOver, Visible;
    LeftOverShows(t, at, left);
    var k := Again(t, at);
    if k > |left| {
      var again := t.origin[at..at + k];
      assert again[|left|..][0] == t.origin[at + |left|] && again[..k - |left|][0] == t.origin[at];
      assert left == [] ==> again[|left|..] == again == again[..k - |left|];
    }
  }

  lemma VisibleMeans(t: S)
    requires t.status.generation > 0 && t.status.generation in t.spool && t.status.committed <= |Current(t)|
    requires t.status.base + t.status.committed <= |t.origin|
    ensures Visible(t) <==> Current(t)[..t.status.committed] == t.origin[t.status.base..t.status.base + t.status.committed]
  {
  }

  lemma PartialBytes(device: seq<Byte>, b: nat, at: nat, landed: nat, got: nat)
    requires b <= at && at + landed <= |device| && at + got <= |device|
    ensures var file := (device[b..at] + device[at..at + landed]) + device[at..at + got];
            var again := device[at..at + got];
            && at - b + got <= |file|
            && (file[..at - b + got] == device[b..at + got] <==> landed >= got || again[landed..] == again[..got - landed])
  {
    var head, left, again := device[b..at], device[at..at + landed], device[at..at + got];
    var file := (head + left) + again;
    var n := at - b;
    assert device[b..at + got] == head + again;
    if landed >= got {
      assert file[..n + got] == head + left[..got];
      assert left[..got] == again;
    } else {
      assert file[..n + got] == head + (left + again[..got - landed]);
      assert again == left + again[landed..];
      TailsAgree(head, left + again[..got - landed], again);
      TailsAgree(left, again[..got - landed], again[landed..]);
    }
  }

  lemma TailsAgree(head: seq<Byte>, x: seq<Byte>, y: seq<Byte>)
    requires |x| == |y|
    ensures head + x == head + y <==> x == y
  {
    assert (head + x)[|head|..] == x && (head + y)[|head|..] == y;
  }

  /** One whole turn of the poll: `got` bytes from where the spool ends. */
  function Turn(at: nat, got: nat): seq<Step> {
    [Poll(false, at + got), Enter, Read(got), Write(true, got), Commit, Enter]
  }

  /** The state such a turn leaves. */
  function AfterTurn(s: S, got: nat): S
    requires s.status.base + s.status.committed + got <= |s.device|
  {
    var at := s.status.base + s.status.committed;
    s.(spool := s.spool[s.status.generation := Current(s) + s.device[at..at + got]],
       status := s.status.(committed := s.status.committed + got, failed := false))
  }

  /** The second half of a turn: the bytes were read. */
  lemma WriteLeads(s: S, got: nat)
    requires got > 0 && s.pc == Idle && !s.stopping && s.status.base + s.status.committed + got <= |s.device|
    ensures var at := s.status.base + s.status.committed;
            Leads(s.(pc := Writing(at, at + got, s.device[at..at + got])), [Write(true, got), Commit, Enter], AfterTurn(s, got))
  {
    var at := s.status.base + s.status.committed;
    var chunk := s.device[at..at + got];
    var s3 := s.(pc := Writing(at, at + got, chunk));
    var s4 := s3.(spool := s.spool[s.status.generation := Current(s) + chunk], pc := Written(at, at + got, chunk));
    var s5 := s4.(status := s.status.(committed := s.status.committed + got), pc := Fetching(at + got, at + got));
    assert chunk[..got] == chunk;
    var t := AfterTurn(s, got);
    hide Leads;
    EmptyRun(t);
    assert Next(s5, Enter) == t;
    FirstStep(s5, Enter, [], t);
    assert Next(s4, Commit) == s5;
    FirstStep(s4, Commit, [Enter], t);
    assert Next(s3, Write(true, got)) == s4;
    FirstStep(s3, Write(true, got), [Commit, Enter], t);
  }

  lemma TurnLeads(s: S, got: nat)
    requires s.pc == Idle && !s.stopping && !s.stale && s.status.generation > 0 && got > 0
    requires s.status.base + s.status.committed + got <= |s.device|
    ensures Leads(s, Turn(s.status.base + s.status.committed, got), AfterTurn(s, got))
  {
    hide Leads, AfterTurn;
    var at := s.status.base + s.status.committed;
    WriteLeads(s, got);
    var t := AfterTurn(s, got);
    var s1 := s.(pc := Fetching(at, at + got));
    var s2 := s.(pc := Reading(at, at + got));
    assert Next(s2, Read(got)) == s.(pc := Writing(at, at + got, s.device[at..at + got]));
    FirstStep(s2, Read(got), [Write(true, got), Commit, Enter], t);
    assert Next(s1, Enter) == s2;
    FirstStep(s1, Enter, [Read(got), Write(true, got), Commit, Enter], t);
    assert Next(s, Poll(false, at + got)) == s1;
    FirstStep(s, Poll(false, at + got), [Enter, Read(got), Write(true, got), Commit, Enter], t);
    assert [Poll(false, at + got)] + [Enter, Read(got), Write(true, got), Commit, Enter] == Turn(at, got);
  }

  lemma EmptyRun(s: S)
    ensures Leads(s, [], s)
  {
  }

  lemma FirstStep(s: S, step: Step, steps: seq<Step>, t: S)
    requires Enabled(s, step) && AllOrNothing(s, step) && Leads(Next(s, step), steps, t)
    ensures Leads(s, [step] + steps, t)
  {
    assert ([step] + steps)[1..] == steps;
  }

  /** A log of three bytes, its first two read and about to be written. */
  const EXAMPLE: S := S(Status(1, 0, 0, 3, false), Writing(0, 2, [7, 7]), false, map[1 := []], [7, 7, 8], [7, 7, 8], false, 0)

  /** The write fails with one of the two on disk. */
  const FAILED: S := S(Status(1, 0, 0, 3, true), Idle, false, map[1 := [7]], [7, 7, 8], [7, 7, 8], false, 0)

  lemma ExampleFails()
    ensures Inv(EXAMPLE) && Enabled(EXAMPLE, Write(false, 1)) && Next(EXAMPLE, Write(false, 1)) == FAILED
    ensures PcOk(FAILED) && LeftOver(FAILED, 0, [7])
  {
    assert EXAMPLE.device[0..2] == [7, 7] && EXAMPLE.origin[0..0] == [] && [7, 7][..1] == [7];
    assert Current(EXAMPLE) + EXAMPLE.pc.chunk[..1] == [7];
    assert EXAMPLE.spool[1 := [7]] == map[1 := [7]];
    FailedWriteLeaves(EXAMPLE, 1);
  }

  /** It does go wrong: of the two bytes of a write one lands uncounted. The turn that fetches
      them again still shows the right two, for they are alike, and the one behind it shows the
      second again in place of the third. */
  lemma PartialWriteCorrupts() returns (t: S, u: S)
    ensures Inv(EXAMPLE) && Enabled(EXAMPLE, Write(false, 1)) && Next(EXAMPLE, Write(false, 1)) == FAILED
    ensures Leads(FAILED, Turn(0, 2), t) && t.status.committed == 2 && Visible(t)
    ensures Leads(t, Turn(2, 1), u) && u.status.committed == 3 && !Visible(u)
  {
    ExampleFails();
    hide Leads, Visible, LeftOver, PcOk, Inv, Next, Enabled;
    TurnLeads(FAILED, 2);
    t := AfterTurn(FAILED, 2);
    TurnLeads(t, 1);
    u := AfterTurn(t, 1);
    LeftOverLasts(FAILED, Turn(0, 2), t, 0, [7]);
    LeftOverLasts(t, Turn(2, 1), u, 0, [7]);
    LeftOverShows(t, 0, [7]);
    LeftOverShows(u, 0, [7]);
    assert t.origin[0..2][1..][0] == 7 && t.origin[0..2][..1][0] == 7;
    assert t.origin[0..2][1..] == t.origin[0..2][..1];
    assert u.origin[0..3][1..][1] == 8 && u.origin[0..3][..2][1] == 7;
  }

  // ---------------------------------------------------------------------------
  // A flush that fails
  // ---------------------------------------------------------------------------

  /** A write that is refused leaves nothing; one that is taken may reach the disk in part, for
      nobody looks at the flush behind it. */
  predicate RefusedLeavesNothing(s: S, step: Step) {
    step.Write? && s.pc.Writing? && !step.ok ==> step.landed == 0
  }

  ghost predicate Flushes(s: S, steps: seq<Step>, t: S)
    decreases |steps|
  {
    if steps == [] then s == t
    else Enabled(s, steps[0]) && RefusedLeavesNothing(s, steps[0]) && Flushes(Next(s, steps[0]), steps[1..], t)
  }

  /** What one step took and did not bring to disk. */
  function Unflushed(s: S, step: Step): nat
    requires Enabled(s, step)
  {
    if step.Write? && step.ok then |s.pc.chunk| - step.landed else 0
  }

  function UnflushedOver(s: S, steps: seq<Step>): nat
    decreases |steps|
  {
    if steps == [] || !Enabled(s, steps[0]) then 0
    else Unflushed(s, steps[0]) + UnflushedOver(Next(s, steps[0]), steps[1..])
  }

  /** The file is short of what was counted by `lost`. */
  ghost predicate ShortBy(s: S, lost: nat) {
    PcOk(s) && s.status.generation > 0 && s.status.generation in s.spool && s.status.base + |Current(s)| + lost == SpoolEnd(s)
  }

  lemma StepIsShort(s: S, step: Step, lost: nat)
    requires ShortBy(s, lost) && Enabled(s, step) && RefusedLeavesNothing(s, step) && step != Announce
    ensures ShortBy(Next(s, step), lost + Unflushed(s, step))
  {
    if Quiet(step) {
      QuietKeepsPc(s, step);
      QuietKeepsBytes(s, step);
    } else if step.Grow? {
      if s.pc.Writing? || s.pc.Written? {
        assert Next(s, step).device[s.pc.at..s.pc.at + |s.pc.chunk|] == s.device[s.pc.at..s.pc.at + |s.pc.chunk|];
      }
    }
  }

  lemma {:induction false} RunIsShort(s: S, steps: seq<Step>, t: S, lost: nat)
    requires ShortBy(s, lost) && Flushes(s, steps, t) && Announce !in steps
    ensures ShortBy(t, lost + UnflushedOver(s, steps))
    decreases |steps|
  {
    hide ShortBy, Enabled, Next, RefusedLeavesNothing, Unflushed;
    if steps != [] {
      StepIsShort(s, steps[0], lost);
      RunIsShort(Next(s, steps[0]), steps[1..], t, lost + Unflushed(s, steps[0]));
    }
  }

  /** A published size lies on disk exactly when no flush of the generation has fallen short. */
  lemma FlushedIsOnDisk(s: S, steps: seq<Step>, t: S)
    requires Inv(s) && s.status.generation > 0 && Flushes(s, steps, t) && Announce !in steps && !t.pc.Written?
    ensures t.status.committed <= |Current(t)| <==> UnflushedOver(s, steps) == 0
  {
    RunIsShort(s, steps, t, 0);
  }
}
