/** An archive member being expanded into its spool: the worker, the cancel that may come at
    any moment, and what a reader may see of it. Each step is one critical section, one file
    operation or one return of a read. */
module ArchiveFetchers {
  import opened Decoders

  const CHUNK: nat := 256 * 1024
  const PRIME: nat := 128 * 1024

  datatype FetchState = Idle | Connecting | Priming | Live | Error | Disconnected | Waiting | Complete

  /** What the fetcher publishes, under its lock. */
  datatype Status = Status(state: FetchState, generation: nat, committed: nat, total: nat)

  /** Where the worker stands. `prime`: inside the held-back first expansion. */
  datatype Pc =
    | Opening                          // waiting for the container, looking for the member
    | Making                           // the next generation's number is taken
    | Announcing                       // its file exists and is empty
    | LoopTop(prime: bool, written: nat)
    | Reading(prime: bool, written: nat)
    | Returned(prime: bool, written: nat, answer: int) // the read is back, the stop not looked at yet
    | Writing(prime: bool, written: nat, got: nat)
    | Written(prime: bool, written: nat, got: nat)  // on disk, not committed
    | Primed(finished: bool)           // about to publish what the prime held back
    | Finishing                        // about to publish Complete
    | Over

  /** What the decompressor's input came to during a read: all of the container, or a
      container that stopped arriving, with what its transport said last. */
  datatype Input = Whole | Dead(up: Upstream)

  /** `taken`: bytes the decompressor has handed out; `spool`: the file per generation; `cut`: a
      read that nobody cancelled has ended in front of the member's end. */
  datatype S = S(status: Status, held: nat, holdBack: bool, stopping: bool, pc: Pc, taken: nat, spool: map<nat, seq<Byte>>,
                 cut: bool)

  datatype Step =
    | Wait(state: FetchState)   // the container is not there, or being connected to
    | OpenFails
    | Open(total: nat)
    | MakeFile(ok: bool)
    | Announce(total: nat)
    | Enter                     // the loop's condition and the first look at the stop
    | Read(got: int, input: Input)
    | LookAgain                 // the second look at the stop, and what the read came to
    | Write(ok: bool, landed: nat)
    | Commit
    | PublishHeld
    | PublishComplete
    | RequestStop

  function Want(prime: bool, written: nat): nat {
    if !prime then CHUNK else if PRIME <= written then 0 else if PRIME - written < CHUNK then PRIME - written else CHUNK
  }

  predicate Enabled(member: seq<Byte>, s: S, step: Step) {
    match step
    case Wait(state) => s.pc == Opening && (state == Waiting || state == Connecting)
    case OpenFails => s.pc == Opening
    case Open(_) => s.pc == Opening
    case MakeFile(_) => s.pc == Making
    case Announce(_) => s.pc == Announcing
    case Enter => s.pc.LoopTop?
    case Read(got, input) => s.pc.Reading? && -1 <= got <= Want(s.pc.prime, s.pc.written) && s.taken + got <= |member|
                             // a codec that cannot tell takes the end of its input for the end of
                             // the member: after a cancel, or when the container stopped arriving
                             && (got == 0 ==> s.taken == |member| || s.stopping || CutOff(input))
    case LookAgain => s.pc.Returned?
    case Write(ok, landed) => s.pc.Writing? && landed <= s.pc.got && (ok ==> landed == s.pc.got)
    case Commit => s.pc.Written?
    case PublishHeld => s.pc.Primed?
    case PublishComplete => s.pc.Finishing?
    case RequestStop => true
  }

  function Fail(s: S): S { s.(status := s.status.(state := Error), pc := Over) }

  /** The expansion loop was left without an error. */
  function Left(s: S, prime: bool, finished: bool): S {
    if prime then s.(holdBack := false, pc := Primed(finished))
    else s.(pc := if finished then Finishing else Over)
  }

  function Current(s: S): seq<Byte> {
    if s.status.generation in s.spool then s.spool[s.status.generation] else []
  }

  function Max(a: nat, b: nat): nat { if a > b then a else b }

  function Next(member: seq<Byte>, s: S, step: Step): S
    requires Enabled(member, s, step)
  {
    match step
    case Wait(state) => if s.stopping then s.(pc := Over) else s.(status := s.status.(state := state))
    case OpenFails => Fail(s)
    case Open(total) => s.(status := s.status.(state := Priming), pc := Making)
    case MakeFile(ok) =>
      if ok then s.(spool := s.spool[s.status.generation + 1 := []], pc := Announcing) else Fail(s)
    case Announce(total) =>
      s.(status := s.status.(generation := s.status.generation + 1, committed := 0, total := total),
         held := 0, holdBack := true, pc := LoopTop(true, 0))
    case Enter =>
      if (s.pc.prime && s.pc.written >= PRIME) || s.stopping then Left(s, s.pc.prime, false)
      else s.(pc := Reading(s.pc.prime, s.pc.written))
    case Read(got, _) => s.(taken := s.taken + Max(0, if got < 0 then 0 else got), pc := Returned(s.pc.prime, s.pc.written, got),
                            cut := s.cut || (got == 0 && s.taken < |member| && !s.stopping))
    case LookAgain =>
      if s.stopping then Left(s, s.pc.prime, false)
      else if s.pc.answer < 0 then Fail(s)
      else if s.pc.answer == 0 then Left(s, s.pc.prime, true)
      else s.(pc := Writing(s.pc.prime, s.pc.written, s.pc.answer))
    case Write(ok, landed) =>
      var from := if s.pc.got <= s.taken <= |member| then s.taken - s.pc.got else 0;
      var chunk := if from + landed <= |member| then member[from..from + landed] else [];
      var s1 := s.(spool := s.spool[s.status.generation := Current(s) + chunk]);
      if ok then s1.(pc := Written(s.pc.prime, s.pc.written + s.pc.got, s.pc.got)) else Fail(s1)
    case Commit =>
      var held := s.held + s.pc.got;
      s.(held := held,
         status := s.status.(total := Max(s.status.total, held), committed := if s.holdBack then s.status.committed else held),
         pc := LoopTop(s.pc.prime, s.pc.written))
    case PublishHeld =>
      var s1 := s.(status := s.status.(committed := Max(s.held, s.status.committed)));
      s1.(pc := if s.pc.finished then Finishing else LoopTop(false, 0))
    case PublishComplete =>
      s.(status := s.status.(total := s.status.committed, state := Complete), pc := Over)
    case RequestStop =>
      if s.stopping then s
      else s.(stopping := true, status := if s.status.state == Complete then s.status else s.status.(state := Disconnected))
  }

  predicate Init(s: S) {
    s == S(Status(Connecting, 0, 0, 0), 0, false, false, Opening, 0, map[], false)
  }

  // ---------------------------------------------------------------------------
  // The invariant
  // ---------------------------------------------------------------------------

  predicate InPrime(pc: Pc) {
    match pc
    case LoopTop(p, _) => p
    case Reading(p, _) => p
    case Returned(p, _, _) => p
    case Writing(p, _, _) => p
    case Written(p, _, _) => p
    case _ => false
  }

  predicate Expanding(pc: Pc) {
    pc.LoopTop? || pc.Reading? || pc.Returned? || pc.Writing? || pc.Written?
  }

  /** The current generation's file is there, holds a prefix of the member, and reaches at
      least as far as what was committed. */
  ghost predicate SpoolOk(member: seq<Byte>, s: S) {
    && (s.status.generation > 0 ==> s.status.generation in s.spool)
    && (s.pc == Announcing ==> s.status.generation + 1 in s.spool && s.spool[s.status.generation + 1] == [])
    && Current(s) <= member
    && s.status.committed <= s.held <= |Current(s)| <= s.taken
  }

  /** How the counters, the file and the decompressor stand to each other at each point. */
  ghost predicate CountsOk(member: seq<Byte>, s: S) {
    && (Expanding(s.pc) || s.pc.Primed? || s.pc == Finishing ==> s.status.generation > 0)
    && (s.pc == Opening || s.pc == Making || s.pc == Announcing ==> s.status.generation == 0 && s.taken == 0 && s.held == 0)
    && s.taken <= |member|
    && (s.pc.LoopTop? ==> |Current(s)| == s.held && (s.stopping || s.taken == s.held))
    && (s.pc.Reading? ==> |Current(s)| == s.held == s.taken)
    && (s.pc.Returned? ==> |Current(s)| == s.held && s.taken == s.held + (if s.pc.answer > 0 then s.pc.answer else 0))
    && (s.pc.Writing? ==> s.pc.got > 0 && |Current(s)| == s.held && s.taken == s.held + s.pc.got)
    && (s.pc.Written? ==> |Current(s)| == s.held + s.pc.got == s.taken)
    && (s.pc.Returned? && s.pc.answer == 0 && !s.stopping ==> s.cut || s.taken == |member|)
    && (s.pc.Primed? && s.pc.finished ==> s.cut || s.held == |member|)
    && (s.pc.Primed? ==> |Current(s)| == s.held && (s.stopping || s.cut || s.held >= MinPrime(member))
                         && (!s.pc.finished && !s.stopping ==> s.taken == s.held))
    && (s.pc == Finishing ==> s.status.committed == |Current(s)| && (s.cut || s.status.committed == |member|))
  }

  function MinPrime(member: seq<Byte>): nat { if |member| < PRIME then |member| else PRIME }

  /** What the hold-back keeps from a reader: nothing, or the whole prime. */
  ghost predicate PrimeOk(member: seq<Byte>, s: S) {
    && (InPrime(s.pc) ==> s.holdBack && s.status.committed == 0
                          && s.pc.written == (if s.pc.Written? then s.held + s.pc.got else s.held))
    && (Expanding(s.pc) && !InPrime(s.pc) ==> !s.holdBack && s.status.committed == s.held && (s.stopping || s.cut || s.held >= MinPrime(member)))
    && (s.pc.Primed? ==> s.status.committed == 0 && !s.holdBack)
    && (s.status.committed > 0 ==> s.stopping || s.cut || s.status.committed >= MinPrime(member))
  }

  /** Complete means that every byte of the spool is committed, that the worker is done, and,
      unless an uncancelled read was cut short, that the spool is the whole member. */
  ghost predicate CompleteOk(member: seq<Byte>, s: S) {
    s.status.state == Complete ==>
      s.pc == Over && s.status.committed == |Current(s)| && (s.cut || s.status.committed == |member|)
  }

  /** Nothing is read after a read that was cut short. */
  ghost predicate CutOk(member: seq<Byte>, s: S) {
    s.cut ==>
      && s.taken < |member| && s.status.generation > 0
      && (s.pc.Returned? || s.pc.Primed? || s.pc == Finishing || s.pc == Over || s.pc.LoopTop?)
      && (s.pc.Returned? ==> s.pc.answer == 0)
      && (s.pc.LoopTop? || (s.pc.Primed? && !s.pc.finished) ==> s.stopping)
  }

  ghost predicate Inv(member: seq<Byte>, s: S) {
    SpoolOk(member, s) && CountsOk(member, s) && PrimeOk(member, s) && CompleteOk(member, s) && CutOk(member, s)
  }

  lemma InitInv(member: seq<Byte>, s: S)
    requires Init(s)
    ensures Inv(member, s)
  {
  }

  lemma WriteKeepsInv(member: seq<Byte>, s: S, ok: bool, landed: nat)
    requires Inv(member, s) && Enabled(member, s, Write(ok, landed))
    ensures Inv(member, Next(member, s, Write(ok, landed)))
  {
    var s' := Next(member, s, Write(ok, landed));
    var from := s.taken - s.pc.got;
    assert Current(s) == member[..from];
    assert Current(s') == member[..from] + member[from..from + landed] == member[..from + landed];
  }

  /** Opening the container and announcing the first generation. */
  lemma StartKeepsInv(member: seq<Byte>, s: S, step: Step)
    requires Inv(member, s) && Enabled(member, s, step)
    requires step.Wait? || step.OpenFails? || step.Open? || step.MakeFile? || step.Announce?
    ensures Inv(member, Next(member, s, step))
  {
  }

  lemma LoopKeepsInv(member: seq<Byte>, s: S, step: Step)
    requires Inv(member, s) && Enabled(member, s, step) && (step.Enter? || step.Read? || step.LookAgain?)
    ensures Inv(member, Next(member, s, step))
  {
    assert Current(Next(member, s, step)) == Current(s);
  }

  lemma PublishKeepsInv(member: seq<Byte>, s: S, step: Step)
    requires Inv(member, s) && Enabled(member, s, step)
    requires step.Commit? || step.PublishHeld? || step.PublishComplete? || step.RequestStop?
    ensures Inv(member, Next(member, s, step))
  {
    assert Current(Next(member, s, step)) == Current(s);
  }

  lemma StepKeepsInv(member: seq<Byte>, s: S, step: Step)
    requires Inv(member, s) && Enabled(member, s, step)
    ensures Inv(member, Next(member, s, step))
  {
    hide Inv, Enabled, Next;
    match step
    case Write(ok, landed) => WriteKeepsInv(member, s, ok, landed);
    case Wait(_) => StartKeepsInv(member, s, step);
    case OpenFails => StartKeepsInv(member, s, step);
    case Open(_) => StartKeepsInv(member, s, step);
    case MakeFile(_) => StartKeepsInv(member, s, step);
    case Announce(_) => StartKeepsInv(member, s, step);
    case Enter => LoopKeepsInv(member, s, step);
    case Read(_, _) => LoopKeepsInv(member, s, step);
    case LookAgain => LoopKeepsInv(member, s, step);
    case Commit => PublishKeepsInv(member, s, step);
    case PublishHeld => PublishKeepsInv(member, s, step);
    case PublishComplete => PublishKeepsInv(member, s, step);
    case RequestStop => PublishKeepsInv(member, s, step);
  }

  // ---------------------------------------------------------------------------
  // Whole runs
  // ---------------------------------------------------------------------------

  /** `steps`, taken one after the other, lead from `s` to `t`. */
  ghost predicate Leads(member: seq<Byte>, s: S, steps: seq<Step>, t: S)
    decreases |steps|
  {
    if steps == [] then s == t
    else Enabled(member, s, steps[0]) && Leads(member, Next(member, s, steps[0]), steps[1..], t)
  }

  lemma {:induction false} RunKeepsInv(member: seq<Byte>, s: S, steps: seq<Step>, t: S)
    requires Inv(member, s) && Leads(member, s, steps, t)
    ensures Inv(member, t)
    decreases |steps|
  {
    hide Inv, Enabled, Next;
    if steps != [] {
      StepKeepsInv(member, s, steps[0]);
      RunKeepsInv(member, Next(member, s, steps[0]), steps[1..], t);
    }
  }

  /** What no later moment takes back from a reader. */
  ghost predicate Later(s: S, t: S) {
    && s.status.generation <= t.status.generation
    && (s.status.generation == t.status.generation ==> s.status.committed <= t.status.committed)
    && (forall g :: g in s.spool && g <= s.status.generation ==> g in t.spool && s.spool[g] <= t.spool[g])
    && (s.status.state == Complete ==> t.status == s.status && t.cut == s.cut)
    && (s.stopping ==> t.stopping)
  }

  lemma StepIsLater(member: seq<Byte>, s: S, step: Step)
    requires Inv(member, s) && Enabled(member, s, step)
    ensures Later(s, Next(member, s, step))
  {
  }

  lemma {:induction false} RunIsLater(member: seq<Byte>, s: S, steps: seq<Step>, t: S)
    requires Inv(member, s) && Leads(member, s, steps, t)
    ensures Later(s, t) && Inv(member, t)
    decreases |steps|
  {
    hide Inv, Enabled, Next;
    if steps != [] {
      var u := Next(member, s, steps[0]);
      StepKeepsInv(member, s, steps[0]);
      StepIsLater(member, s, steps[0]);
      RunIsLater(member, u, steps[1..], t);
    }
  }

  /** At every moment of every run: the published generation's file is there and its first
      `committed` bytes are the member's; the first size that is not zero covers the whole
      prime, unless the expansion was cancelled or cut short; and Complete means every byte of
      the member exactly when no uncancelled read was cut short. */
  lemma WhatAReaderSees(member: seq<Byte>, init: S, steps: seq<Step>, s: S)
    requires Init(init) && Leads(member, init, steps, s)
    ensures Inv(member, s)
    ensures s.status.generation > 0 ==>
              s.status.generation in s.spool && s.status.committed <= |Current(s)| && s.status.committed <= |member|
              && Current(s)[..s.status.committed] == member[..s.status.committed]
    ensures s.status.committed > 0 ==> s.stopping || s.cut || s.status.committed >= (if |member| < 131072 then |member| else 131072)
    ensures s.status.state == Complete ==> (s.status.committed == |member| <==> !s.cut)
  {
    InitInv(member, init);
    RunKeepsInv(member, init, steps, s);
  }

  /** Every read of the run had the whole container to read from. */
  ghost predicate AllDelivered(steps: seq<Step>) {
    forall i :: 0 <= i < |steps| && steps[i].Read? ==> !CutOff(steps[i].input)
  }

  lemma {:induction false} DeliveredIsNotCut(member: seq<Byte>, s: S, steps: seq<Step>, t: S)
    requires Leads(member, s, steps, t) && AllDelivered(steps) && !s.cut
    ensures !t.cut
    decreases |steps|
  {
    if steps != [] { DeliveredIsNotCut(member, Next(member, s, steps[0]), steps[1..], t); }
  }

  /** So with the container delivered whenever a read asked for it, Complete means every byte. */
  lemma DeliveredIsWhole(member: seq<Byte>, init: S, steps: seq<Step>, s: S)
    requires Init(init) && Leads(member, init, steps, s) && AllDelivered(steps)
    ensures s.status.state == Complete ==> s.status.committed == |member|
    ensures s.status.committed > 0 ==> s.stopping || s.status.committed >= MinPrime(member)
  {
    WhatAReaderSees(member, init, steps, s);
    DeliveredIsNotCut(member, init, steps, s);
  }

  /** A size seen once stays good: however far the run went on, those bytes are still there. */
  lemma SeenBytesStay(member: seq<Byte>, s: S, steps: seq<Step>, t: S)
    requires Inv(member, s) && Leads(member, s, steps, t) && s.status.generation > 0
    ensures var g, c := s.status.generation, s.status.committed;
            g in t.spool && c <= |t.spool[g]| && c <= |member| && t.spool[g][..c] == member[..c]
  {
    RunIsLater(member, s, steps, t);
    var g, c := s.status.generation, s.status.committed;
    assert t.spool[g][..c] == s.spool[g][..c] == member[..c];
  }

  /** Complete is never left, nothing is committed after it, and whether it is the whole member
      is settled. */
  lemma CompleteIsFinal(member: seq<Byte>, s: S, steps: seq<Step>, t: S)
    requires Inv(member, s) && Leads(member, s, steps, t) && s.status.state == Complete
    ensures t.status == s.status && t.cut == s.cut && (t.status.committed == |member| <==> !t.cut)
  {
    RunIsLater(member, s, steps, t);
  }

  /** The rest of the run of a worker that took a read for the member's end. */
  function FinishingSteps(prime: bool): seq<Step> {
    if prime then [LookAgain, PublishHeld, PublishComplete] else [LookAgain, PublishComplete]
  }

  function Finished(member: seq<Byte>, s: S): S
    requires s.pc.Returned? && s.pc.answer == 0 && !s.stopping
  {
    var s1 := Next(member, s, LookAgain);
    var s2 := if s.pc.prime then Next(member, s1, PublishHeld) else s1;
    Next(member, s2, PublishComplete)
  }

  lemma FinishedLeads(member: seq<Byte>, s: S)
    requires s.pc.Returned? && s.pc.answer == 0 && !s.stopping
    ensures Leads(member, s, FinishingSteps(s.pc.prime), Finished(member, s)) && Finished(member, s).status.state == Complete
  {
    hide Leads;
    var t := Finished(member, s);
    var s1 := Next(member, s, LookAgain);
    EmptyRun(member, t);
    if s.pc.prime {
      var s2 := Next(member, s1, PublishHeld);
      FirstStep(member, s2, PublishComplete, [], t);
      FirstStep(member, s1, PublishHeld, [PublishComplete] + [], t);
      FirstStep(member, s, LookAgain, [PublishHeld] + ([PublishComplete] + []), t);
      assert [LookAgain] + ([PublishHeld] + ([PublishComplete] + [])) == FinishingSteps(true);
    } else {
      FirstStep(member, s1, PublishComplete, [], t);
      FirstStep(member, s, LookAgain, [PublishComplete] + [], t);
      assert [LookAgain] + ([PublishComplete] + []) == FinishingSteps(false);
    }
  }

  lemma EmptyRun(member: seq<Byte>, s: S)
    ensures Leads(member, s, [], s)
  {
  }

  /** A read that came back empty in front of the member's end is taken for the end exactly when
      it was not cancelled: after a cancel no run reaches Complete, and without one some run
      does, with fewer bytes than the member has. */
  lemma CutReadCompletes(member: seq<Byte>, s: S)
    requires Inv(member, s) && s.pc.Returned? && s.pc.answer == 0 && s.taken < |member|
    ensures (exists steps, t :: Leads(member, s, steps, t) && t.status.state == Complete) <==> !s.stopping
    ensures forall steps, t :: Leads(member, s, steps, t) && t.status.state == Complete ==> t.status.committed < |member|
  {
    forall steps, t | Leads(member, s, steps, t) ensures t.status.state == Complete ==> !s.stopping && t.status.committed < |member| {
      CutStaysShort(member, s, steps, t);
    }
    if !s.stopping { FinishedLeads(member, s); }
  }

  lemma CutStaysShort(member: seq<Byte>, s: S, steps: seq<Step>, t: S)
    requires Inv(member, s) && Leads(member, s, steps, t)
    requires s.pc.Returned? && s.pc.answer == 0 && s.taken < |member|
    ensures t.status.state == Complete ==> !s.stopping && t.status.committed < |member|
  {
    RunKeepsInv(member, s, steps, t);
    if s.stopping {
      CancelledStays(member, s, steps, t);
    } else {
      CutStays(member, s, steps, t);
    }
  }

  /** A worker that a cancel reached outside the end of its loop. */
  predicate Cancelled(s: S) {
    && s.stopping && s.status.state != Complete
    && (s.pc.Returned? || s.pc.LoopTop? || s.pc == Over || (s.pc.Primed? && !s.pc.finished))
  }

  lemma {:induction false} CancelledStays(member: seq<Byte>, s: S, steps: seq<Step>, t: S)
    requires Leads(member, s, steps, t) && Cancelled(s)
    ensures Cancelled(t)
    decreases |steps|
  {
    if steps != [] { CancelledStays(member, Next(member, s, steps[0]), steps[1..], t); }
  }

  lemma {:induction false} CutStays(member: seq<Byte>, s: S, steps: seq<Step>, t: S)
    requires Leads(member, s, steps, t) && s.cut
    ensures t.cut
    decreases |steps|
  {
    if steps != [] { CutStays(member, Next(member, s, steps[0]), steps[1..], t); }
  }

  // ---------------------------------------------------------------------------
  // The expansion goes on and ends
  // ---------------------------------------------------------------------------

  /** The worker is over for one of three reasons: it was stopped, it failed, or it completed; a
      failure and a completion are never left behind by a worker that is not over; and a read asks
      for something. */
  predicate EndsOk(s: S) {
    && (s.pc == Over && !s.stopping ==> s.status.state == Error || s.status.state == Complete)
    && (s.status.state == Error || s.status.state == Complete ==> s.pc == Over)
    && (s.pc.Reading? && s.pc.prime ==> s.pc.written < PRIME)
    && (s.pc.Returned? && s.pc.prime ==> s.pc.written + (if s.pc.answer > 0 then s.pc.answer else 0) <= PRIME)
    && (s.pc.Writing? && s.pc.prime ==> s.pc.written + s.pc.got <= PRIME)
    && ((s.pc.LoopTop? || s.pc.Written?) && s.pc.prime ==> s.pc.written <= PRIME)
  }

  lemma StepKeepsEnds(member: seq<Byte>, s: S, step: Step)
    requires EndsOk(s) && Enabled(member, s, step)
    ensures EndsOk(Next(member, s, step))
  {
  }

  lemma {:induction false} RunKeepsEnds(member: seq<Byte>, s: S, steps: seq<Step>, t: S)
    requires EndsOk(s) && Leads(member, s, steps, t)
    ensures EndsOk(t)
    decreases |steps|
  {
    hide EndsOk, Enabled, Next;
    if steps != [] {
      StepKeepsEnds(member, s, steps[0]);
      RunKeepsEnds(member, Next(member, s, steps[0]), steps[1..], t);
    }
  }

  /** Whatever fails, opening, making the file, a read nobody cancelled or a write, ends the worker
      with an error. */
  lemma FailingEnds(member: seq<Byte>, s: S, step: Step)
    requires Enabled(member, s, step)
    requires step.OpenFails? || (step.MakeFile? && !step.ok) || (step.Write? && !step.ok) || (step.LookAgain? && ReadFailed(s) && !s.stopping)
    ensures Next(member, s, step).pc == Over && Next(member, s, step).status.state == Error
  {
  }

  /** A worker that was not stopped ends with an error or with Complete. */
  lemma OverMeans(member: seq<Byte>, init: S, steps: seq<Step>, s: S)
    requires Init(init) && Leads(member, init, steps, s) && s.pc == Over && !s.stopping && s.status.state != Error
    ensures s.status.state == Complete
  {
    RunKeepsEnds(member, init, steps, s);
  }

  /** A read that failed and was not looked at yet. */
  predicate ReadFailed(s: S) {
    s.pc.Returned? && s.pc.answer < 0
  }

  /** The undisturbed worker's next step. */
  function Onward(member: seq<Byte>, s: S): Step
    requires s.pc != Over && s.taken <= |member|
  {
    match s.pc
    case Opening => Open(0)
    case Making => MakeFile(true)
    case Announcing => Announce(0)
    case LoopTop(_, _) => Enter
    case Reading(prime, written) =>
      Read(if Want(prime, written) < |member| - s.taken then Want(prime, written) else |member| - s.taken, Whole)
    case Returned(_, _, _) => LookAgain
    case Writing(_, _, got) => Write(true, got)
    case Written(_, _, _) => Commit
    case Primed(_) => PublishHeld
    case Finishing => PublishComplete
  }

  /** In no state but the last is the worker stuck. */
  lemma WorkerIsNeverStuck(member: seq<Byte>, init: S, steps: seq<Step>, s: S)
    requires Init(init) && Leads(member, init, steps, s) && s.pc != Over
    ensures s.taken <= |member| && Enabled(member, s, Onward(member, s)) && Onward(member, s) != RequestStop
  {
    InitInv(member, init);
    RunKeepsInv(member, init, steps, s);
    RunKeepsEnds(member, init, steps, s);
    OnwardIsEnabled(member, s);
  }

  lemma OnwardIsEnabled(member: seq<Byte>, s: S)
    requires Inv(member, s) && EndsOk(s) && s.pc != Over
    ensures Enabled(member, s, Onward(member, s)) && Onward(member, s) != RequestStop
  {
  }

  /** How far the worker is from the end within one chunk. */
  function Rank(pc: Pc): nat {
    match pc
    case Opening => 20
    case Making => 19
    case Announcing => 18
    case Returned(_, _, answer) => if answer > 0 then 12 else 5
    case Writing(_, _, _) => 11
    case Written(_, _, _) => 10
    case LoopTop(prime, _) => if prime then 9 else 7
    case Reading(prime, _) => if prime then 8 else 6
    case Primed(finished) => if finished then 4 else 8
    case Finishing => 3
    case Over => 0
  }

  /** Nothing has gone wrong so far. */
  ghost predicate Healthy(member: seq<Byte>, s: S) {
    Inv(member, s) && EndsOk(s) && !s.stopping && !s.cut && s.status.state != Error && !ReadFailed(s)
  }

  lemma OnwardHelps(member: seq<Byte>, s: S)
    requires Healthy(member, s) && s.pc != Over
    ensures s.taken <= |member| && Enabled(member, s, Onward(member, s))
    ensures var t := Next(member, s, Onward(member, s));
            Healthy(member, t) && t.taken <= |member| && 100 * (|member| - t.taken) + Rank(t.pc) < 100 * (|member| - s.taken) + Rank(s.pc)
  {
    OnwardIsEnabled(member, s);
    StepKeepsInv(member, s, Onward(member, s));
    StepKeepsEnds(member, s, Onward(member, s));
    OnwardIsHealthy(member, s);
    hide Inv, EndsOk, Next, Enabled;
  }

  lemma OnwardIsHealthy(member: seq<Byte>, s: S)
    requires Healthy(member, s) && s.pc != Over && Enabled(member, s, Onward(member, s))
    ensures var t := Next(member, s, Onward(member, s));
            && !t.stopping && !t.cut && t.status.state != Error && !ReadFailed(t)
            && t.taken <= |member| && 100 * (|member| - t.taken) + Rank(t.pc) < 100 * (|member| - s.taken) + Rank(s.pc)
  {
    hide PrimeOk, CompleteOk, CutOk;
  }

  /** From every state of an expansion in which nothing has gone wrong some run publishes the whole
      member, however long it is. */
  lemma {:induction false} SomeRunCompletes(member: seq<Byte>, s: S) returns (steps: seq<Step>, t: S)
    requires Healthy(member, s)
    ensures Leads(member, s, steps, t) && RequestStop !in steps && t.status.state == Complete && t.status.committed == |member|
    decreases if s.taken <= |member| then 100 * (|member| - s.taken) + Rank(s.pc) else 0
  {
    if s.pc == Over {
      steps, t := [], s;
    } else {
      OnwardHelps(member, s);
      OnwardIsEnabled(member, s);
      var rest;
      hide Healthy, Enabled, Next, Onward, Rank;
      rest, t := SomeRunCompletes(member, Next(member, s, Onward(member, s)));
      steps := [Onward(member, s)] + rest;
      FirstStep(member, s, Onward(member, s), rest, t);
    }
  }

  /** Of every state a run can reach, uncancelled and uncut: some run goes on from there to the
      whole member exactly when nothing has failed. */
  lemma ExpansionCompletes(member: seq<Byte>, init: S, before: seq<Step>, s: S)
    requires Init(init) && Leads(member, init, before, s) && !s.stopping && !s.cut
    ensures (exists steps, t :: Leads(member, s, steps, t) && t.status.state == Complete && t.status.committed == |member|)
            <==> s.status.state != Error && !ReadFailed(s)
  {
    InitInv(member, init);
    RunKeepsInv(member, init, before, s);
    RunKeepsEnds(member, init, before, s);
    hide Inv, EndsOk, Leads;
    if s.status.state != Error && !ReadFailed(s) {
      var steps, t := SomeRunCompletes(member, s);
    } else {
      forall steps, t | Leads(member, s, steps, t) ensures t.status.state != Complete {
        assert Doomed(s) by { DoomedFromHere(member, s); }
        DoomedStays(member, s, steps, t);
      }
    }
  }

  /** A worker that will not complete any more. */
  predicate Doomed(s: S) {
    s.status.state != Complete && (s.pc == Over || ReadFailed(s) || Cancelled(s))
  }

  lemma DoomedFromHere(member: seq<Byte>, s: S)
    requires EndsOk(s) && (s.status.state == Error || ReadFailed(s))
    ensures Doomed(s)
  {
  }

  lemma {:induction false} DoomedStays(member: seq<Byte>, s: S, steps: seq<Step>, t: S)
    requires Doomed(s) && Leads(member, s, steps, t)
    ensures Doomed(t)
    decreases |steps|
  {
    if steps != [] {
      DoomedStep(member, s, steps[0]);
      DoomedStays(member, Next(member, s, steps[0]), steps[1..], t);
    }
  }

  lemma DoomedStep(member: seq<Byte>, s: S, step: Step)
    requires Doomed(s) && Enabled(member, s, step)
    ensures Doomed(Next(member, s, step))
  {
  }

  // ---------------------------------------------------------------------------
  // A cancel takes
  // ---------------------------------------------------------------------------

  /** The prime never holds back more than it set out to. */
  lemma PrimeIsBounded(member: seq<Byte>, init: S, steps: seq<Step>, s: S)
    requires Init(init) && Leads(member, init, steps, s) && (s.pc.LoopTop? || s.pc.Written?) && s.pc.prime
    ensures s.pc.written <= 131072
  {
    RunKeepsEnds(member, init, steps, s);
  }

  /** A cancel can come at any moment. It is not taken back, and it is what the status says from
      then on, unless everything was published already. */
  lemma CancelTakes(member: seq<Byte>, s: S)
    ensures Enabled(member, s, RequestStop)
    ensures var t := Next(member, s, RequestStop);
            && t.stopping && t.pc == s.pc && t.spool == s.spool && t.status.committed == s.status.committed
            && (!s.stopping && s.status.state != Complete ==> t.status.state == Disconnected)
            && (s.stopping || s.status.state == Complete ==> t.status == s.status)
  {
  }

  /** How many steps a stopped worker has left at most. */
  function StopRank(pc: Pc): nat {
    match pc
    case Opening => 20
    case Making => 19
    case Announcing => 18
    case Reading(_, _) => 17
    case Returned(_, _, _) => 16
    case Writing(_, _, _) => 15
    case Written(_, _, _) => 14
    case LoopTop(prime, _) => if prime then 13 else 3
    case Primed(_) => 4
    case Finishing => 2
    case Over => 0
  }

  /** A stopped worker reads nothing it was not reading already, and each of its steps takes it
      nearer to its end. Waiting for the container is one such step. */
  lemma StoppedStep(member: seq<Byte>, s: S, step: Step)
    requires s.stopping && Enabled(member, s, step)
    ensures var t := Next(member, s, step);
            && t.stopping && (step != RequestStop ==> StopRank(t.pc) < StopRank(s.pc)) && (step == RequestStop ==> t == s)
            && (!s.pc.Reading? ==> t.taken == s.taken && (t.pc.Reading? ==> s.pc.Reading?))
  {
  }

  /** So whatever happens after a cancel, the worker takes no more than twenty steps. */
  lemma {:induction false} StoppedWorkerEnds(member: seq<Byte>, s: S, steps: seq<Step>, t: S)
    requires s.stopping && Leads(member, s, steps, t) && RequestStop !in steps
    ensures |steps| + StopRank(t.pc) <= StopRank(s.pc) <= 20
    ensures !s.pc.Reading? ==> t.taken == s.taken
    decreases |steps|
  {
    hide Enabled, Next;
    if steps != [] {
      StoppedStep(member, s, steps[0]);
      StoppedWorkerEnds(member, Next(member, s, steps[0]), steps[1..], t);
    }
  }

  // ---------------------------------------------------------------------------
  // The reader
  // ---------------------------------------------------------------------------

  /** What the live controller keeps between two looks at the source. */
  datatype Reader = Reader(adopted: nat, size: nat, watching: bool)

  /** One look, at four moments: is the source complete; was it replaced; how much of it may
      be read; is its origin gone. A replaced or shrunken source is read anew; otherwise the
      growth is ingested, and the watch ends if the source was complete at the first moment. */
  function CheckNow(r: Reader, complete: S, replaced: S, refreshed: S, vanished: bool): Reader {
    if !r.watching then r
    else
      var finished := complete.status.state == Complete;
      var rotated := replaced.status.generation != r.adopted;
      var spooled := |Current(refreshed)|;
      var newSize := if spooled < refreshed.status.committed then spooled else refreshed.status.committed;
      if rotated || refreshed.status.generation != r.adopted || newSize < r.size then Reader(refreshed.status.generation, newSize, true)
      else if vanished then r
      else Reader(r.adopted, newSize, !finished)
  }

  /** A look that ends the watch has ingested the final size: nothing is committed afterwards
      that it could have missed. It is the whole member exactly when no uncancelled read was
      cut short. */
  lemma StopIsFinal(member: seq<Byte>, r: Reader, a: S, ab: seq<Step>, b: S, bc: seq<Step>, c: S, cd: seq<Step>, d: S, vanished: bool)
    requires Inv(member, a) && Leads(member, a, ab, b) && Leads(member, b, bc, c) && Leads(member, c, cd, d)
    requires r.watching && !CheckNow(r, a, b, c, vanished).watching
    ensures CheckNow(r, a, b, c, vanished).size == d.status.committed && d.status == a.status
    ensures CheckNow(r, a, b, c, vanished).size == |member| <==> !d.cut
  {
    hide Leads;
    RunIsLater(member, a, ab, b);
    RunIsLater(member, b, bc, c);
    RunIsLater(member, c, cd, d);
  }

  /** No look takes in more than was committed, nor more than is on disk: what a reader has is
      always the beginning of the member. A reader that has stopped looks no more. */
  lemma LookIsBounded(member: seq<Byte>, r: Reader, a: S, b: S, c: S, vanished: bool)
    requires Inv(member, c) && (r.watching ==> r.adopted == c.status.generation ==> r.size <= c.status.committed)
    ensures var t := CheckNow(r, a, b, c, vanished);
            && (!r.watching ==> t == r)
            && (r.watching && t.adopted == c.status.generation ==>
                  t.size <= c.status.committed <= |Current(c)| && Current(c)[..t.size] == member[..t.size])
            && (r.watching && !vanished ==> t.adopted == r.adopted || t.adopted == c.status.generation)
            && (r.watching && t.adopted == c.status.generation && !vanished ==> t.size == c.status.committed)
  {
  }

  /** And the watch does end: at the first look at a complete source that is neither rotated
      nor gone, whatever was ingested before. */
  lemma CompleteEndsTheWatch(member: seq<Byte>, r: Reader, a: S, ab: seq<Step>, b: S, bc: seq<Step>, c: S)
    requires Inv(member, a) && Leads(member, a, ab, b) && Leads(member, b, bc, c)
    requires a.status.state == Complete && r.adopted == a.status.generation && r.size <= a.status.committed
    ensures !CheckNow(r, a, b, c, false).watching
  {
    hide Leads;
    RunIsLater(member, a, ab, b);
    RunIsLater(member, b, bc, c);
  }

  lemma FirstStep(member: seq<Byte>, s: S, step: Step, steps: seq<Step>, t: S)
    requires Enabled(member, s, step) && Leads(member, Next(member, s, step), steps, t)
    ensures Leads(member, s, [step] + steps, t)
  {
    assert ([step] + steps)[1..] == steps;
  }

  /** A byte on disk, not committed: the state every example below passes through. */
  const BYTE_WRITTEN: S := S(Status(Priming, 1, 0, 0), 0, true, false, Written(true, 1, 1), 1, map[1 := [7]], false)

  /** From the start to a byte on disk, for a member that begins with it. */
  lemma FirstByte(member: seq<Byte>, rest: seq<Step>, t: S) returns (init: S, steps: seq<Step>)
    requires member != [] && member[0] == 7 && Leads(member, BYTE_WRITTEN, rest, t)
    ensures Init(init) && Leads(member, init, steps, t)
  {
    hide Leads;
    init := S(Status(Connecting, 0, 0, 0), 0, false, false, Opening, 0, map[], false);
    var making := init.(status := Status(Priming, 0, 0, 0), pc := Making);
    var made := making.(spool := map[1 := []], pc := Announcing);
    var empty := S(Status(Priming, 1, 0, 0), 0, true, false, LoopTop(true, 0), 0, map[1 := []], false);
    steps := FirstRead(member, empty, rest, t);
    FirstStep(member, made, Announce(0), steps, t);
    steps := [Announce(0)] + steps;
    FirstStep(member, making, MakeFile(true), steps, t);
    steps := [MakeFile(true)] + steps;
    FirstStep(member, init, Open(0), steps, t);
    steps := [Open(0)] + steps;
  }

  lemma FirstRead(member: seq<Byte>, empty: S, rest: seq<Step>, t: S) returns (steps: seq<Step>)
    requires member != [] && member[0] == 7 && Leads(member, BYTE_WRITTEN, rest, t)
    requires empty == S(Status(Priming, 1, 0, 0), 0, true, false, LoopTop(true, 0), 0, map[1 := []], false)
    ensures Leads(member, empty, steps, t)
  {
    hide Leads;
    var reading := empty.(pc := Reading(true, 0));
    var back := empty.(taken := 1, pc := Returned(true, 0, 1));
    var writing := empty.(taken := 1, pc := Writing(true, 0, 1));
    assert Next(member, writing, Write(true, 1)) == BYTE_WRITTEN by { assert [] + member[0..1] == [7]; }
    FirstStep(member, writing, Write(true, 1), rest, t);
    steps := [Write(true, 1)] + rest;
    FirstStep(member, back, LookAgain, steps, t);
    steps := [LookAgain] + steps;
    FirstStep(member, reading, Read(1, Whole), steps, t);
    steps := [Read(1, Whole)] + steps;
    FirstStep(member, empty, Enter, steps, t);
    steps := [Enter] + steps;
  }

  /** From the byte on disk to a read that comes back empty. */
  lemma ThenNothing(member: seq<Byte>, input: Input, rest: seq<Step>, t: S) returns (back: S, steps: seq<Step>)
    requires |member| == 1 || (|member| > 1 && CutOff(input))
    requires Leads(member, S(Status(Priming, 1, 0, 1), 1, true, false, Returned(true, 1, 0), 1, map[1 := [7]], |member| > 1), rest, t)
    ensures Leads(member, BYTE_WRITTEN, steps, t)
  {
    hide Leads;
    back := S(Status(Priming, 1, 0, 1), 1, true, false, Returned(true, 1, 0), 1, map[1 := [7]], |member| > 1);
    var top := BYTE_WRITTEN.(held := 1, status := Status(Priming, 1, 0, 1), pc := LoopTop(true, 1));
    var reading := top.(pc := Reading(true, 1));
    FirstStep(member, reading, Read(0, input), rest, t);
    steps := [Read(0, input)] + rest;
    FirstStep(member, top, Enter, steps, t);
    steps := [Enter] + steps;
    FirstStep(member, BYTE_WRITTEN, Commit, steps, t);
    steps := [Commit] + steps;
  }

  /** A container whose transport dies behind the first byte of two: the member is published as
      complete with one byte. */
  lemma DeadTransportCompletes() returns (init: S, steps: seq<Step>, s: S)
    ensures Init(init) && Leads([7, 8], init, steps, s) && !s.stopping
    ensures s.status.state == Complete && s.status.committed == 1
  {
    var back := S(Status(Priming, 1, 0, 1), 1, true, false, Returned(true, 1, 0), 1, map[1 := [7]], true);
    s := Finished([7, 8], back);
    FinishedLeads([7, 8], back);
    hide Leads;
    var after;
    back, after := ThenNothing([7, 8], Dead(Upstream(Error, 1, 9)), FinishingSteps(true), s);
    init, steps := FirstByte([7, 8], after, s);
  }

  /** Asking in the other order would lose bytes: on this run the size is read before the last
      commit, and Complete is seen right after. */
  lemma LateAnswerLosesBytes() returns (init: S, before: seq<Step>, a: S, after: seq<Step>, b: S)
    ensures Init(init) && Leads([7], init, before, a) && Leads([7], a, after, b)
    ensures a.status.committed == 0 && b.status.state == Complete && b.status.committed == 1
  {
    a := S(Status(Priming, 1, 0, 1), 1, true, false, Returned(true, 1, 0), 1, map[1 := [7]], false);
    b := Finished([7], a);
    after := FinishingSteps(true);
    FinishedLeads([7], a);
    EmptyRun([7], a);
    hide Leads;
    var back, rest := ThenNothing([7], Whole, [], a);
    init, before := FirstByte([7], rest, a);
  }

  // ---------------------------------------------------------------------------
  // Waiting for a container that is itself still being fetched
  // ---------------------------------------------------------------------------

  /** What the container's own fetcher publishes at one moment. */
  datatype Upstream = Upstream(state: FetchState, committed: nat, total: nat)

  /** The transport has nothing more to send: it stopped, or it delivered all there is. */
  predicate Exhausted(u: Upstream) {
    match u.state
    case Idle => true
    case Error => true
    case Disconnected => true
    case Complete => true
    case Waiting => false
    case Connecting => u.total > 0 && u.committed >= u.total
    case Priming => u.total > 0 && u.committed >= u.total
    case Live => u.total > 0 && u.committed >= u.total
  }

  /** The transport has delivered the container: it says so, or it has all of a known size. */
  predicate Delivered(u: Upstream) {
    u.state == Complete || (u.total > 0 && u.committed >= u.total)
  }

  /** It is exhausted exactly when it does not wait for the container and is not on its way with
      something left to send. */
  lemma ExhaustedMeans(u: Upstream)
    ensures Exhausted(u) <==>
            u.state != Waiting && !((u.state == Connecting || u.state == Priming || u.state == Live) && (u.total == 0 || u.committed < u.total))
  {
  }

  /** A transport that publishes no size but the container's, and has delivered without saying so,
      has all of it. */
  lemma DeliveredIsAll(u: Upstream, size: nat)
    requires (u.total == 0 || u.total == size) && u.committed <= size && u.state != Complete
    ensures Delivered(u) <==> u.total > 0 && u.committed == size
  {
  }

  /** The input of a read was cut off: its transport ended without having delivered. */
  predicate CutOff(input: Input) {
    input.Dead? && Exhausted(input.up) && !Delivered(input.up)
  }

  /** What a read that waited in vain had for an input. */
  function InputOf(u: Upstream): Input { if Delivered(u) then Whole else Dead(u) }

  /** Within a generation the committed size never shrinks. */
  ghost predicate Growing(trace: seq<Upstream>) {
    forall i, j :: 0 <= i <= j < |trace| ==> trace[i].committed <= trace[j].committed
  }

  datatype Awaited = More | Ended | Stopped | Parked

  /** `trace` is what the upstream publishes at each moment this end looks, `stopAt` the moment
      of a cancel. The end of the input is only reported when, at the moment the upstream was
      seen exhausted, every byte it had committed was already read. */
  method AwaitInput(trace: seq<Upstream>, stopAt: nat, before: nat) returns (result: Awaited, asked: nat)
    requires Growing(trace)
    ensures result == More ==> exists k :: 0 <= k < |trace| && trace[k].committed > before
    ensures result == Ended ==>
              asked < |trace| && Exhausted(trace[asked]) && forall k :: 0 <= k <= asked ==> trace[k].committed <= before
    ensures result == Stopped ==> stopAt <= |trace|
    ensures result == Parked ==> forall k :: 0 <= k < |trace| - 1 && k % 2 == 1 ==> !Exhausted(trace[k])
    ensures result == Parked ==> forall k :: 0 <= k < |trace| - 2 && k % 2 == 0 ==> trace[k].committed <= before && k < stopAt
  {
    var t := 0;
    asked := 0;
    while t + 2 < |trace|
      invariant t % 2 == 0 && (t == 0 || t < |trace|)
      invariant forall k :: 0 <= k < t && k % 2 == 1 ==> !Exhausted(trace[k])
      invariant forall k :: 0 <= k < t && k % 2 == 0 ==> trace[k].committed <= before && k < stopAt
      decreases |trace| - t
    {
      if stopAt <= t { return Stopped, asked; }
      if trace[t].committed > before { return More, asked; }
      asked := t + 1;
      if Exhausted(trace[asked]) {
        if trace[asked + 1].committed > before { return More, asked; }
        return Ended, asked;
      }
      t := t + 2;
    }
    result := Parked;
  }

  /** What an end reported by AwaitInput means for the read behind it, told from the status it
      saw: either the transport had delivered, and then everything it has was read, or it ended
      idle, failed or disconnected, and the read is cut off. */
  lemma EndedMeans(u: Upstream, before: nat)
    requires Exhausted(u) && u.committed <= before
    ensures CutOff(InputOf(u)) <==> !Delivered(u)
    ensures CutOff(Dead(u)) <==> !Delivered(u)
    ensures !CutOff(Whole)
    ensures Delivered(u) && u.state != Complete ==> u.total <= before
    ensures !Delivered(u) ==> (u.state == Idle || u.state == Error || u.state == Disconnected) && (u.total == 0 || u.committed < u.total)
  {
  }

  /** An upstream that is complete commits nothing more, so an end reported then is the end. */
  lemma EndedIsTheEnd(trace: seq<Upstream>, asked: nat, before: nat)
    requires asked < |trace| && trace[asked].state == Complete
    requires forall k :: 0 <= k <= asked ==> trace[k].committed <= before
    requires forall i, j :: 0 <= i <= j < |trace| && trace[i].state == Complete ==> trace[j].committed == trace[i].committed
    ensures forall k :: 0 <= k < |trace| ==> trace[k].committed <= before
  {
    forall k | 0 <= k < |trace| ensures trace[k].committed <= before {
      if k > asked { assert trace[k].committed == trace[asked].committed; }
    }
  }
}
