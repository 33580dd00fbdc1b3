/** The gate that runs work on the application thread: a mutex/condvar protocol as a step
    relation. Every step is one critical section, one post to the event loop or one return
    of a piece of work; the invariants hold over every interleaving of them. */
module GuiCallGate {

  datatype Thread = App | Worker(id: nat)

  datatype Option<T> = None | Some(value: T)

  /** One question. `runs` counts how often its work was started; `finished` says the work
      ran to completion; `outcome` is what call() returned to the asker. */
  datatype Call = Call(asker: Thread, hasWork: bool, done: bool, abandoned: bool, started: bool,
                       finished: bool, runs: nat, outcome: Option<bool>)

  /** Where a thread stands inside call(). */
  datatype Pc = Out | Checked(hasWork: bool) | Pushed(call: nat) | Parked(call: nat)

  /** A piece of work being executed: a queued call's, or an inline one's. */
  datatype Work = Queued(call: nat) | Inline(runner: Thread) {
    function Runner(): Thread {
      if Inline? then runner else App
    }
  }

  /** What else the gate may have on top of the application thread's stack: a drain of a call
      it will not run, between its two critical sections, or an exit about to re-arm. */
  datatype Exit = NoExit | Skipping(call: nat) | Rearming

  /** `hasApp`: there is an application; `pumpOnApp`: its thread delivers the pump's posts;
      `posted`: the drains waiting in its event loop; `works`: the works on the stack, oldest
      first. */
  datatype State = State(hasApp: bool, pumpOnApp: bool,
                         calls: seq<Call>, queue: seq<nat>, cancelled: bool,
                         running: bool, owner: Option<Thread>, depth: nat,
                         posted: nat, pcs: map<Thread, Pc>, works: seq<Work>, exit: Exit, ledger: Ledger)

  /** The calls that never reached the queue: inline works begun, the ones answered true, and
      the calls refused, by a cancelled gate, a second asker or a pump on another thread. */
  datatype Ledger = Ledger(begun: nat, answered: nat, refused: nat)

  predicate Init(s: State) {
    s.calls == [] && s.queue == [] && !s.cancelled && !s.running && s.owner == None && s.depth == 0
    && s.posted == 0 && s.pcs == map[] && s.works == [] && s.exit == NoExit && s.ledger == Ledger(0, 0, 0)
  }

  function PcOf(s: State, t: Thread): Pc {
    if t in s.pcs then s.pcs[t] else Out
  }

  /** The application thread may be handed an event: it is in its own loop or in a nested one
      of the work on top. */
  predicate LoopRuns(s: State) {
    s.hasApp && PcOf(s, App) == Out && s.exit == NoExit
  }

  // ---------------------------------------------------------------------------
  // The steps
  // ---------------------------------------------------------------------------

  datatype Step =
    | Check(t: Thread, hasWork: bool) // the first critical section of call()
    | TakeInline(t: Thread)           // the second, on the application thread or with no application
    | Push(t: Thread)                 // the second, on any other thread
    | PostDrain(t: Thread)            // rearm() by the asker that pushed
    | Wake(t: Thread)                 // the parked asker's condition holds
    | Deliver                         // the event loop delivers a posted drain
    | FinishSkip                      // the second section of a drain that ran nothing
    | FinishWork                      // the work on top returned; its last section
    | Rearm                           // the exit on top posts
    | Cancel
    | Reopen

  predicate Enabled(s: State, step: Step) {
    match step
    case Check(t, _) => PcOf(s, t) == Out && (t == App ==> s.exit == NoExit)
    case TakeInline(t) => PcOf(s, t).Checked? && (t == App || !s.hasApp)
    case Push(t) => PcOf(s, t).Checked? && t != App && s.hasApp
    case PostDrain(t) => PcOf(s, t).Pushed?
    case Wake(t) => PcOf(s, t).Parked? && PcOf(s, t).call < |s.calls|
                    && (s.calls[PcOf(s, t).call].done || (s.cancelled && !s.calls[PcOf(s, t).call].started))
    case Deliver => s.posted > 0 && LoopRuns(s)
    case FinishSkip => s.exit.Skipping? && s.exit.call < |s.calls|
    case FinishWork => s.works != [] && s.exit == NoExit && PcOf(s, s.works[|s.works| - 1].Runner()) == Out
                       && (s.works[|s.works| - 1].Queued? ==> s.works[|s.works| - 1].call < |s.calls|)
    case Rearm => s.exit == Rearming
    case Cancel => true
    case Reopen => true
  }

  /** enterLocked(), with the work it is called for. */
  function Entered(s: State, w: Work): State {
    s.(running := true, owner := Some(w.Runner()), depth := s.depth + 1, works := s.works + [w])
  }

  /** leaveLocked(), with the work on top returned. */
  function Left(s: State): State
    requires s.works != []
  {
    var s1 := s.(works := s.works[..|s.works| - 1]);
    if s.depth > 1 then s1.(depth := s.depth - 1) else s1.(depth := 0, running := false, owner := None)
  }

  /** cancel(): every queued call that has not started is abandoned. */
  function Abandoned(calls: seq<Call>, queue: seq<nat>): seq<Call> {
    seq(|calls|, i requires 0 <= i < |calls| =>
      if i in queue && !calls[i].started then calls[i].(abandoned := true) else calls[i])
  }

  /** A delivered drain takes the oldest question; whether it will run is decided here. */
  function Taken(s: State): State
    requires s.posted > 0 && s.queue != [] && s.queue[0] < |s.calls|
  {
    var id := s.queue[0];
    var c := s.calls[id];
    var s1 := s.(posted := s.posted - 1, queue := s.queue[1..]);
    if !c.abandoned && c.hasWork then
      Entered(s1, Queued(id)).(calls := s.calls[id := c.(started := true, runs := c.runs + 1)])
    else s1.(exit := Skipping(id))
  }

  function Next(s: State, step: Step): State
    requires Enabled(s, step)
  {
    Core(s, step).(ledger := Recorded(s, step))
  }

  /** What a step means for the calls that stay off the queue. */
  function Recorded(s: State, step: Step): Ledger
    requires Enabled(s, step)
  {
    var l := s.ledger;
    match step
    case Check(_, _) => if s.cancelled then l.(refused := l.refused + 1) else l
    case TakeInline(t) => if s.running && s.owner != Some(t) then l.(refused := l.refused + 1) else l.(begun := l.begun + 1)
    case Push(_) => if !s.pumpOnApp then l.(refused := l.refused + 1) else l
    case FinishWork => if s.works[|s.works| - 1].Inline? then l.(answered := l.answered + 1) else l
    case _ => l
  }

  /** What a step does to the gate itself. */
  function Core(s: State, step: Step): State
    requires Enabled(s, step)
  {
    match step
    case Check(t, hasWork) =>
      if s.cancelled then s else s.(pcs := s.pcs[t := Checked(hasWork)])
    case TakeInline(t) =>
      var out := s.(pcs := s.pcs[t := Out]);
      if s.running && s.owner != Some(t) then out else Entered(out, Inline(t))
    case Push(t) =>
      if !s.pumpOnApp then s.(pcs := s.pcs[t := Out])
      else
        s.(calls := s.calls + [Call(t, PcOf(s, t).hasWork, false, false, false, false, 0, None)],
           queue := s.queue + [|s.calls|],
           pcs := s.pcs[t := Pushed(|s.calls|)])
    case PostDrain(t) =>
      s.(pcs := s.pcs[t := Parked(PcOf(s, t).call)], posted := s.posted + 1)
    case Wake(t) =>
      var id := PcOf(s, t).call;
      var c := s.calls[id];
      s.(calls := s.calls[id := if c.done then c.(outcome := Some(!c.abandoned)) else c.(abandoned := true, outcome := Some(false))],
         pcs := s.pcs[t := Out])
    case Deliver =>
      if s.running || s.queue == [] || s.queue[0] >= |s.calls| then s.(posted := s.posted - 1) else Taken(s)
    case FinishSkip =>
      var id := s.exit.call;
      s.(calls := s.calls[id := s.calls[id].(done := true)], exit := if s.queue != [] then Rearming else NoExit)
    case FinishWork =>
      var w := s.works[|s.works| - 1];
      var s1 := Left(s);
      if w.Queued? then
        s1.(calls := s.calls[w.call := s.calls[w.call].(finished := true, done := true)],
            exit := if s.queue != [] then Rearming else NoExit)
      else s1.(exit := if !s1.running && s.queue != [] then Rearming else NoExit)
    case Rearm =>
      s.(exit := NoExit, posted := s.posted + 1)
    case Cancel =>
      s.(cancelled := true, calls := Abandoned(s.calls, s.queue))
    case Reopen =>
      s.(cancelled := false)
  }

  // ---------------------------------------------------------------------------
  // The invariant
  // ---------------------------------------------------------------------------

  /** The running flag, the owner and the depth say exactly what is on the stack: works
      overlap only by nesting, all on one thread, and only the oldest can be a queued one. */
  ghost predicate StackOk(s: State) {
    && s.depth == |s.works|
    && (s.running <==> s.works != [])
    && (s.works == [] ==> s.owner == None)
    && (forall i :: 0 <= i < |s.works| ==> s.owner == Some(s.works[i].Runner()))
    && (forall i :: 0 < i < |s.works| ==> s.works[i].Inline?)
    && (s.exit != NoExit ==> s.works == [] && s.hasApp && !PcOf(s, App).Checked?)
    && (s.hasApp ==> forall i :: 0 <= i < |s.works| ==> s.works[i].Runner() == App)
  }

  /** The call a drain has taken and not yet answered. */
  predicate InDrain(s: State, id: nat) {
    (s.works != [] && s.works[0] == Queued(id)) || s.exit == Skipping(id)
  }

  ghost predicate QueueOk(s: State) {
    && (forall i :: 0 <= i < |s.queue| ==> s.queue[i] < |s.calls| && !s.calls[s.queue[i]].started && !s.calls[s.queue[i]].done)
    && (forall i, j :: 0 <= i < j < |s.queue| ==> s.queue[i] != s.queue[j])
    && (forall i :: 0 <= i < |s.queue| ==> !InDrain(s, s.queue[i]))
    && (s.queue != [] ==> s.hasApp)
  }

  ghost predicate DrainOk(s: State) {
    && (s.works != [] && s.works[0].Queued? ==>
          var id := s.works[0].call;
          id < |s.calls| && !s.calls[id].done && s.calls[id].started && s.calls[id].hasWork && !s.calls[id].abandoned)
    && (s.exit.Skipping? ==>
          var id := s.exit.call;
          id < |s.calls| && !s.calls[id].done && !s.calls[id].started && (s.calls[id].abandoned || !s.calls[id].hasWork))
  }

  /** `t` is still inside call() for this question. */
  predicate InsideCall(s: State, id: nat, t: Thread) {
    PcOf(s, t) == Pushed(id) || PcOf(s, t) == Parked(id)
  }

  /** What holds of a call, `pending` while it is queued or being drained and `inside` while
      its asker has not returned from call(). */
  predicate CallFacts(c: Call, pending: bool, inside: bool) {
    && (c.abandoned ==> !c.started)
    && c.runs == (if c.started then 1 else 0)
    && (c.finished <==> c.started && c.done)
    && (c.done && !c.started ==> c.abandoned || !c.hasWork)
    && (c.started ==> c.hasWork)
    && (!c.done ==> pending)
    && (c.outcome == None ==> inside)
    && (c.outcome.Some? && c.outcome.value ==> c.done && !c.abandoned)
    && (c.outcome.Some? && !c.outcome.value ==> c.abandoned)
  }

  ghost predicate CallOk(s: State, id: nat)
    requires id < |s.calls|
  {
    CallFacts(s.calls[id], id in s.queue || InDrain(s, id), InsideCall(s, id, s.calls[id].asker))
  }

  ghost predicate CallsOk(s: State) {
    forall id :: 0 <= id < |s.calls| ==> CallOk(s, id)
  }

  ghost predicate ThreadsOk(s: State) {
    forall t :: t in s.pcs && (s.pcs[t].Pushed? || s.pcs[t].Parked?) ==>
                  s.pcs[t].call < |s.calls| && s.calls[s.pcs[t].call].asker == t && s.calls[s.pcs[t].call].outcome == None
                  && t != App && s.hasApp
  }

  predicate SomeonePosts(s: State) {
    exists t :: t in s.pcs && s.pcs[t].Pushed?
  }

  /** No queued question is forgotten: while the queue is not empty a call is running, a
      drain is posted or in progress, or some thread is about to post one. */
  predicate Awake(s: State) {
    s.queue != [] ==> s.running || s.posted > 0 || SomeonePosts(s) || s.exit != NoExit
  }

  ghost predicate Inv(s: State) {
    StackOk(s) && QueueOk(s) && DrainOk(s) && ThreadsOk(s) && CallsOk(s) && Awake(s)
  }

  lemma InitInv(s: State)
    requires Init(s)
    ensures Inv(s)
  {
  }

  // ---------------------------------------------------------------------------
  // Every step keeps it
  // ---------------------------------------------------------------------------

  lemma PosterStays(s: State, s': State, t: Thread)
    requires SomeonePosts(s) && !PcOf(s, t).Pushed?
    requires forall u :: u in s.pcs && u != t ==> u in s'.pcs && s'.pcs[u] == s.pcs[u]
    ensures SomeonePosts(s')
  {
    var u :| u in s.pcs && s.pcs[u].Pushed?;
    assert u in s'.pcs && s'.pcs[u].Pushed?;
  }

  /** A step that leaves the calls, the queue and the drain alone and moves no thread inside
      call() leaves every call as it was. */
  lemma CallsUntouched(s: State, s': State)
    requires CallsOk(s) && s'.calls == s.calls && s'.queue == s.queue
    requires forall id :: 0 <= id < |s.calls| && InDrain(s, id) ==> InDrain(s', id)
    requires forall id, t :: InsideCall(s, id, t) ==> InsideCall(s', id, t)
    ensures CallsOk(s')
  {
    forall id | 0 <= id < |s'.calls| ensures CallOk(s', id) { assert CallOk(s, id); }
  }

  /** The same for a step that moves no thread at all. */
  lemma SameCalls(s: State, s': State)
    requires CallsOk(s) && ThreadsOk(s) && s'.calls == s.calls && s'.queue == s.queue && s'.pcs == s.pcs && s'.hasApp == s.hasApp
    requires forall id :: InDrain(s', id) == InDrain(s, id)
    ensures CallsOk(s') && ThreadsOk(s')
  {
    CallsUntouched(s, s');
  }

  lemma StepCheck(s: State, t: Thread, hasWork: bool)
    requires Inv(s) && Enabled(s, Check(t, hasWork)) && !s.cancelled
    ensures Inv(Core(s, Check(t, hasWork)))
  {
    var s' := Core(s, Check(t, hasWork));
    CallsUntouched(s, s');
    if SomeonePosts(s) { PosterStays(s, s', t); }
  }

  lemma EnteredStackOk(s: State, t: Thread)
    requires StackOk(s) && s.exit == NoExit && (s.running ==> s.owner == Some(t)) && (s.hasApp ==> t == App)
    ensures StackOk(Entered(s, Inline(t)))
  {
    var s' := Entered(s, Inline(t));
    assert forall i :: 0 <= i < |s.works| ==> s'.works[i] == s.works[i];
  }

  lemma EnteredDrainOk(s: State, t: Thread)
    requires QueueOk(s) && DrainOk(s)
    ensures QueueOk(Entered(s, Inline(t))) && DrainOk(Entered(s, Inline(t)))
    ensures forall id :: InDrain(Entered(s, Inline(t)), id) == InDrain(s, id)
  {
    var s' := Entered(s, Inline(t));
    assert forall i :: 0 <= i < |s.works| ==> s'.works[i] == s.works[i];
  }

  /** Any thread may leave its first check behind; nothing else moves. */
  lemma BackOut(s: State, t: Thread)
    requires Inv(s) && PcOf(s, t).Checked?
    ensures Inv(s.(pcs := s.pcs[t := Out]))
  {
    var s' := s.(pcs := s.pcs[t := Out]);
    CallsUntouched(s, s');
    if SomeonePosts(s) { PosterStays(s, s', t); }
  }

  lemma StepTakeInline(s: State, t: Thread)
    requires Inv(s) && Enabled(s, TakeInline(t))
    ensures Inv(Core(s, TakeInline(t)))
  {
    BackOut(s, t);
    var out := s.(pcs := s.pcs[t := Out]);
    if !s.running || s.owner == Some(t) {
      EnteredStackOk(out, t);
      EnteredDrainOk(out, t);
      CallsUntouched(out, Entered(out, Inline(t)));
    }
  }

  lemma StepPush(s: State, t: Thread)
    requires Inv(s) && Enabled(s, Push(t)) && s.pumpOnApp
    ensures Inv(Core(s, Push(t)))
  {
    var s' := Core(s, Push(t));
    assert t in s'.pcs && s'.pcs[t].Pushed?;
    forall id | 0 <= id < |s'.calls| ensures CallOk(s', id) {
      if id < |s.calls| {
        assert CallOk(s, id);
      } else {
        assert s'.queue[|s.queue|] == id;
      }
    }
  }

  lemma StepPostDrain(s: State, t: Thread)
    requires Inv(s) && Enabled(s, PostDrain(t))
    ensures Inv(Core(s, PostDrain(t)))
  {
    CallsUntouched(s, Core(s, PostDrain(t)));
  }

  lemma WakeCallsOk(s: State, t: Thread)
    requires Inv(s) && Enabled(s, Wake(t))
    ensures CallsOk(Core(s, Wake(t)))
  {
    var s' := Core(s, Wake(t));
    forall id | 0 <= id < |s'.calls| ensures CallOk(s', id) { assert CallOk(s, id); }
  }

  lemma WakeThreadsOk(s: State, t: Thread)
    requires Inv(s) && Enabled(s, Wake(t))
    ensures ThreadsOk(Core(s, Wake(t))) && QueueOk(Core(s, Wake(t)))
  {
  }

  lemma StepWake(s: State, t: Thread)
    requires Inv(s) && Enabled(s, Wake(t))
    ensures Inv(Core(s, Wake(t)))
  {
    WakeCallsOk(s, t);
    WakeThreadsOk(s, t);
    assert CallOk(s, PcOf(s, t).call);
    if SomeonePosts(s) { PosterStays(s, Core(s, Wake(t)), t); }
  }

  lemma StepDeliverSwallowed(s: State)
    requires Inv(s) && Enabled(s, Deliver) && (s.running || s.queue == [])
    ensures Inv(Core(s, Deliver))
  {
    CallsUntouched(s, Core(s, Deliver));
  }

  lemma StillQueued(queue: seq<nat>, id: nat)
    requires queue != [] && id in queue && id != queue[0]
    ensures id in queue[1..]
  {
    var i :| 0 <= i < |queue| && queue[i] == id;
    assert queue[1..][i - 1] == id;
  }

  lemma TakenCallOk(s: State, id: nat)
    requires QueueOk(s) && s.works == [] && s.exit == NoExit && s.posted > 0 && s.queue != []
    requires id < |s.calls| && CallOk(s, id)
    ensures CallOk(Taken(s), id)
  {
    var s' := Taken(s);
    if id == s.queue[0] {
      assert InDrain(s', id);
    } else {
      assert s'.calls[id] == s.calls[id];
      if id in s.queue { StillQueued(s.queue, id); }
    }
  }

  lemma TakenCallsOk(s: State)
    requires QueueOk(s) && CallsOk(s) && s.works == [] && s.exit == NoExit && s.posted > 0 && s.queue != []
    ensures CallsOk(Taken(s))
  {
    forall id | 0 <= id < |Taken(s).calls| ensures CallOk(Taken(s), id) { TakenCallOk(s, id); }
  }

  lemma TakenQueueOk(s: State)
    requires Inv(s) && s.posted > 0 && !s.running && s.queue != [] && s.exit == NoExit && s.hasApp
    ensures QueueOk(Taken(s))
  {
    var s' := Taken(s);
    assert forall i :: 0 <= i < |s'.queue| ==> s'.queue[i] == s.queue[i + 1];
  }

  lemma StepDeliverTakes(s: State)
    requires Inv(s) && Enabled(s, Deliver) && !s.running && s.queue != []
    ensures Inv(Core(s, Deliver))
  {
    TakenCallsOk(s);
    TakenQueueOk(s);
  }

  lemma StepFinishSkip(s: State)
    requires Inv(s) && Enabled(s, FinishSkip)
    ensures Inv(Core(s, FinishSkip))
  {
    var s' := Core(s, FinishSkip);
    forall id | 0 <= id < |s'.calls| ensures CallOk(s', id) { assert CallOk(s, id); }
  }

  lemma StepFinishQueued(s: State)
    requires Inv(s) && Enabled(s, FinishWork) && s.works[|s.works| - 1].Queued?
    ensures Inv(Core(s, FinishWork))
  {
    var s' := Core(s, FinishWork);
    assert |s.works| == 1;
    forall id | 0 <= id < |s'.calls| ensures CallOk(s', id) { assert CallOk(s, id); }
  }

  lemma LeftStackOk(s: State)
    requires StackOk(s) && s.works != [] && s.exit == NoExit
    ensures StackOk(Left(s))
  {
  }

  lemma FinishInlineStack(s: State)
    requires Inv(s) && Enabled(s, FinishWork) && s.works[|s.works| - 1].Inline?
    ensures StackOk(Core(s, FinishWork)) && Awake(Core(s, FinishWork))
  {
    LeftStackOk(s);
  }

  lemma FinishInlineDrain(s: State)
    requires Inv(s) && Enabled(s, FinishWork) && s.works[|s.works| - 1].Inline?
    ensures var s' := Core(s, FinishWork);
            QueueOk(s') && DrainOk(s') && forall id :: InDrain(s', id) == InDrain(s, id)
  {
    var s' := Core(s, FinishWork);
    assert |s'.works| > 0 ==> s'.works[0] == s.works[0];
  }

  lemma StepFinishInline(s: State)
    requires Inv(s) && Enabled(s, FinishWork) && s.works[|s.works| - 1].Inline?
    ensures Inv(Core(s, FinishWork))
  {
    FinishInlineStack(s);
    FinishInlineDrain(s);
    SameCalls(s, Core(s, FinishWork));
  }

  lemma StepRearm(s: State)
    requires Inv(s) && Enabled(s, Rearm)
    ensures Inv(Core(s, Rearm))
  {
    CallsUntouched(s, Core(s, Rearm));
  }

  lemma StepCancel(s: State)
    requires Inv(s)
    ensures Inv(Core(s, Cancel))
  {
    var s' := Core(s, Cancel);
    forall id | 0 <= id < |s'.calls| ensures CallOk(s', id) { assert CallOk(s, id); }
  }

  lemma StepReopen(s: State)
    requires Inv(s)
    ensures Inv(Core(s, Reopen))
  {
    CallsUntouched(s, Core(s, Reopen));
  }

  lemma StepKeepsInv(s: State, step: Step)
    requires Inv(s) && Enabled(s, step)
    ensures Inv(Next(s, step))
  {
    CoreKeepsInv(s, step);
    LedgerIsApart(Core(s, step), Recorded(s, step));
  }

  lemma LedgerIsApart(s: State, l: Ledger)
    requires Inv(s)
    ensures Inv(s.(ledger := l))
  {
    var s' := s.(ledger := l);
    CallsUntouched(s, s');
    if SomeonePosts(s) {
      var t :| t in s.pcs && s.pcs[t].Pushed?;
      assert t in s'.pcs && s'.pcs[t].Pushed?;
    }
  }

  lemma CoreKeepsInv(s: State, step: Step)
    requires Inv(s) && Enabled(s, step)
    ensures Inv(Core(s, step))
  {
    match step
    case Check(t, hasWork) => if !s.cancelled { StepCheck(s, t, hasWork); }
    case TakeInline(t) => StepTakeInline(s, t);
    case Push(t) => if s.pumpOnApp { StepPush(s, t); } else { BackOut(s, t); }
    case PostDrain(t) => StepPostDrain(s, t);
    case Wake(t) => StepWake(s, t);
    case Deliver => if s.running || s.queue == [] { StepDeliverSwallowed(s); } else { StepDeliverTakes(s); }
    case FinishSkip => StepFinishSkip(s);
    case FinishWork => if s.works[|s.works| - 1].Queued? { StepFinishQueued(s); } else { StepFinishInline(s); }
    case Rearm => StepRearm(s);
    case Cancel => StepCancel(s);
    case Reopen => StepReopen(s);
  }

  // ---------------------------------------------------------------------------
  // Every run
  // ---------------------------------------------------------------------------

  ghost predicate Execution(s: State, steps: seq<Step>, s': State)
    decreases steps
  {
    if steps == [] then s == s' else Enabled(s, steps[0]) && Execution(Next(s, steps[0]), steps[1..], s')
  }

  /** The invariant holds in every state any interleaving can reach. */
  lemma {:induction false} ReachableInv(s: State, steps: seq<Step>, s': State)
    requires Inv(s) && Execution(s, steps, s')
    ensures Inv(s')
    decreases steps
  {
    if steps != [] {
      StepKeepsInv(s, steps[0]);
      ReachableInv(Next(s, steps[0]), steps[1..], s');
    }
  }

  /** In every state any interleaving reaches from the start, a question that waits is not
      forgotten: a work runs, a drain is posted, a drain is between its two sections or about
      to re-arm, or an asker has pushed and not yet posted. */
  lemma WaitingIsNotForgotten(init: State, steps: seq<Step>, s: State)
    requires Init(init) && Execution(init, steps, s)
    ensures s.queue != [] ==>
              s.running || s.posted > 0 || s.exit != NoExit || exists t :: t in s.pcs && s.pcs[t].Pushed?
  {
    InitInv(init);
    ReachableInv(init, steps, s);
  }

  /** A queued work runs at most once, only while its asker is still inside call(), never
      after it was abandoned; and one that is on the stack is the oldest work there. */
  lemma WorkRunsInsideItsCall(s: State, id: nat)
    requires Inv(s) && id < |s.calls|
    ensures s.calls[id].runs <= 1 && (s.calls[id].abandoned ==> s.calls[id].runs == 0)
    ensures s.calls[id].started && !s.calls[id].finished ==>
              InsideCall(s, id, s.calls[id].asker) && s.running && s.works != [] && s.works[0] == Queued(id)
    ensures Queued(id) in s.works ==> s.calls[id].started && !s.calls[id].finished
  {
    assert CallOk(s, id);
    if id in s.queue {
      var i :| 0 <= i < |s.queue| && s.queue[i] == id;
      assert !s.calls[id].started;
    }
    if Queued(id) in s.works {
      var i :| 0 <= i < |s.works| && s.works[i] == Queued(id);
      assert i == 0;
    }
  }

  /** call() returned true exactly for work that ran to completion. */
  lemma TrueMeansItRan(s: State, id: nat)
    requires Inv(s) && id < |s.calls| && s.calls[id].hasWork && s.calls[id].outcome.Some?
    ensures s.calls[id].outcome.value <==> s.calls[id].finished
    ensures !s.calls[id].outcome.value ==> s.calls[id].abandoned && s.calls[id].runs == 0
  {
    assert CallOk(s, id);
  }

  /** What a call has become, it stays: an answer is final, abandonment is final, and a work
      that finished is never started again. */
  lemma {:induction false} CallsAreFinal(s: State, steps: seq<Step>, s': State, id: nat)
    requires Inv(s) && Execution(s, steps, s') && id < |s.calls|
    ensures id < |s'.calls|
    ensures s.calls[id].outcome.Some? ==> s'.calls[id].outcome == s.calls[id].outcome
    ensures s.calls[id].abandoned ==> s'.calls[id].abandoned && s'.calls[id].runs == 0
    ensures s.calls[id].finished ==> s'.calls[id].finished && s'.calls[id].runs == 1
    decreases steps
  {
    assert CallOk(s, id);
    if steps != [] {
      StepKeepsInv(s, steps[0]);
      StepIsFinal(s, steps[0], id);
      CallsAreFinal(Next(s, steps[0]), steps[1..], s', id);
    }
  }

  /** A call after a step, next to itself before it. */
  predicate Final(c: Call, c': Call) {
    && (c.outcome.Some? ==> c'.outcome == c.outcome) && (c.abandoned ==> c'.abandoned) && (c.finished ==> c'.finished)
  }

  lemma StepIsFinal(s: State, step: Step, id: nat)
    requires Inv(s) && Enabled(s, step) && id < |s.calls|
    ensures id < |Next(s, step).calls| && Final(s.calls[id], Next(s, step).calls[id])
  {
    assert CallOk(s, id);
    hide Recorded, ThreadsOk, CallsOk, Awake, StackOk, QueueOk, DrainOk, CallOk, Final, Enabled, Core;
    match step
    case Wake(t) => WakeIsFinal(s, t, id);
    case FinishSkip => AnswerIsFinal(s, step, id);
    case FinishWork => AnswerIsFinal(s, step, id);
    case Deliver => AskIsFinal(s, step, id);
    case Cancel => AskIsFinal(s, step, id);
    case Push(_) => AskIsFinal(s, step, id);
    case _ => OtherIsFinal(s, step, id);
  }

  lemma AskIsFinal(s: State, step: Step, id: nat)
    requires Enabled(s, step) && (step == Deliver || step == Cancel || step.Push?) && id < |s.calls|
    ensures id < |Core(s, step).calls| && Final(s.calls[id], Core(s, step).calls[id])
  {
  }

  lemma OtherIsFinal(s: State, step: Step, id: nat)
    requires Enabled(s, step) && id < |s.calls|
    requires step.Check? || step.TakeInline? || step.PostDrain? || step.Rearm? || step.Reopen?
    ensures id < |Core(s, step).calls| && Final(s.calls[id], Core(s, step).calls[id])
  {
  }

  lemma WakeIsFinal(s: State, t: Thread, id: nat)
    requires id < |s.calls| && CallOk(s, id) && Enabled(s, Wake(t))
    ensures id < |Core(s, Wake(t)).calls| && Final(s.calls[id], Core(s, Wake(t)).calls[id])
  {
  }

  lemma AnswerIsFinal(s: State, step: Step, id: nat)
    requires Enabled(s, step) && (step == FinishSkip || step == FinishWork) && id < |s.calls|
    ensures id < |Core(s, step).calls| && Final(s.calls[id], Core(s, step).calls[id])
  {
  }

  /** Works overlap only by nesting: two works on the stack run on one thread, the owner, and
      the depth counts them. */
  lemma WorksOnlyNest(s: State, i: nat, j: nat)
    requires Inv(s) && i < j < |s.works|
    ensures s.works[i].Runner() == s.works[j].Runner() && s.owner == Some(s.works[j].Runner())
    ensures s.works[j].Inline? && s.depth >= 2 && s.running
  {
  }

  // ---------------------------------------------------------------------------
  // No waiter is stranded
  // ---------------------------------------------------------------------------

  /** Nothing of the gate is under way: no work, no exit, no post outstanding. */
  predicate Quiet(s: State) {
    s.works == [] && s.exit == NoExit && !SomeonePosts(s) && (s.hasApp ==> s.posted == 0)
  }

  /** Steps that need no new question, no cancel and no wake-up: threads going on where they
      stand, the event loop delivering, works returning. */
  predicate Internal(step: Step) {
    step.TakeInline? || step.PostDrain? || step.Deliver? || step.FinishSkip? || step.FinishWork? || step.Rearm?
  }

  ghost function PushedThreads(s: State): set<Thread> { set t | t in s.pcs && s.pcs[t].Pushed? }

  ghost function CheckedThreads(s: State): set<Thread> { set t | t in s.pcs && s.pcs[t].Checked? }

  function Backlog(s: State): nat {
    3 * |s.queue| + 3 * |s.works| + s.posted + (match s.exit case NoExit => 0 case Rearming => 2 case Skipping(_) => 3)
  }

  /** How much is under way: every internal step takes some of it. */
  ghost function Weight(s: State): nat {
    10 * |PushedThreads(s)| + 10 * |CheckedThreads(s)| + Backlog(s)
  }

  lemma TakeWeighs(s: State, t: Thread)
    requires Inv(s) && Enabled(s, TakeInline(t))
    ensures Weight(Next(s, TakeInline(t))) < Weight(s)
  {
    var s' := Next(s, TakeInline(t));
    assert CheckedThreads(s') == CheckedThreads(s) - {t};
    assert PushedThreads(s') == PushedThreads(s);
    assert t in CheckedThreads(s);
    hide Inv;
  }

  lemma PostWeighs(s: State, t: Thread)
    requires Inv(s) && Enabled(s, PostDrain(t))
    ensures Weight(Next(s, PostDrain(t))) < Weight(s)
  {
    var s' := Next(s, PostDrain(t));
    assert PushedThreads(s') == PushedThreads(s) - {t};
    assert CheckedThreads(s') == CheckedThreads(s);
    assert t in PushedThreads(s);
    hide Inv;
  }

  /** A step that moves no thread inside call() weighs what its backlog does. */
  lemma BacklogWeighs(s: State, s': State)
    requires s'.pcs == s.pcs && Backlog(s') < Backlog(s)
    ensures Weight(s') < Weight(s)
  {
    assert PushedThreads(s') == PushedThreads(s) && CheckedThreads(s') == CheckedThreads(s);
  }

  lemma DeliverWeighs(s: State)
    requires QueueOk(s) && Enabled(s, Deliver)
    ensures Next(s, Deliver).pcs == s.pcs && Backlog(Next(s, Deliver)) < Backlog(s)
  {
  }

  lemma FinishWeighs(s: State)
    requires StackOk(s) && Enabled(s, FinishWork)
    ensures Next(s, FinishWork).pcs == s.pcs && Backlog(Next(s, FinishWork)) < Backlog(s)
  {
  }

  lemma ExitWeighs(s: State, step: Step)
    requires Enabled(s, step) && (step == FinishSkip || step == Rearm)
    ensures Next(s, step).pcs == s.pcs && Backlog(Next(s, step)) < Backlog(s)
  {
  }

  /** Whichever internal step is taken, less is under way afterwards. */
  lemma EveryStepHelps(s: State, step: Step)
    requires Inv(s) && Enabled(s, step) && Internal(step)
    ensures Weight(Next(s, step)) < Weight(s)
  {
    hide Weight, QueueOk, DrainOk, ThreadsOk, CallsOk, StackOk, Awake, Enabled, Next, Backlog;
    match step
    case TakeInline(t) => TakeWeighs(s, t);
    case PostDrain(t) => PostWeighs(s, t);
    case Deliver => DeliverWeighs(s); BacklogWeighs(s, Next(s, step));
    case FinishWork => FinishWeighs(s); BacklogWeighs(s, Next(s, step));
    case FinishSkip => ExitWeighs(s, step); BacklogWeighs(s, Next(s, step));
    case Rearm => ExitWeighs(s, step); BacklogWeighs(s, Next(s, step));
    case _ =>
  }

  /** Unless all is quiet, some internal step can be taken. */
  lemma SomeStepIsEnabled(s: State) returns (step: Step)
    requires Inv(s) && !Quiet(s)
    ensures Enabled(s, step) && Internal(step)
  {
    if SomeonePosts(s) {
      var t :| t in s.pcs && s.pcs[t].Pushed?;
      step := PostDrain(t);
    } else if s.exit.Skipping? {
      step := FinishSkip;
    } else if s.exit == Rearming {
      step := Rearm;
    } else if s.works != [] {
      var r := s.works[|s.works| - 1].Runner();
      step := if PcOf(s, r).Checked? then TakeInline(r) else FinishWork;
      assert s.owner == Some(r);
    } else {
      step := if PcOf(s, App).Checked? then TakeInline(App) else Deliver;
    }
  }

  /** No internal step can be taken. */
  ghost predicate AtRest(s: State) {
    forall step :: Internal(step) ==> !Enabled(s, step)
  }

  /** A gate at rest has answered everyone. */
  ghost predicate Released(s: State) {
    && Quiet(s) && s.queue == []
    && forall t :: t in s.pcs && s.pcs[t].Parked? ==> Enabled(s, Wake(t))
  }

  lemma QuietIsReleased(s: State)
    requires Inv(s) && Quiet(s)
    ensures Released(s)
  {
    forall t | t in s.pcs && s.pcs[t].Parked? ensures Enabled(s, Wake(t)) {
      assert CallOk(s, s.pcs[t].call);
    }
  }

  lemma RestIsReleased(s: State)
    requires Inv(s)
    ensures AtRest(s) ==> Released(s)
  {
    if Quiet(s) {
      QuietIsReleased(s);
    } else {
      var step := SomeStepIsEnabled(s);
      assert !AtRest(s);
    }
  }

  /** However the threads, the event loop and the works take turns, nested loops swallowing
      drains and inline calls re-entering: from every reachable state a run of the gate left
      to itself is no longer than what was under way, and one that cannot go on has emptied
      the queue and made every parked asker's condition true. */
  lemma {:induction false} EveryScheduleReleases(s: State, steps: seq<Step>, s': State)
    requires Inv(s) && Execution(s, steps, s') && forall i :: 0 <= i < |steps| ==> Internal(steps[i])
    ensures |steps| + Weight(s') <= Weight(s)
    ensures AtRest(s') ==> Released(s')
    decreases |steps|
  {
    hide Inv, Weight, Released, AtRest, Enabled, Next, Internal;
    if steps == [] {
      RestIsReleased(s);
    } else {
      StepKeepsInv(s, steps[0]);
      EveryStepHelps(s, steps[0]);
      EveryScheduleReleases(Next(s, steps[0]), steps[1..], s');
    }
  }

  /** And such a run exists. */
  lemma {:induction false} NobodyIsStranded(s: State) returns (steps: seq<Step>, s': State)
    requires Inv(s)
    ensures Execution(s, steps, s') && (forall i :: 0 <= i < |steps| ==> Internal(steps[i]))
    ensures Inv(s') && Released(s')
    decreases Weight(s)
  {
    hide Inv, Weight, Released, Enabled, Next, Internal, Quiet;
    if Quiet(s) {
      steps, s' := [], s;
      QuietIsReleased(s);
    } else {
      var step := SomeStepIsEnabled(s);
      StepKeepsInv(s, step);
      EveryStepHelps(s, step);
      var rest;
      rest, s' := NobodyIsStranded(Next(s, step));
      steps := [step] + rest;
      assert steps[1..] == rest;
    }
  }

  // ---------------------------------------------------------------------------
  // Cancelling, and asking again
  // ---------------------------------------------------------------------------

  /** cancel() abandons every question in the queue and touches no other; the drains skip them
      later, so they stay queued. */
  lemma CancelAbandonsTheQueue(s: State, id: nat)
    requires Inv(s) && id < |s.calls|
    ensures var s' := Next(s, Cancel);
            && s'.cancelled && s'.queue == s.queue && s'.works == s.works && |s'.calls| == |s.calls|
            && s'.calls[id] == if id in s.queue then s.calls[id].(abandoned := true) else s.calls[id]
  {
    if id in s.queue {
      var i :| 0 <= i < |s.queue| && s.queue[i] == id;
      assert !s.calls[id].started;
    }
  }

  /** A question that a cancel finds in the queue never runs and is never answered true, however
      the gate goes on and even when it is opened again. */
  lemma CancelledNeverRuns(s: State, steps: seq<Step>, t: State, id: nat)
    requires Inv(s) && id in s.queue && Execution(Next(s, Cancel), steps, t)
    ensures id < |s.calls| && id < |t.calls| && t.calls[id].runs == 0 && t.calls[id].outcome != Some(true)
  {
    var i :| 0 <= i < |s.queue| && s.queue[i] == id;
    CancelAbandonsTheQueue(s, id);
    StepKeepsInv(s, Cancel);
    CallsAreFinal(Next(s, Cancel), steps, t, id);
    ReachableInv(Next(s, Cancel), steps, t);
    assert CallOk(t, id);
  }

  /** A call that looks at a cancelled gate is refused on the spot: it begins nothing and joins
      no queue. An open gate lets it in. */
  lemma CheckedWhileCancelled(s: State, t: Thread, hasWork: bool)
    requires Enabled(s, Check(t, hasWork))
    ensures Next(s, Check(t, hasWork))
            == if s.cancelled then s.(ledger := s.ledger.(refused := s.ledger.refused + 1)) else s.(pcs := s.pcs[t := Checked(hasWork)])
  {
  }

  /** A second asker, and one whose pump no loop serves, are refused and leave the gate as it is. */
  lemma OthersRefused(s: State, t: Thread)
    ensures Enabled(s, TakeInline(t)) && s.running && s.owner != Some(t) ==>
              Next(s, TakeInline(t)) == s.(pcs := s.pcs[t := Out], ledger := s.ledger.(refused := s.ledger.refused + 1))
    ensures Enabled(s, Push(t)) && !s.pumpOnApp ==>
              Next(s, Push(t)) == s.(pcs := s.pcs[t := Out], ledger := s.ledger.(refused := s.ledger.refused + 1))
  {
  }

  /** And so for as long as the gate stays cancelled: a thread that was outside call() then gets
      no further into it, and no call of its own appears. */
  lemma {:induction false} OutStaysOut(s: State, steps: seq<Step>, s': State, t: Thread)
    requires s.cancelled && PcOf(s, t) == Out && Execution(s, steps, s') && Reopen !in steps
    ensures s'.cancelled && PcOf(s', t) == Out && |s.calls| <= |s'.calls|
    ensures forall id :: |s.calls| <= id < |s'.calls| ==> s'.calls[id].asker != t
    decreases |steps|
  {
    if steps != [] {
      OutStep(s, steps[0], t);
      var u := Next(s, steps[0]);
      OutStaysOut(u, steps[1..], s', t);
      AskersStay(u, steps[1..], s');
    }
  }

  lemma OutStep(s: State, step: Step, t: Thread)
    requires s.cancelled && PcOf(s, t) == Out && Enabled(s, step) && step != Reopen
    ensures var u := Next(s, step);
            && u.cancelled && PcOf(u, t) == Out && |s.calls| <= |u.calls|
            && forall id :: |s.calls| <= id < |u.calls| ==> u.calls[id].asker != t
  {
    StepOnCalls(s, step);
    StepOnThread(s, step, t);
    hide Enabled, Next;
  }

  lemma StepOnThread(s: State, step: Step, t: Thread)
    requires s.cancelled && PcOf(s, t) == Out && Enabled(s, step) && step != Reopen
    ensures Next(s, step).cancelled && PcOf(Next(s, step), t) == Out && !(step.Push? && step.t == t)
  {
    hide Recorded;
  }

  /** What a step may do to the list of calls: a push adds one of its own thread, and who asked
      and whether there is a work never changes. */
  ghost predicate SameQuestions(s: State, step: Step, calls: seq<Call>) {
    && |s.calls| <= |calls| <= |s.calls| + 1
    && (forall id :: 0 <= id < |s.calls| ==> calls[id].asker == s.calls[id].asker && calls[id].hasWork == s.calls[id].hasWork)
    && (|calls| > |s.calls| ==> step.Push? && calls[|s.calls|].asker == step.t)
  }

  lemma StepOnCalls(s: State, step: Step)
    requires Enabled(s, step)
    ensures SameQuestions(s, step, Next(s, step).calls)
  {
    hide Recorded;
    match step
    case Deliver => DeliverOnCalls(s);
    case _ =>
  }

  lemma DeliverOnCalls(s: State)
    requires Enabled(s, Deliver)
    ensures SameQuestions(s, Deliver, Core(s, Deliver).calls)
  {
  }

  lemma {:induction false} AskersStay(s: State, steps: seq<Step>, s': State)
    requires Execution(s, steps, s')
    ensures |s.calls| <= |s'.calls| && forall id :: 0 <= id < |s.calls| ==> s'.calls[id].asker == s.calls[id].asker
    decreases |steps|
  {
    if steps != [] {
      StepOnCalls(s, steps[0]);
      AskersStay(Next(s, steps[0]), steps[1..], s');
    }
  }

  /** Steps of a gate left to itself, and parked askers waking. */
  predicate Quietly(step: Step) {
    Internal(step) || step.Wake?
  }

  lemma NotAbandoned(s: State, step: Step, id: nat)
    requires !s.cancelled && Enabled(s, step) && Quietly(step) && id < |s.calls| && !s.calls[id].abandoned
    ensures !Next(s, step).cancelled && id < |Next(s, step).calls| && !Next(s, step).calls[id].abandoned
  {
    hide Recorded, PcOf;
    match step
    case Wake(t) =>
    case Deliver =>
    case FinishSkip =>
    case FinishWork =>
    case _ =>
  }

  lemma {:induction false} StaysAsked(s: State, steps: seq<Step>, s': State, id: nat)
    requires Inv(s) && !s.cancelled && Execution(s, steps, s') && forall i :: 0 <= i < |steps| ==> Quietly(steps[i])
    requires id < |s.calls| && !s.calls[id].abandoned
    ensures Inv(s') && id < |s'.calls| && !s'.calls[id].abandoned && s'.calls[id].hasWork == s.calls[id].hasWork
    decreases |steps|
  {
    hide Inv, Enabled, Next;
    if steps != [] {
      StepKeepsInv(s, steps[0]);
      NotAbandoned(s, steps[0], id);
      StepOnCalls(s, steps[0]);
      StaysAsked(Next(s, steps[0]), steps[1..], s', id);
    }
  }

  /** Nobody who asks an open gate is put off: when it comes to rest every question with a work
      has had it run once, and whoever was answered was answered true. */
  lemma OpenGateAnswers(s: State, steps: seq<Step>, s': State, id: nat)
    requires Inv(s) && !s.cancelled && Execution(s, steps, s') && AtRest(s') && forall i :: 0 <= i < |steps| ==> Quietly(steps[i])
    requires id < |s.calls| && s.calls[id].hasWork && !s.calls[id].abandoned
    ensures id < |s'.calls| && s'.calls[id].finished && s'.calls[id].runs == 1
    ensures s'.calls[id].outcome == None || s'.calls[id].outcome == Some(true)
  {
    StaysAsked(s, steps, s', id);
    RestIsReleased(s');
    assert CallOk(s', id);
  }

  /** A gate opened again takes questions again: this run puts one into the queue. */
  lemma AskAfterReopen(s: State, t: Thread) returns (u: State)
    requires Inv(s) && PcOf(s, t) == Out && t != App && s.hasApp && s.pumpOnApp
    ensures Execution(s, [Reopen, Check(t, true), Push(t), PostDrain(t)], u) && Inv(u) && !u.cancelled
    ensures |u.calls| == |s.calls| + 1 && u.calls[|s.calls|].asker == t && u.calls[|s.calls|].hasWork && !u.calls[|s.calls|].abandoned
    ensures u.queue == s.queue + [|s.calls|] && PcOf(u, t) == Parked(|s.calls|)
  {
    hide Inv, Recorded;
    var s1 := Next(s, Reopen);
    StepKeepsInv(s, Reopen);
    var s2 := Next(s1, Check(t, true));
    StepKeepsInv(s1, Check(t, true));
    var s3 := Next(s2, Push(t));
    StepKeepsInv(s2, Push(t));
    u := Next(s3, PostDrain(t));
    StepKeepsInv(s3, PostDrain(t));
    FourSteps(s, s1, s2, s3, u, t);
  }

  lemma FourSteps(s: State, s1: State, s2: State, s3: State, u: State, t: Thread)
    requires Enabled(s, Reopen) && Next(s, Reopen) == s1 && Enabled(s1, Check(t, true)) && Next(s1, Check(t, true)) == s2
    requires Enabled(s2, Push(t)) && Next(s2, Push(t)) == s3 && Enabled(s3, PostDrain(t)) && Next(s3, PostDrain(t)) == u
    ensures Execution(s, [Reopen, Check(t, true), Push(t), PostDrain(t)], u)
  {
    hide Enabled, Next;
    assert Execution(u, [], u);
    OneMore(s3, PostDrain(t), [], u);
    OneMore(s2, Push(t), [PostDrain(t)], u);
    OneMore(s1, Check(t, true), [Push(t), PostDrain(t)], u);
    OneMore(s, Reopen, [Check(t, true), Push(t), PostDrain(t)], u);
  }

  lemma OneMore(s: State, step: Step, steps: seq<Step>, u: State)
    requires Enabled(s, step) && Execution(Next(s, step), steps, u)
    ensures Execution(s, [step] + steps, u)
  {
    assert ([step] + steps)[1..] == steps;
  }

  // ---------------------------------------------------------------------------
  // Calls that never reach the queue
  // ---------------------------------------------------------------------------

  /** Inline works that have not returned. */
  function InlineUnderWay(s: State): nat {
    if s.works != [] && s.works[0].Queued? then |s.works| - 1 else |s.works|
  }

  /** In every state a run can reach: each inline call answered true is one whose work
      returned, and each one begun is answered or still on the stack. */
  lemma {:induction false} InlineCallsAddUp(s: State, steps: seq<Step>, s': State)
    requires Inv(s) && Execution(s, steps, s') && s.ledger.begun == s.ledger.answered + InlineUnderWay(s)
    ensures s'.ledger.begun == s'.ledger.answered + InlineUnderWay(s')
    decreases |steps|
  {
    hide Enabled, Next, Inv, InlineUnderWay;
    if steps != [] {
      StepKeepsInv(s, steps[0]);
      InlineStep(s, steps[0]);
      InlineCallsAddUp(Next(s, steps[0]), steps[1..], s');
    }
  }

  /** No step changes that balance, and a refused call touches nothing. */
  lemma InlineStep(s: State, step: Step)
    requires Inv(s) && Enabled(s, step)
    ensures var s' := Next(s, step);
            s'.ledger.begun - s'.ledger.answered - InlineUnderWay(s') == s.ledger.begun - s.ledger.answered - InlineUnderWay(s)
    ensures Next(s, step).ledger.refused > s.ledger.refused ==>
              Next(s, step).works == s.works && Next(s, step).calls == s.calls && Next(s, step).queue == s.queue
  {
    hide QueueOk, DrainOk, ThreadsOk, CallsOk, Awake, InlineUnderWay;
    match step
    case TakeInline(t) => InlineTaken(s, t);
    case FinishWork => InlineFinished(s);
    case Deliver => InlineDelivered(s);
    case _ => assert Next(s, step).works == s.works; SameWorks(s, Next(s, step));
  }

  lemma SameWorks(s: State, s': State)
    requires s'.works == s.works
    ensures InlineUnderWay(s') == InlineUnderWay(s)
  {
  }

  lemma InlineTaken(s: State, t: Thread)
    requires StackOk(s) && Enabled(s, TakeInline(t))
    ensures var s' := Next(s, TakeInline(t));
            s'.ledger.begun - s'.ledger.answered - InlineUnderWay(s') == s.ledger.begun - s.ledger.answered - InlineUnderWay(s)
    ensures var s' := Next(s, TakeInline(t));
            s'.ledger.refused > s.ledger.refused ==> s'.works == s.works && s'.calls == s.calls && s'.queue == s.queue
  {
  }

  lemma InlineFinished(s: State)
    requires StackOk(s) && Enabled(s, FinishWork)
    ensures var s' := Next(s, FinishWork);
            s'.ledger.begun - s'.ledger.answered - InlineUnderWay(s') == s.ledger.begun - s.ledger.answered - InlineUnderWay(s)
            && s'.ledger.refused == s.ledger.refused
  {
    hide Recorded;
    var w := s.works[|s.works| - 1];
    assert Recorded(s, FinishWork) == if w.Inline? then s.ledger.(answered := s.ledger.answered + 1) else s.ledger by { FinishRecords(s); }
    assert |s.works| > 1 ==> w.Inline?;
    assert Next(s, FinishWork).works == s.works[..|s.works| - 1];
  }

  lemma FinishRecords(s: State)
    requires Enabled(s, FinishWork)
    ensures Recorded(s, FinishWork)
            == if s.works[|s.works| - 1].Inline? then s.ledger.(answered := s.ledger.answered + 1) else s.ledger
  {
  }

  lemma InlineDelivered(s: State)
    requires StackOk(s) && Enabled(s, Deliver)
    ensures var s' := Next(s, Deliver);
            s'.ledger == s.ledger && InlineUnderWay(s') == InlineUnderWay(s)
  {
  }
}
