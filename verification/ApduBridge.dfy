/** The REST bridge: exchanges of several clients, the thread that posts responses, and the clock, as a
    machine whose steps may interleave in any order.  One step is what a thread does between two
    points where another may run. */
module ApduBridge {
  import opened Bytes
  import opened Wrappers

  /** Where an exchange stands. */
  datatype Phase =
    | Idle                          // before the tick count is read
    | Queued                        // waits for the endpoint lock
    | Locked                        // holds the endpoint lock, wants to clear the slot
    | Clearing                      // holds the condition as well
    | Cleared                       // the slot is empty
    | Sent                          // the command went to the app
    | Checking                      // holds the condition, tests the slot
    | Waiting                       // inside wait(): the condition is released
    | Woken                         // wait() returned: holds the condition again
    | Ready                         // found a response
    | Yielded(value: seq<byte>)     // gave the response to its client
    | Done(value: seq<byte>)        // left, lock released
    | Raising                       // gave up: the condition is released, the lock not yet
    | TimedOut                      // raised, lock released

  /** An exchange: its command and time-out, the tick count it started at, how many responses had been
      posted when it cleared the slot, and the rank of its command. */
  datatype Exchange = Exchange(phase: Phase, command: seq<byte>, timeout: nat, start: nat, mark: nat, rank: nat)

  /** Who holds the condition's lock. */
  datatype Holder = Client(id: nat) | Callback(data: seq<byte>)

  /** The shared fields, and the histories of commands (by exchange) and of posted responses. */
  datatype State = State(
    exchanges: map<nat, Exchange>,
    endpoint: Option<nat>,
    condition: Option<Holder>,
    response: Option<seq<byte>>,
    ticks: nat,
    sent: seq<nat>,
    posted: seq<seq<byte>>)

  datatype Step =
    | Open(id: nat, command: seq<byte>, timeout: nat)
    | Begin(id: nat)
    | LockEndpoint(id: nat)
    | EnterClear(id: nat)
    | Clear(id: nat)
    | Send(id: nat)
    | EnterWait(id: nat)
    | Check(id: nat)
    | Wake(id: nat)
    | CheckTicks(id: nat)
    | Unwind(id: nat)
    | Yield(id: nat)
    | Finish(id: nat)
    | Tick
    | Arrive(data: seq<byte>)
    | Store

  const START := State(map[], None, None, None, 0, [], [])

  predicate In(s: State, id: nat, p: Phase) {
    id in s.exchanges && s.exchanges[id].phase == p
  }

  function Move(s: State, id: nat, p: Phase): State
    requires id in s.exchanges
  {
    s.(exchanges := s.exchanges[id := s.exchanges[id].(phase := p)])
  }

  predicate Expired(s: State, e: Exchange) {
    e.timeout != 0 && s.ticks - e.start > e.timeout
  }

  /** The state after a step; None when the step is not possible. */
  function Next(s: State, step: Step): Option<State> {
    match step
    case Open(id, command, timeout) =>
      if id in s.exchanges then None
      else Some(s.(exchanges := s.exchanges[id := Exchange(Idle, command, timeout, 0, 0, 0)]))
    case Begin(id) =>
      if !In(s, id, Idle) then None
      else Some(s.(exchanges := s.exchanges[id := s.exchanges[id].(phase := Queued, start := s.ticks)]))
    case LockEndpoint(id) =>
      if !In(s, id, Queued) || s.endpoint.Some? then None
      else Some(Move(s, id, Locked).(endpoint := Some(id)))
    case EnterClear(id) =>
      if !In(s, id, Locked) || s.condition.Some? then None
      else Some(Move(s, id, Clearing).(condition := Some(Client(id))))
    case Clear(id) =>
      if !In(s, id, Clearing) then None
      else Some(s.(exchanges := s.exchanges[id := s.exchanges[id].(phase := Cleared, mark := |s.posted|)],
                   condition := None, response := None))
    case Send(id) =>
      if !In(s, id, Cleared) then None
      else Some(s.(exchanges := s.exchanges[id := s.exchanges[id].(phase := Sent, rank := |s.sent|)],
                   sent := s.sent + [id]))
    case EnterWait(id) =>
      if !In(s, id, Sent) || s.condition.Some? then None
      else Some(Move(s, id, Checking).(condition := Some(Client(id))))
    case Check(id) =>
      if !In(s, id, Checking) then None
      else Some(Move(s, id, if s.response.None? then Waiting else Ready).(condition := None))
    case Wake(id) =>
      if !In(s, id, Waiting) || s.condition.Some? then None
      else Some(Move(s, id, Woken).(condition := Some(Client(id))))
    case CheckTicks(id) =>
      if !In(s, id, Woken) then None
      else if Expired(s, s.exchanges[id]) then Some(Move(s, id, Raising).(condition := None))
      else Some(Move(s, id, Checking))
    case Unwind(id) =>
      if !In(s, id, Raising) then None else Some(Move(s, id, TimedOut).(endpoint := None))
    case Yield(id) =>
      // reads the slot without the condition; None here would be an AttributeError
      if !In(s, id, Ready) || s.response.None? then None
      else Some(Move(s, id, Yielded(s.response.value)))
    case Finish(id) =>
      if !(id in s.exchanges && s.exchanges[id].phase.Yielded?) then None
      else Some(Move(s, id, Done(s.exchanges[id].phase.value)).(endpoint := None))
    case Tick => Some(s.(ticks := s.ticks + 1))
    case Arrive(data) =>
      if s.condition.Some? then None else Some(s.(condition := Some(Callback(data))))
    case Store =>
      match s.condition
      case Some(Callback(data)) =>
        Some(s.(condition := None, response := Some(data), posted := s.posted + [data]))
      case _ => None
  }

  /** The state after a run of steps; None when one of them is not possible. */
  function Run(s: State, steps: seq<Step>): Option<State> {
    if |steps| == 0 then Some(s)
    else
      match Run(s, steps[..|steps| - 1])
      case None => None
      case Some(before) => Next(before, steps[|steps| - 1])
  }

  // ----- what every run keeps

  /** Between taking and releasing the endpoint lock. */
  predicate Critical(p: Phase) {
    p.Locked? || p.Clearing? || p.Raising? || AfterClear(p)
  }

  /** Between clearing the slot and leaving. */
  predicate AfterClear(p: Phase) {
    p.Cleared? || AfterSend(p)
  }

  predicate AfterSend(p: Phase) {
    p.Sent? || p.Checking? || p.Waiting? || p.Woken? || p.Ready? || p.Yielded?
  }

  predicate HoldsCondition(p: Phase) {
    p.Clearing? || p.Checking? || p.Woken?
  }

  predicate HasValue(p: Phase) {
    p.Yielded? || p.Done?
  }

  /** The locks are held by whom the phases say. */
  ghost predicate LocksAgree(s: State) {
    && (forall id :: id in s.exchanges ==> LocksAgreeOn(s, id))
    && (s.condition.Some? && s.condition.value.Client? ==> s.condition.value.id in s.exchanges)
    && (s.endpoint.Some? ==> s.endpoint.value in s.exchanges)
  }

  /** The slot of an exchange that has cleared it: empty, or the last response posted since. */
  predicate SlotFresh(s: State, e: Exchange) {
    && e.mark <= |s.posted|
    && s.response == (if |s.posted| == e.mark then None else Some(s.posted[|s.posted| - 1]))
    && (e.phase.Ready? ==> s.response.Some?)
  }

  /** The value was posted after the exchange cleared the slot. */
  ghost predicate PostedSinceClear(s: State, e: Exchange)
    requires HasValue(e.phase)
  {
    exists k :: e.mark <= k < |s.posted| && s.posted[k] == e.phase.value
  }

  ghost predicate Inv(s: State) {
    && LocksAgree(s)
    && (forall id :: id in s.exchanges && AfterClear(s.exchanges[id].phase) ==> SlotFresh(s, s.exchanges[id]))
    && (forall id :: id in s.exchanges && HasValue(s.exchanges[id].phase) ==> PostedSinceClear(s, s.exchanges[id]))
  }

  /** The locks and the phase of one exchange. */
  predicate LocksAgreeOn(s: State, id: nat)
    requires id in s.exchanges
  {
    && (Critical(s.exchanges[id].phase) <==> s.endpoint == Some(id))
    && (HoldsCondition(s.exchanges[id].phase) <==> s.condition == Some(Client(id)))
  }

  /** Steps up to the sending of a command. */
  predicate BeforeWaiting(step: Step) {
    step.Open? || step.Begin? || step.LockEndpoint? || step.EnterClear? || step.Clear? || step.Send? || step.Tick?
  }

  lemma LocksStayBeforeWaiting(s: State, step: Step, id: nat)
    requires LocksAgree(s) && BeforeWaiting(step) && Next(s, step).Some? && id in Next(s, step).value.exchanges
    ensures LocksAgreeOn(Next(s, step).value, id)
  {
    assert id in s.exchanges ==> LocksAgreeOn(s, id);
    if !step.Tick? && !step.Open? {
      assert LocksAgreeOn(s, step.id);
    }
  }

  /** Steps of an exchange that waits for its response. */
  predicate WhileWaiting(step: Step) {
    step.EnterWait? || step.Check? || step.Wake? || step.CheckTicks?
  }

  lemma LocksStayWhileWaiting(s: State, step: Step, id: nat)
    requires LocksAgree(s) && WhileWaiting(step) && Next(s, step).Some? && id in Next(s, step).value.exchanges
    ensures LocksAgreeOn(Next(s, step).value, id)
  {
    assert LocksAgreeOn(s, id) && LocksAgreeOn(s, step.id);
    hide LocksAgree, Expired;
  }

  lemma LocksStayOn(s: State, step: Step, id: nat)
    requires LocksAgree(s) && Next(s, step).Some? && id in Next(s, step).value.exchanges
    ensures LocksAgreeOn(Next(s, step).value, id)
  {
    if BeforeWaiting(step) {
      LocksStayBeforeWaiting(s, step, id);
      hide Next, LocksAgreeOn;
    } else if WhileWaiting(step) {
      LocksStayWhileWaiting(s, step, id);
      hide Next, LocksAgreeOn;
    } else {
      assert LocksAgreeOn(s, id);
      if !step.Arrive? && !step.Store? {
        assert LocksAgreeOn(s, step.id);
      }
      hide LocksAgree;
    }
  }

  lemma LocksStay(s: State, step: Step)
    requires LocksAgree(s) && Next(s, step).Some?
    ensures LocksAgree(Next(s, step).value)
  {
    var s' := Next(s, step).value;
    assert s'.condition.Some? && s'.condition.value.Client? ==> s'.condition.value.id in s'.exchanges;
    assert s'.endpoint.Some? ==> s'.endpoint.value in s'.exchanges;
    hide Next;
    forall id | id in s'.exchanges
      ensures LocksAgreeOn(s', id)
    {
      LocksStayOn(s, step, id);
    }
  }

  /** The exchange that a step moves. */
  function Mover(step: Step): Option<nat> {
    match step
    case Tick => None
    case Arrive(_) => None
    case Store => None
    case _ => Some(step.id)
  }

  /** A step moves no other exchange. */
  lemma OthersStay(s: State, step: Step, id: nat)
    requires Next(s, step).Some? && Mover(step) != Some(id)
    ensures id in Next(s, step).value.exchanges <==> id in s.exchanges
    ensures id in s.exchanges ==> Next(s, step).value.exchanges[id] == s.exchanges[id]
  {
  }

  /** Commands are sent by Send and responses posted by Store. */
  lemma HistoriesGrow(s: State, step: Step)
    requires Next(s, step).Some?
    ensures Next(s, step).value.sent == if step.Send? then s.sent + [step.id] else s.sent
    ensures step.Send? ==> In(s, step.id, Cleared)
    ensures step.Store? ==> s.condition.Some? && s.condition.value.Callback?
    ensures Next(s, step).value.posted == if step.Store? then s.posted + [s.condition.value.data] else s.posted
  {
  }

  /** Only one exchange can be past the clearing of the slot. */
  lemma OnlyOwner(s: State, i: nat, j: nat)
    requires LocksAgree(s) && i in s.exchanges && j in s.exchanges
    requires Critical(s.exchanges[i].phase) && Critical(s.exchanges[j].phase)
    ensures i == j
  {
    assert LocksAgreeOn(s, i) && LocksAgreeOn(s, j);
  }

  lemma SlotStaysFresh(s: State, step: Step, id: nat)
    requires Inv(s) && Next(s, step).Some?
    requires var s' := Next(s, step).value; id in s'.exchanges && AfterClear(s'.exchanges[id].phase)
    ensures SlotFresh(Next(s, step).value, Next(s, step).value.exchanges[id])
  {
    var s' := Next(s, step).value;
    if id in s.exchanges {
      assert LocksAgreeOn(s, id);
      assert AfterClear(s.exchanges[id].phase) ==> SlotFresh(s, s.exchanges[id]);
    }
    if step.Clear? {
      assert LocksAgreeOn(s, step.id);
    }
    hide LocksAgree, PostedSinceClear;
  }

  /** A value is only given by Yield; then it and the clearing are not touched again. */
  lemma ValueIsKept(s: State, step: Step, id: nat)
    requires Next(s, step).Some? && step != Yield(id)
    requires var s' := Next(s, step).value; id in s'.exchanges && HasValue(s'.exchanges[id].phase)
    ensures id in s.exchanges && HasValue(s.exchanges[id].phase)
    ensures var e, e' := s.exchanges[id], Next(s, step).value.exchanges[id];
      e.mark == e'.mark && e.rank == e'.rank && e.phase.value == e'.phase.value
    ensures s.posted <= Next(s, step).value.posted
  {
  }

  lemma ValuesStayPosted(s: State, step: Step, id: nat)
    requires Inv(s) && Next(s, step).Some?
    requires var s' := Next(s, step).value; id in s'.exchanges && HasValue(s'.exchanges[id].phase)
    ensures PostedSinceClear(Next(s, step).value, Next(s, step).value.exchanges[id])
  {
    var s' := Next(s, step).value;
    var e' := s'.exchanges[id];
    if step == Yield(id) {
      hide LocksAgree;
      assert SlotFresh(s, s.exchanges[id]);
      assert s'.posted[|s.posted| - 1] == e'.phase.value;
    } else {
      ValueIsKept(s, step, id);
      hide Next, LocksAgree;
      var k :| s.exchanges[id].mark <= k < |s.posted| && s.posted[k] == s.exchanges[id].phase.value;
      assert s'.posted[k] == e'.phase.value;
    }
  }

  /** Every step keeps the invariant. */
  lemma StepKeepsInv(s: State, step: Step)
    requires Inv(s) && Next(s, step).Some?
    ensures Inv(Next(s, step).value)
  {
    LocksStay(s, step);
    var s' := Next(s, step).value;
    forall id | id in s'.exchanges && AfterClear(s'.exchanges[id].phase)
      ensures SlotFresh(s', s'.exchanges[id])
    {
      SlotStaysFresh(s, step, id);
    }
    forall id | id in s'.exchanges && HasValue(s'.exchanges[id].phase)
      ensures PostedSinceClear(s', s'.exchanges[id])
    {
      ValuesStayPosted(s, step, id);
    }
  }

  lemma {:induction false} RunKeepsInv(s: State, steps: seq<Step>)
    requires Inv(s) && Run(s, steps).Some?
    ensures Inv(Run(s, steps).value)
    decreases |steps|
  {
    hide Inv;
    if |steps| > 0 {
      RunKeepsInv(s, steps[..|steps| - 1]);
      StepKeepsInv(Run(s, steps[..|steps| - 1]).value, steps[|steps| - 1]);
    }
  }

  /** In every interleaving at most one exchange is between clearing the slot and yielding; the value it
      yields was posted after its own clearing; and the slot is never empty when it is read. */
  lemma ExchangesAreSafe(steps: seq<Step>, i: nat, j: nat)
    requires Run(START, steps).Some?
    requires i in Run(START, steps).value.exchanges && j in Run(START, steps).value.exchanges
    ensures var s := Run(START, steps).value;
      && (AfterClear(s.exchanges[i].phase) && AfterClear(s.exchanges[j].phase) ==> i == j)
      && (HasValue(s.exchanges[i].phase) ==> PostedSinceClear(s, s.exchanges[i]))
      && (s.exchanges[i].phase.Ready? ==> Next(s, Yield(i)).Some?)
  {
    var s := Run(START, steps).value;
    RunKeepsInv(START, steps);
    if AfterClear(s.exchanges[i].phase) && AfterClear(s.exchanges[j].phase) {
      OnlyOwner(s, i, j);
    }
    hide LocksAgree, Run, PostedSinceClear;
  }

  // ----- one response for each command, in order

  /** The app answers commands, at most once each: a response is only posted while one is missing. */
  predicate Disciplined(s: State, step: Step) {
    step.Arrive? ==> |s.posted| < |s.sent|
  }

  predicate DisciplinedRun(s: State, steps: seq<Step>) {
    |steps| == 0 ||
    (DisciplinedRun(s, steps[..|steps| - 1]) &&
     match Run(s, steps[..|steps| - 1])
     case None => true
     case Some(before) => Disciplined(before, steps[|steps| - 1]))
  }

  /** The exchange sent its command when every earlier one had been answered. */
  predicate InTurn(e: Exchange) {
    e.mark == e.rank
  }

  /** The command of the owner is the last one sent. */
  predicate RankIsLast(s: State, e: Exchange) {
    AfterSend(e.phase) ==> e.rank == |s.sent| - 1
  }

  /** A value that the exchange has is the response to its own command. */
  predicate OwnValue(s: State, e: Exchange) {
    HasValue(e.phase) ==> e.rank < |s.posted| && e.phase.value == s.posted[e.rank]
  }

  /** An exchange that was in turn has its own response. */
  predicate HasOwnResponse(s: State, e: Exchange) {
    InTurn(e) ==> OwnValue(s, e)
  }

  predicate OrderInvOn(s: State, e: Exchange) {
    RankIsLast(s, e) && HasOwnResponse(s, e)
  }

  ghost predicate OrderInv(s: State) {
    && |s.posted| <= |s.sent|
    && (s.condition.Some? && s.condition.value.Callback? ==> |s.posted| < |s.sent|)
    && (forall id :: id in s.exchanges ==> OrderInvOn(s, s.exchanges[id]))
  }

  lemma RankStaysLast(s: State, step: Step, id: nat)
    requires LocksAgree(s) && Next(s, step).Some? && id in Next(s, step).value.exchanges
    requires id in s.exchanges ==> RankIsLast(s, s.exchanges[id])
    ensures RankIsLast(Next(s, step).value, Next(s, step).value.exchanges[id])
  {
    if id in s.exchanges {
      assert LocksAgreeOn(s, id);
    }
    if Mover(step) == Some(id) {
      hide LocksAgree, Mover;
    } else {
      OthersStay(s, step, id);
      HistoriesGrow(s, step);
      hide Next;
      if step.Send? {
        assert LocksAgreeOn(s, step.id);
      }
      hide LocksAgree;
    }
  }

  lemma OwnResponseStays(s: State, step: Step, id: nat)
    requires |s.posted| <= |s.sent| && Next(s, step).Some? && id in Next(s, step).value.exchanges
    requires id in s.exchanges ==> OrderInvOn(s, s.exchanges[id])
    requires id in s.exchanges && AfterClear(s.exchanges[id].phase) ==> SlotFresh(s, s.exchanges[id])
    ensures HasOwnResponse(Next(s, step).value, Next(s, step).value.exchanges[id])
  {
    var s' := Next(s, step).value;
    if step == Yield(id) {
      assert s.exchanges[id].rank == |s.sent| - 1;
    } else if HasValue(s'.exchanges[id].phase) {
      ValueIsKept(s, step, id);
      hide Next;
    } else {
      hide Next;
    }
  }

  lemma OrderStaysOn(s: State, step: Step, id: nat)
    requires Inv(s) && OrderInv(s) && Next(s, step).Some? && id in Next(s, step).value.exchanges
    ensures OrderInvOn(Next(s, step).value, Next(s, step).value.exchanges[id])
  {
    RankStaysLast(s, step, id);
    OwnResponseStays(s, step, id);
    hide Next;
  }

  lemma StepKeepsOrder(s: State, step: Step)
    requires Inv(s) && OrderInv(s) && Disciplined(s, step) && Next(s, step).Some?
    ensures OrderInv(Next(s, step).value)
  {
    var s' := Next(s, step).value;
    assert |s'.posted| <= |s'.sent|;
    assert s'.condition.Some? && s'.condition.value.Callback? ==> |s'.posted| < |s'.sent|;
    hide Next;
    forall id | id in s'.exchanges
      ensures OrderInvOn(s', s'.exchanges[id])
    {
      OrderStaysOn(s, step, id);
    }
  }

  /** Before the command of an exchange is sent no answer is missing; after it, it is its turn. */
  predicate AnsweredOn(s: State, e: Exchange) {
    && (e.phase.Locked? || e.phase.Clearing? ==> |s.posted| == |s.sent|)
    && (e.phase.Cleared? ==> e.mark == |s.posted| == |s.sent|)
    && (AfterSend(e.phase) || HasValue(e.phase) ==> InTurn(e))
  }

  /** While no exchange has timed out, no answer is missing when the endpoint is free or just taken. */
  ghost predicate AnsweredInv(s: State) {
    && (s.endpoint.None? ==> |s.posted| == |s.sent|)
    && (forall id :: id in s.exchanges ==> AnsweredOn(s, s.exchanges[id]))
  }

  predicate GaveUp(p: Phase) {
    p.Raising? || p.TimedOut?
  }

  predicate NobodyTimedOut(s: State) {
    forall id :: id in s.exchanges ==> !GaveUp(s.exchanges[id].phase)
  }

  lemma AnsweredStaysOn(s: State, step: Step, id: nat)
    requires LocksAgree(s) && OrderInv(s) && AnsweredInv(s) && Next(s, step).Some?
    requires id in Next(s, step).value.exchanges
    ensures AnsweredOn(Next(s, step).value, Next(s, step).value.exchanges[id])
  {
    if id in s.exchanges {
      assert AnsweredOn(s, s.exchanges[id]) && LocksAgreeOn(s, id);
    }
    if Mover(step) == Some(id) {
      hide LocksAgree, AnsweredInv, OrderInvOn, Mover;
    } else {
      OthersStay(s, step, id);
      HistoriesGrow(s, step);
      hide Next;
      if step.Send? {
        assert LocksAgreeOn(s, step.id);
      }
      hide LocksAgree, AnsweredInv, OrderInvOn;
    }
  }

  lemma UnwindTimesOut(s: State, id: nat)
    requires Next(s, Unwind(id)).Some?
    ensures !NobodyTimedOut(Next(s, Unwind(id)).value)
  {
    assert Next(s, Unwind(id)).value.exchanges[id].phase.TimedOut?;
  }

  lemma FreeEndpointIsAnswered(s: State, step: Step)
    requires Inv(s) && OrderInv(s) && AnsweredInv(s) && Next(s, step).Some?
    requires !step.Unwind? && Next(s, step).value.endpoint.None?
    ensures |Next(s, step).value.posted| == |Next(s, step).value.sent|
  {
    var s' := Next(s, step).value;
    assert forall id :: id in s.exchanges ==> LocksAgreeOn(s, id);
    if step.Finish? {
      var e := s.exchanges[step.id];
      assert AnsweredOn(s, e) && OrderInvOn(s, e);
    }
  }

  lemma StepKeepsAnswered(s: State, step: Step)
    requires Inv(s) && OrderInv(s) && AnsweredInv(s) && Next(s, step).Some?
    requires NobodyTimedOut(Next(s, step).value)
    ensures AnsweredInv(Next(s, step).value)
  {
    var s' := Next(s, step).value;
    if step.Unwind? {
      UnwindTimesOut(s, step.id);
    } else if s'.endpoint.None? {
      FreeEndpointIsAnswered(s, step);
    }
    hide Next;
    forall id | id in s'.exchanges
      ensures AnsweredOn(s', s'.exchanges[id])
    {
      AnsweredStaysOn(s, step, id);
    }
  }

  lemma {:induction false} RunKeepsOrder(s: State, steps: seq<Step>)
    requires Inv(s) && OrderInv(s) && Run(s, steps).Some? && DisciplinedRun(s, steps)
    ensures OrderInv(Run(s, steps).value)
    decreases |steps|
  {
    hide Inv, OrderInv;
    if |steps| > 0 {
      RunKeepsOrder(s, steps[..|steps| - 1]);
      RunKeepsInv(s, steps[..|steps| - 1]);
      StepKeepsOrder(Run(s, steps[..|steps| - 1]).value, steps[|steps| - 1]);
    }
  }

  lemma {:induction false} RunKeepsAnswered(steps: seq<Step>)
    requires Run(START, steps).Some? && DisciplinedRun(START, steps) && NobodyTimedOut(Run(START, steps).value)
    ensures AnsweredInv(Run(START, steps).value)
    decreases |steps|
  {
    if |steps| > 0 {
      var before, step := Run(START, steps[..|steps| - 1]).value, steps[|steps| - 1];
      StillNobody(before, step);
      RunKeepsAnswered(steps[..|steps| - 1]);
      RunKeepsInv(START, steps[..|steps| - 1]);
      RunKeepsOrder(START, steps[..|steps| - 1]);
      StepKeepsAnswered(before, step);
    }
  }

  lemma StillNobody(s: State, step: Step)
    requires Next(s, step).Some? && NobodyTimedOut(Next(s, step).value)
    ensures NobodyTimedOut(s)
  {
    forall id | id in s.exchanges
      ensures !GaveUp(s.exchanges[id].phase)
    {
      assert !GaveUp(Next(s, step).value.exchanges[id].phase);
    }
  }

  /** If every command gets one response and nothing has timed out, every exchange that returns a value
      returns the response to its own command. */
  lemma OwnResponse(steps: seq<Step>, id: nat)
    requires Run(START, steps).Some? && DisciplinedRun(START, steps) && NobodyTimedOut(Run(START, steps).value)
    requires id in Run(START, steps).value.exchanges
    ensures OwnValue(Run(START, steps).value, Run(START, steps).value.exchanges[id])
  {
    RunKeepsInv(START, steps);
    RunKeepsOrder(START, steps);
    RunKeepsAnswered(steps);
    hide Run, DisciplinedRun, OwnValue;
    var s := Run(START, steps).value;
    assert OrderInvOn(s, s.exchanges[id]) && AnsweredOn(s, s.exchanges[id]);
    if !HasValue(s.exchanges[id].phase) {
      NoValue(s, s.exchanges[id]);
    }
  }

  lemma NoValue(s: State, e: Exchange)
    requires !HasValue(e.phase)
    ensures OwnValue(s, e)
  {
  }

  /** Even after time-outs, an exchange whose turn it was gets its own response. */
  lemma InTurnResponse(steps: seq<Step>, id: nat)
    requires Run(START, steps).Some? && DisciplinedRun(START, steps)
    requires id in Run(START, steps).value.exchanges && InTurn(Run(START, steps).value.exchanges[id])
    ensures OwnValue(Run(START, steps).value, Run(START, steps).value.exchanges[id])
  {
    RunKeepsOrder(START, steps);
    hide Run, DisciplinedRun, OwnValue;
    assert OrderInvOn(Run(START, steps).value, Run(START, steps).value.exchanges[id]);
  }

  // ----- when the own response is certain

  /** However the run goes on, as long as the app is disciplined, the exchange only ever has the response
      to its own command. */
  ghost predicate AlwaysOwn(s: State, id: nat) {
    forall steps :: Run(s, steps).Some? && DisciplinedRun(s, steps) && id in Run(s, steps).value.exchanges ==>
      OwnValue(Run(s, steps).value, Run(s, steps).value.exchanges[id])
  }

  /** No answer was missing when the exchange cleared the slot. */
  predicate OnTrack(s: State, e: Exchange) {
    if e.phase.Cleared? then e.mark == |s.sent|
    else InTurn(e) && (AfterSend(e.phase) || HasValue(e.phase) || GaveUp(e.phase))
  }

  lemma StepStaysOnTrack(s: State, step: Step, id: nat)
    requires LocksAgree(s) && Next(s, step).Some? && id in s.exchanges && OnTrack(s, s.exchanges[id])
    ensures id in Next(s, step).value.exchanges && OnTrack(Next(s, step).value, Next(s, step).value.exchanges[id])
  {
    assert LocksAgreeOn(s, id);
    if Mover(step) == Some(id) {
      hide LocksAgree, LocksAgreeOn, Mover;
    } else {
      OthersStay(s, step, id);
      HistoriesGrow(s, step);
      hide Next;
      if step.Send? {
        assert LocksAgreeOn(s, step.id);
      }
    }
  }

  lemma {:induction false} RunStaysOnTrack(s: State, steps: seq<Step>, id: nat)
    requires Inv(s) && Run(s, steps).Some? && id in s.exchanges && OnTrack(s, s.exchanges[id])
    ensures id in Run(s, steps).value.exchanges
    ensures OnTrack(Run(s, steps).value, Run(s, steps).value.exchanges[id])
    decreases |steps|
  {
    hide Next, OnTrack;
    if |steps| > 0 {
      RunStaysOnTrack(s, steps[..|steps| - 1], id);
      RunKeepsInv(s, steps[..|steps| - 1]);
      StepStaysOnTrack(Run(s, steps[..|steps| - 1]).value, steps[|steps| - 1], id);
    }
  }

  /** When an exchange has cleared the slot, its own response is certain exactly when no answer is missing
      then: as many responses were posted as commands were sent.  The others may get an earlier one. */
  lemma OwnResponseExactly(steps: seq<Step>, id: nat)
    requires Run(START, steps).Some? && DisciplinedRun(START, steps) && In(Run(START, steps).value, id, Cleared)
    ensures var s := Run(START, steps).value; AlwaysOwn(s, id) <==> s.exchanges[id].mark == |s.sent|
  {
    var s := Run(START, steps).value;
    RunKeepsInv(START, steps);
    RunKeepsOrder(START, steps);
    hide Run, DisciplinedRun, Inv, OrderInv, Next;
    if s.exchanges[id].mark == |s.sent| {
      forall more | Run(s, more).Some? && DisciplinedRun(s, more) && id in Run(s, more).value.exchanges
        ensures OwnValue(Run(s, more).value, Run(s, more).value.exchanges[id])
      {
        TrackedIsOwn(s, more, id);
      }
    } else {
      var more := StaleRun(s, id);
      var e := Run(s, more).value.exchanges[id];
      assert HasValue(e.phase) && !OwnValue(Run(s, more).value, e);
    }
  }

  lemma TrackedIsOwn(s: State, steps: seq<Step>, id: nat)
    requires Inv(s) && OrderInv(s) && Run(s, steps).Some? && DisciplinedRun(s, steps)
    requires id in s.exchanges && OnTrack(s, s.exchanges[id])
    ensures id in Run(s, steps).value.exchanges
    ensures OwnValue(Run(s, steps).value, Run(s, steps).value.exchanges[id])
  {
    RunStaysOnTrack(s, steps, id);
    RunKeepsOrder(s, steps);
    hide Run, DisciplinedRun, Inv, OwnValue;
    var s' := Run(s, steps).value;
    assert OrderInvOn(s', s'.exchanges[id]);
    if s'.exchanges[id].phase.Cleared? {
      NoValue(s', s'.exchanges[id]);
    }
  }

  lemma RunNone(s: State)
    ensures Run(s, []) == Some(s) && DisciplinedRun(s, [])
  {
  }

  /** A run made longer by one step. */
  lemma RunOne(s: State, steps: seq<Step>, step: Step)
    ensures Run(s, steps).Some? ==> Run(s, steps + [step]) == Next(Run(s, steps).value, step)
    ensures Run(s, steps).Some? && DisciplinedRun(s, steps) && Disciplined(Run(s, steps).value, step) ==>
      DisciplinedRun(s, steps + [step])
  {
    assert (steps + [step])[..|steps|] == steps;
  }

  /** A run of one step. */
  lemma OneStep(s: State, a: Step, s1: State)
    requires Next(s, a) == Some(s1) && Disciplined(s, a)
    ensures Run(s, [a]) == Some(s1) && DisciplinedRun(s, [a])
  {
    hide Next, Run, DisciplinedRun;
    RunNone(s);
    RunOne(s, [], a);
    assert [] + [a] == [a];
  }

  /** A run of three steps. */
  lemma ThreeSteps(s: State, a: Step, b: Step, c: Step, s1: State, s2: State, s3: State)
    requires Next(s, a) == Some(s1) && Next(s1, b) == Some(s2) && Next(s2, c) == Some(s3)
    requires Disciplined(s, a) && Disciplined(s1, b) && Disciplined(s2, c)
    ensures Run(s, [a, b, c]) == Some(s3) && DisciplinedRun(s, [a, b, c])
  {
    hide Next, Run, DisciplinedRun, Disciplined;
    OneStep(s, a, s1);
    RunOne(s, [a], b);
    RunOne(s, [a] + [b], c);
    assert [a] + [b] + [c] == [a, b, c];
  }

  lemma {:induction false} RunAppend(s: State, a: seq<Step>, b: seq<Step>)
    requires Run(s, a).Some?
    ensures Run(s, a + b) == Run(Run(s, a).value, b)
    ensures DisciplinedRun(s, a) && DisciplinedRun(Run(s, a).value, b) ==> DisciplinedRun(s, a + b)
    decreases |b|
  {
    hide Next;
    if |b| == 0 {
      assert a + b == a;
    } else {
      assert (a + b)[..|a + b| - 1] == a + b[..|b| - 1];
      RunAppend(s, a, b[..|b| - 1]);
    }
  }

  /** A response arrives. */
  lemma Answer(s: State, data: seq<byte>) returns (steps: seq<Step>, s': State)
    requires s.condition.None? && |s.posted| < |s.sent|
    ensures Run(s, steps) == Some(s') && DisciplinedRun(s, steps)
    ensures s' == s.(response := Some(data), posted := s.posted + [data])
  {
    var s1 := s.(condition := Some(Callback(data)));
    s' := s.(response := Some(data), posted := s.posted + [data]);
    OneStep(s, Arrive(data), s1);
    OneStep(s1, Store, s');
    RunAppend(s, [Arrive(data)], [Store]);
    steps := [Arrive(data)] + [Store];
  }

  /** The owner yields what the slot holds. */
  lemma Fetch(s: State, id: nat) returns (steps: seq<Step>, s': State)
    requires In(s, id, Sent) && s.condition.None? && s.response.Some?
    ensures Run(s, steps) == Some(s') && DisciplinedRun(s, steps)
    ensures In(s', id, Yielded(s.response.value)) && s'.exchanges[id].rank == s.exchanges[id].rank
    ensures s'.posted == s.posted
  {
    var s1 := Move(s, id, Checking).(condition := Some(Client(id)));
    var s2 := Move(s1, id, Ready).(condition := None);
    s' := Move(s2, id, Yielded(s.response.value));
    ThreeSteps(s, EnterWait(id), Check(id), Yield(id), s1, s2, s');
    steps := [EnterWait(id), Check(id), Yield(id)];
  }

  /** The owner sends its command, after a response that is just being posted, if any. */
  lemma SendOn(s: State, id: nat) returns (steps: seq<Step>, s': State)
    requires Inv(s) && OrderInv(s) && In(s, id, Cleared)
    ensures Run(s, steps) == Some(s') && DisciplinedRun(s, steps)
    ensures In(s', id, Sent) && s'.condition.None? && |s'.posted| <= |s.sent|
    ensures s'.exchanges[id].mark == s.exchanges[id].mark && s'.exchanges[id].rank == |s.sent|
  {
    var s1 := s;
    steps := [];
    RunNone(s);
    match s.condition {
      case Some(Callback(data)) =>
        s1 := s.(condition := None, response := Some(data), posted := s.posted + [data]);
        OneStep(s, Store, s1);
        steps := [Store];
      case Some(Client(j)) =>
        assert LocksAgreeOn(s, j) && LocksAgreeOn(s, id);
        OnlyOwner(s, j, id);
        assert false;
      case None =>
    }
    s' := s1.(exchanges := s1.exchanges[id := s1.exchanges[id].(phase := Sent, rank := |s1.sent|)],
              sent := s1.sent + [id]);
    OneStep(s1, Send(id), s');
    RunAppend(s, steps, [Send(id)]);
    steps := steps + [Send(id)];
  }

  /** An exchange that sent its command while an earlier answer was missing, and whose own is not there
      yet, can be made to yield before its own is posted: by what the slot holds, or else by what arrives. */
  lemma StaleAnswer(s: State, id: nat) returns (steps: seq<Step>)
    requires Inv(s) && OrderInv(s) && In(s, id, Sent) && s.condition.None?
    requires !InTurn(s.exchanges[id]) && |s.posted| <= s.exchanges[id].rank
    ensures Run(s, steps).Some? && DisciplinedRun(s, steps)
    ensures var s' := Run(s, steps).value;
      id in s'.exchanges && HasValue(s'.exchanges[id].phase) && |s'.posted| <= s'.exchanges[id].rank
  {
    var s1 := s;
    var first: seq<Step> := [];
    RunNone(s);
    assert RankIsLast(s, s.exchanges[id]) && SlotFresh(s, s.exchanges[id]);
    hide Run, DisciplinedRun, Next, Inv, OrderInv;
    if s.response.None? {
      first, s1 := Answer(s, []);
    }
    var last, s2 := Fetch(s1, id);
    RunAppend(s, first, last);
    steps := first + last;
  }

  /** The same from the moment it has cleared the slot. */
  lemma StaleRun(s: State, id: nat) returns (steps: seq<Step>)
    requires Inv(s) && OrderInv(s) && In(s, id, Cleared) && s.exchanges[id].mark != |s.sent|
    ensures Run(s, steps).Some? && DisciplinedRun(s, steps)
    ensures var s' := Run(s, steps).value;
      id in s'.exchanges && HasValue(s'.exchanges[id].phase) && |s'.posted| <= s'.exchanges[id].rank
  {
    hide Run, DisciplinedRun, Next, Inv, OrderInv;
    var first, s1 := SendOn(s, id);
    RunKeepsInv(s, first);
    RunKeepsOrder(s, first);
    var last := StaleAnswer(s1, id);
    RunAppend(s, first, last);
    steps := first + last;
  }

  // ----- a late response

  function SubmitSteps(id: nat, command: seq<byte>, timeout: nat): seq<Step> {
    [Open(id, command, timeout), Begin(id), LockEndpoint(id)] + [EnterClear(id), Clear(id), Send(id)]
  }

  /** A new exchange takes the free endpoint lock. */
  lemma TakeEndpoint(s: State, id: nat, command: seq<byte>, timeout: nat) returns (s': State)
    requires id !in s.exchanges && s.endpoint.None?
    ensures Run(s, [Open(id, command, timeout), Begin(id), LockEndpoint(id)]) == Some(s')
    ensures DisciplinedRun(s, [Open(id, command, timeout), Begin(id), LockEndpoint(id)])
    ensures s' == s.(exchanges := s'.exchanges, endpoint := Some(id))
    ensures s'.exchanges.Keys == s.exchanges.Keys + {id}
    ensures s'.exchanges[id] == Exchange(Locked, command, timeout, s.ticks, 0, 0)
  {
    hide Run, DisciplinedRun;
    var e := Exchange(Idle, command, timeout, 0, 0, 0);
    var s1 := s.(exchanges := s.exchanges[id := e]);
    var s2 := s1.(exchanges := s1.exchanges[id := e.(phase := Queued, start := s.ticks)]);
    s' := Move(s2, id, Locked).(endpoint := Some(id));
    ThreeSteps(s, Open(id, command, timeout), Begin(id), LockEndpoint(id), s1, s2, s');
  }

  /** The owner of the endpoint clears the slot and sends its command. */
  lemma ClearAndSend(s: State, id: nat) returns (s': State)
    requires In(s, id, Locked) && s.condition.None?
    ensures Run(s, [EnterClear(id), Clear(id), Send(id)]) == Some(s')
    ensures DisciplinedRun(s, [EnterClear(id), Clear(id), Send(id)])
    ensures s' == s.(exchanges := s'.exchanges, response := None, sent := s.sent + [id])
    ensures s'.exchanges.Keys == s.exchanges.Keys
    ensures s'.exchanges[id] == s.exchanges[id].(phase := Sent, mark := |s.posted|, rank := |s.sent|)
  {
    hide Run, DisciplinedRun;
    var s1 := Move(s, id, Clearing).(condition := Some(Client(id)));
    var s2 := s1.(exchanges := s1.exchanges[id := s1.exchanges[id].(phase := Cleared, mark := |s.posted|)],
                  condition := None, response := None);
    s' := s2.(exchanges := s2.exchanges[id := s2.exchanges[id].(phase := Sent, rank := |s.sent|)],
              sent := s2.sent + [id]);
    ThreeSteps(s, EnterClear(id), Clear(id), Send(id), s1, s2, s');
  }

  /** A new exchange may go as far as sending its command when both locks are free. */
  lemma Submit(s: State, id: nat, command: seq<byte>, timeout: nat) returns (s': State)
    requires id !in s.exchanges && s.endpoint.None? && s.condition.None?
    ensures Run(s, SubmitSteps(id, command, timeout)) == Some(s') && DisciplinedRun(s, SubmitSteps(id, command, timeout))
    ensures s'.exchanges.Keys == s.exchanges.Keys + {id}
    ensures s'.exchanges[id] == Exchange(Sent, command, timeout, s.ticks, |s.posted|, |s.sent|)
    ensures s'.endpoint == Some(id) && s'.condition.None? && s'.response.None? && s'.ticks == s.ticks
    ensures s'.sent == s.sent + [id] && s'.posted == s.posted
  {
    hide Next, Run, DisciplinedRun;
    var s3 := TakeEndpoint(s, id, command, timeout);
    s' := ClearAndSend(s3, id);
    RunAppend(s, [Open(id, command, timeout), Begin(id), LockEndpoint(id)], [EnterClear(id), Clear(id), Send(id)]);
  }

  function ExpireSteps(id: nat): seq<Step> {
    [EnterWait(id), Check(id), Tick] + [Tick, Wake(id), CheckTicks(id)] + [Unwind(id)]
  }

  /** An exchange waits for a response while the ticks run. */
  lemma WaitOneTick(s: State, id: nat) returns (s': State)
    requires In(s, id, Sent) && s.condition.None? && s.response.None?
    ensures Run(s, [EnterWait(id), Check(id), Tick]) == Some(s') && DisciplinedRun(s, [EnterWait(id), Check(id), Tick])
    ensures s' == s.(exchanges := s'.exchanges, ticks := s.ticks + 1)
    ensures s'.exchanges == s.exchanges[id := s.exchanges[id].(phase := Waiting)]
  {
    hide Run, DisciplinedRun;
    var s1 := Move(s, id, Checking).(condition := Some(Client(id)));
    var s2 := Move(s1, id, Waiting).(condition := None);
    s' := s2.(ticks := s2.ticks + 1);
    ThreeSteps(s, EnterWait(id), Check(id), Tick, s1, s2, s');
  }

  lemma TickOnce(s: State) returns (s': State)
    ensures Next(s, Tick) == Some(s') && s' == s.(ticks := s.ticks + 1)
  {
    s' := s.(ticks := s.ticks + 1);
  }

  lemma WakeUp(s: State, id: nat) returns (s': State)
    requires In(s, id, Waiting) && s.condition.None?
    ensures Next(s, Wake(id)) == Some(s') && s' == s.(exchanges := s'.exchanges, condition := Some(Client(id)))
    ensures s'.exchanges.Keys == s.exchanges.Keys && s'.exchanges[id] == s.exchanges[id].(phase := Woken)
  {
    s' := Move(s, id, Woken).(condition := Some(Client(id)));
  }

  lemma RaiseTimeOut(s: State, id: nat) returns (s': State)
    requires In(s, id, Woken) && Expired(s, s.exchanges[id])
    ensures Next(s, CheckTicks(id)) == Some(s') && s' == s.(exchanges := s'.exchanges, condition := None)
    ensures s'.exchanges.Keys == s.exchanges.Keys && In(s', id, Raising)
  {
    s' := Move(s, id, Raising).(condition := None);
  }

  /** One with a time-out of one tick gives up after the second. */
  lemma GiveUp(s: State, id: nat) returns (s': State)
    requires In(s, id, Waiting) && s.exchanges[id].timeout == 1 && s.exchanges[id].start + 1 == s.ticks
    requires s.condition.None?
    ensures Run(s, [Tick, Wake(id), CheckTicks(id)]) == Some(s') && DisciplinedRun(s, [Tick, Wake(id), CheckTicks(id)])
    ensures In(s', id, Raising) && s'.exchanges.Keys == s.exchanges.Keys && s'.condition.None?
    ensures s'.sent == s.sent && s'.posted == s.posted
  {
    hide Run, DisciplinedRun, Next;
    var s1 := TickOnce(s);
    var s2 := WakeUp(s1, id);
    s' := RaiseTimeOut(s2, id);
    ThreeSteps(s, Tick, Wake(id), CheckTicks(id), s1, s2, s');
  }

  /** Then it releases the endpoint. */
  lemma Expire(s: State, id: nat) returns (s': State)
    requires In(s, id, Sent) && s.exchanges[id].timeout == 1 && s.exchanges[id].start == s.ticks
    requires s.condition.None? && s.response.None?
    ensures Run(s, ExpireSteps(id)) == Some(s') && DisciplinedRun(s, ExpireSteps(id))
    ensures s'.exchanges.Keys == s.exchanges.Keys && s'.endpoint.None? && s'.condition.None?
    ensures s'.sent == s.sent && s'.posted == s.posted
  {
    var s3 := WaitOneTick(s, id);
    var s6 := GiveUp(s3, id);
    s' := Move(s6, id, TimedOut).(endpoint := None);
    hide Run, DisciplinedRun;
    OneStep(s6, Unwind(id), s');
    hide Next;
    RunAppend(s, [EnterWait(id), Check(id), Tick], [Tick, Wake(id), CheckTicks(id)]);
    RunAppend(s, [EnterWait(id), Check(id), Tick] + [Tick, Wake(id), CheckTicks(id)], [Unwind(id)]);
  }

  /** After a time-out the next exchange may return the response to the command that timed out. */
  lemma LateResponse(first: seq<byte>, second: seq<byte>, data: seq<byte>) returns (steps: seq<Step>)
    ensures Run(START, steps).Some? && DisciplinedRun(START, steps)
    ensures var s := Run(START, steps).value;
      In(s, 1, Yielded(data)) && s.exchanges[1].rank == 1 && s.posted == [data]
  {
    hide Next, Run, DisciplinedRun;
    var s1 := Submit(START, 0, first, 1);
    var s2 := Expire(s1, 0);
    RunAppend(START, SubmitSteps(0, first, 1), ExpireSteps(0));
    var timedOut := SubmitSteps(0, first, 1) + ExpireSteps(0);
    var s3 := Submit(s2, 1, second, 0);
    RunAppend(START, timedOut, SubmitSteps(1, second, 0));
    var sent := timedOut + SubmitSteps(1, second, 0);
    var answer, s4 := Answer(s3, data);
    RunAppend(START, sent, answer);
    var fetch, s5 := Fetch(s4, 1);
    RunAppend(START, sent + answer, fetch);
    steps := sent + answer + fetch;
  }

  // ----- when an exchange gives up

  /** The ticks among the steps. */
  function Ticks(steps: seq<Step>): nat {
    if |steps| == 0 then 0 else Ticks(steps[..|steps| - 1]) + if steps[|steps| - 1].Tick? then 1 else 0
  }

  /** The exchange was opened with its command and time-out. */
  ghost predicate Opened(steps: seq<Step>, id: nat, e: Exchange) {
    exists j :: 0 <= j < |steps| && steps[j] == Open(id, e.command, e.timeout)
  }

  /** It read the tick count when it began. */
  ghost predicate Begun(steps: seq<Step>, id: nat, e: Exchange) {
    exists k :: 0 <= k < |steps| && steps[k] == Begin(id) && e.start == Ticks(steps[..k])
  }

  ghost predicate Timed(steps: seq<Step>, s: State, id: nat)
    requires id in s.exchanges
  {
    var e := s.exchanges[id];
    && Opened(steps, id, e) && (!e.phase.Idle? ==> Begun(steps, id, e))
    && (GaveUp(e.phase) ==> e.timeout != 0 && s.ticks - e.start > e.timeout)
  }

  lemma TicksGrow(s: State, step: Step)
    requires Next(s, step).Some?
    ensures Next(s, step).value.ticks == s.ticks + if step.Tick? then 1 else 0
  {
  }

  /** What a step does to the timing of an exchange. */
  lemma TimingOfStep(s: State, step: Step, id: nat)
    requires Next(s, step).Some? && id in Next(s, step).value.exchanges
    ensures var e' := Next(s, step).value.exchanges[id];
      if id !in s.exchanges then step == Open(id, e'.command, e'.timeout) && e'.phase.Idle?
      else
        var e := s.exchanges[id];
        && e'.command == e.command && e'.timeout == e.timeout
        && (if step == Begin(id) then e'.start == s.ticks
            else e'.start == e.start && (e'.phase.Idle? <==> e.phase.Idle?))
        && (GaveUp(e'.phase) ==> GaveUp(e.phase) || (e.timeout != 0 && s.ticks - e.start > e.timeout && step != Begin(id)))
        && (step == Begin(id) ==> !GaveUp(e'.phase))
  {
    if Mover(step) != Some(id) {
      OthersStay(s, step, id);
      hide Next;
    }
  }

  lemma {:induction false} TicksAreCounted(steps: seq<Step>)
    requires Run(START, steps).Some?
    ensures Run(START, steps).value.ticks == Ticks(steps)
    decreases |steps|
  {
    hide Next;
    if |steps| > 0 {
      var init := steps[..|steps| - 1];
      TicksAreCounted(init);
      TicksGrow(Run(START, init).value, steps[|steps| - 1]);
    }
  }

  lemma {:induction false} EveryRunIsTimed(steps: seq<Step>, id: nat)
    requires Run(START, steps).Some? && id in Run(START, steps).value.exchanges
    ensures Timed(steps, Run(START, steps).value, id)
    decreases |steps|
  {
    if |steps| > 0 {
      var n := |steps| - 1;
      var init := steps[..n];
      var s := Run(START, init).value;
      TimingOfStep(s, steps[n], id);
      TicksGrow(s, steps[n]);
      TicksAreCounted(init);
      hide Next;
      if id in s.exchanges {
        EveryRunIsTimed(init, id);
        TimedOnward(init, steps, s, Run(START, steps).value, id);
      } else {
        assert Opened(steps, id, Run(START, steps).value.exchanges[id]);
      }
    }
  }

  /** One more step. */
  lemma TimedOnward(init: seq<Step>, steps: seq<Step>, s: State, s': State, id: nat)
    requires |steps| > 0 && init == steps[..|steps| - 1] && s.ticks == Ticks(init) && s'.ticks >= s.ticks
    requires id in s.exchanges && id in s'.exchanges && Timed(init, s, id)
    requires var e, e' := s.exchanges[id], s'.exchanges[id];
      && e'.command == e.command && e'.timeout == e.timeout
      && (if steps[|steps| - 1] == Begin(id) then e'.start == s.ticks && !GaveUp(e'.phase)
          else e'.start == e.start && (e'.phase.Idle? <==> e.phase.Idle?))
      && (GaveUp(e'.phase) ==> GaveUp(e.phase) || (e.timeout != 0 && s.ticks - e.start > e.timeout))
    ensures Timed(steps, s', id)
  {
    var e, e' := s.exchanges[id], s'.exchanges[id];
    var j :| 0 <= j < |init| && init[j] == Open(id, e.command, e.timeout);
    assert steps[j] == Open(id, e'.command, e'.timeout);
    if steps[|steps| - 1] == Begin(id) {
      assert Begun(steps, id, e');
    } else if !e.phase.Idle? {
      var k :| 0 <= k < |init| && init[k] == Begin(id) && e.start == Ticks(init[..k]);
      assert init[..k] == steps[..k];
      assert steps[k] == Begin(id) && e'.start == Ticks(steps[..k]);
    }
  }

  /** In every run, an exchange that gives up was opened with a time-out, and more ticks than that have passed
      since it began. */
  lemma GivesUpLate(steps: seq<Step>, id: nat) returns (k: nat)
    requires Run(START, steps).Some? && id in Run(START, steps).value.exchanges
    requires var p := Run(START, steps).value.exchanges[id].phase; p.Raising? || p.TimedOut?
    ensures k < |steps| && steps[k] == Begin(id)
    ensures var e := Run(START, steps).value.exchanges[id];
      && (exists j :: 0 <= j < |steps| && steps[j] == Open(id, e.command, e.timeout))
      && e.timeout != 0 && Ticks(steps) - Ticks(steps[..k]) > e.timeout
  {
    EveryRunIsTimed(steps, id);
    TicksAreCounted(steps);
    hide Run;
    var e := Run(START, steps).value.exchanges[id];
    k :| 0 <= k < |steps| && steps[k] == Begin(id) && e.start == Ticks(steps[..k]);
  }

  /** An exchange that wakes up gives up exactly when it has a time-out and that is over. */
  lemma WokenGoesOn(s: State, id: nat)
    requires In(s, id, Woken)
    ensures Next(s, CheckTicks(id)).Some?
    ensures var e := s.exchanges[id];
      In(Next(s, CheckTicks(id)).value, id,
         if e.timeout != 0 && s.ticks - e.start > e.timeout then Raising else Checking)
  {
  }

  /** Otherwise it yields a response that is there. */
  lemma WokenYields(s: State, id: nat) returns (s': State)
    requires In(s, id, Woken) && s.response.Some?
    requires s.exchanges[id].timeout == 0 || s.ticks - s.exchanges[id].start <= s.exchanges[id].timeout
    ensures Run(s, [CheckTicks(id), Check(id), Yield(id)]) == Some(s')
    ensures DisciplinedRun(s, [CheckTicks(id), Check(id), Yield(id)])
    ensures In(s', id, Yielded(s.response.value))
  {
    hide Run, DisciplinedRun;
    var s1 := Move(s, id, Checking);
    var s2 := Move(s1, id, Ready).(condition := None);
    s' := Move(s2, id, Yielded(s.response.value));
    ThreeSteps(s, CheckTicks(id), Check(id), Yield(id), s1, s2, s');
  }

  // ----- no deadlock

  /** The slot was cleared before the command was sent. */
  ghost predicate MarksInv(s: State) {
    forall id :: id in s.exchanges && AfterSend(s.exchanges[id].phase) ==> s.exchanges[id].mark <= s.exchanges[id].rank
  }

  lemma MarkStays(s: State, step: Step, id: nat)
    requires Inv(s) && OrderInv(s) && MarksInv(s) && Next(s, step).Some? && id in Next(s, step).value.exchanges
    requires AfterSend(Next(s, step).value.exchanges[id].phase)
    ensures Next(s, step).value.exchanges[id].mark <= Next(s, step).value.exchanges[id].rank
  {
    if Mover(step) != Some(id) {
      OthersStay(s, step, id);
      hide Next;
    } else if step.Send? {
      assert SlotFresh(s, s.exchanges[id]);
      hide Inv, OrderInvOn;
    } else {
      hide Inv, OrderInv;
    }
  }

  lemma {:induction false} RunKeepsMarks(s: State, steps: seq<Step>)
    requires Inv(s) && OrderInv(s) && MarksInv(s) && Run(s, steps).Some? && DisciplinedRun(s, steps)
    ensures MarksInv(Run(s, steps).value)
    decreases |steps|
  {
    hide Next, Inv, OrderInv;
    if |steps| > 0 {
      var init := steps[..|steps| - 1];
      RunKeepsMarks(s, init);
      RunKeepsInv(s, init);
      RunKeepsOrder(s, init);
      var s' := Run(s, steps).value;
      forall id | id in s'.exchanges && AfterSend(s'.exchanges[id].phase)
        ensures s'.exchanges[id].mark <= s'.exchanges[id].rank
      {
        MarkStays(Run(s, init).value, steps[|steps| - 1], id);
      }
    }
  }

  predicate CallbackWaits(s: State) {
    s.condition.Some? && s.condition.value.Callback?
  }

  /** What the thread that is in the way does next. */
  function NextStep(s: State): Step
    requires s.endpoint.Some? && s.endpoint.value in s.exchanges
  {
    var id := s.endpoint.value;
    if CallbackWaits(s) then Store
    else
      match s.exchanges[id].phase
      case Locked => EnterClear(id)
      case Clearing => Clear(id)
      case Cleared => Send(id)
      case Sent => EnterWait(id)
      case Checking => Check(id)
      case Waiting => if s.response.None? then Arrive([]) else Wake(id)
      case Woken => CheckTicks(id)
      case Ready => Yield(id)
      case Yielded(_) => Finish(id)
      case _ => Unwind(id)
  }

  /** How far the owner of the endpoint is from leaving, when a response is there or on its way, or not. */
  function PhasesLeft(p: Phase, answered: bool): nat {
    match p
    case Locked => 13
    case Clearing => 12
    case Cleared => 11
    case Sent => 10
    case Woken => if answered then 5 else 9
    case Checking => if answered then 4 else 8
    case Waiting => if answered then 6 else 7
    case Ready => 3
    case Yielded(_) => 2
    case Raising => 1
    case _ => 0
  }

  function Left(s: State): nat
    requires s.endpoint.Some? && s.endpoint.value in s.exchanges
  {
    2 * PhasesLeft(s.exchanges[s.endpoint.value].phase, s.response.Some? || CallbackWaits(s))
      + if CallbackWaits(s) then 1 else 0
  }

  predicate Ended(p: Phase) {
    p.Done? || p.TimedOut?
  }

  /** Only the owner or the callback can hold the condition. */
  lemma HolderIsOwner(s: State)
    requires LocksAgree(s) && s.condition.Some? && s.condition.value.Client?
    ensures s.endpoint == Some(s.condition.value.id) && s.condition.value.id in s.exchanges
    ensures HoldsCondition(s.exchanges[s.condition.value.id].phase)
  {
    assert LocksAgreeOn(s, s.condition.value.id);
  }

  /** The next step is possible, and the app may take it. */
  lemma NextStepIsPossible(s: State)
    requires Inv(s) && OrderInv(s) && MarksInv(s) && s.endpoint.Some? && s.endpoint.value in s.exchanges
    ensures Next(s, NextStep(s)).Some? && Disciplined(s, NextStep(s))
  {
    var id := s.endpoint.value;
    var e := s.exchanges[id];
    assert LocksAgreeOn(s, id) && RankIsLast(s, e);
    assert AfterClear(e.phase) ==> SlotFresh(s, e);
    if s.condition.Some? && s.condition.value.Client? {
      HolderIsOwner(s);
    }
    hide Inv, OrderInv;
  }

  /** It brings the owner nearer to leaving. */
  lemma NextStepIsNearer(s: State)
    requires LocksAgree(s) && s.endpoint.Some? && s.endpoint.value in s.exchanges && Next(s, NextStep(s)).Some?
    ensures var s' := Next(s, NextStep(s)).value; var id := s.endpoint.value;
      && id in s'.exchanges
      && ((s'.endpoint == s.endpoint && Left(s') < Left(s))
          || (s'.endpoint.None? && Ended(s'.exchanges[id].phase)))
  {
    assert LocksAgreeOn(s, s.endpoint.value);
    hide LocksAgree;
  }

  /** It moves no other exchange. */
  lemma OnlyOwnerMoves(s: State, id: nat)
    requires s.endpoint.Some? && s.endpoint.value in s.exchanges && Next(s, NextStep(s)).Some?
    requires id in s.exchanges && s.endpoint != Some(id)
    ensures id in Next(s, NextStep(s)).value.exchanges && Next(s, NextStep(s)).value.exchanges[id] == s.exchanges[id]
  {
    assert Mover(NextStep(s)) != Some(id);
    OthersStay(s, NextStep(s), id);
    hide Next;
  }

  /** With a free endpoint, only a callback can still be under way. */
  lemma Holders(s: State)
    requires LocksAgree(s)
    ensures s.endpoint.Some? ==> s.endpoint.value in s.exchanges
    ensures s.endpoint.None? && s.condition.Some? ==> CallbackWaits(s)
  {
    if s.condition.Some? && s.condition.value.Client? {
      HolderIsOwner(s);
    }
  }

  lemma FinishCallback(s: State) returns (s': State)
    requires CallbackWaits(s)
    ensures Run(s, [Store]) == Some(s') && DisciplinedRun(s, [Store])
    ensures s'.endpoint == s.endpoint && s'.condition.None? && s'.exchanges == s.exchanges
  {
    hide Run, DisciplinedRun;
    s' := Next(s, Store).value;
    OneStep(s, Store, s');
  }

  /** From every state of a disciplined run the locks can be freed by a disciplined continuation: the owner of
      the endpoint comes to an end, and no other exchange is moved. */
  lemma {:induction false} Leave(s: State) returns (steps: seq<Step>, s': State)
    requires Inv(s) && OrderInv(s) && MarksInv(s)
    ensures Run(s, steps) == Some(s') && DisciplinedRun(s, steps)
    ensures s'.endpoint.None? && s'.condition.None?
    ensures s.endpoint.Some? ==> s.endpoint.value in s'.exchanges && Ended(s'.exchanges[s.endpoint.value].phase)
    ensures forall id :: id in s.exchanges && s.endpoint != Some(id) ==>
      id in s'.exchanges && s'.exchanges[id] == s.exchanges[id]
    decreases if s.endpoint.Some? && s.endpoint.value in s.exchanges then 1 + Left(s) else 0
  {
    hide Run, DisciplinedRun, LocksAgree, OrderInv, MarksInv, Left, Next;
    RunNone(s);
    Holders(s);
    if s.endpoint.None? {
      steps, s' := [], s;
      if CallbackWaits(s) {
        s' := FinishCallback(s);
        steps := [Store];
      }
    } else {
      var step, id := NextStep(s), s.endpoint.value;
      NextStepIsPossible(s);
      NextStepIsNearer(s);
      forall other | other in s.exchanges && other != id
        ensures other in Next(s, step).value.exchanges && Next(s, step).value.exchanges[other] == s.exchanges[other]
      {
        OnlyOwnerMoves(s, other);
      }
      var s1 := Next(s, step).value;
      OneStep(s, step, s1);
      RunKeepsInv(s, [step]);
      RunKeepsOrder(s, [step]);
      RunKeepsMarks(s, [step]);
      hide Inv, NextStep, CallbackWaits, Disciplined;
      var more;
      more, s' := Leave(s1);
      RunAppend(s, [step], more);
      steps := [step] + more;
    }
  }

  /** No deadlock: after every disciplined run from the start, every exchange that waits for the endpoint can still
      be brought to its end, with a value or by giving up, and with a value if it has no time-out. */
  lemma EveryExchangeCanEnd(steps: seq<Step>, id: nat) returns (more: seq<Step>)
    requires Run(START, steps).Some? && DisciplinedRun(START, steps) && In(Run(START, steps).value, id, Queued)
    ensures Run(START, steps + more).Some? && DisciplinedRun(START, steps + more)
    ensures var s := Run(START, steps + more).value;
      && id in s.exchanges && Ended(s.exchanges[id].phase)
      && (s.exchanges[id].timeout == 0 ==> s.exchanges[id].phase.Done?)
  {
    var s := Run(START, steps).value;
    RunKeepsInv(START, steps);
    RunKeepsOrder(START, steps);
    RunKeepsMarks(START, steps);
    assert LocksAgreeOn(s, id);
    assert s.endpoint != Some(id);
    hide Run, DisciplinedRun, Inv, OrderInv, MarksInv, LocksAgreeOn;
    var first, s1 := Leave(s);
    var s2 := TakeTurn(s1, id);
    RunAppend(s, first, [LockEndpoint(id)]);
    var turn := first + [LockEndpoint(id)];
    RunKeepsInv(s, turn);
    RunKeepsOrder(s, turn);
    RunKeepsMarks(s, turn);
    var last, s3 := Leave(s2);
    RunAppend(s, turn, last);
    more := turn + last;
    RunAppend(START, steps, more);
    EveryRunIsTimed(steps + more, id);
    hide Opened, Begun;
  }

  lemma TakeTurn(s: State, id: nat) returns (s': State)
    requires In(s, id, Queued) && s.endpoint.None?
    ensures Run(s, [LockEndpoint(id)]) == Some(s') && DisciplinedRun(s, [LockEndpoint(id)])
    ensures s'.endpoint == Some(id)
  {
    hide Run, DisciplinedRun;
    s' := Move(s, id, Locked).(endpoint := Some(id));
    OneStep(s, LockEndpoint(id), s');
  }
}
