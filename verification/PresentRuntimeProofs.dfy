/**
 What every run of presentation steps keeps: queue, flight and registry agree; feedback follows the
 order of acceptance; and each accepted presentation is settled at most once, by shutdown exactly once.
 */
module PresentRuntimeProofs {
  import opened Basics
  import opened PresentationModel
  import opened PresentRuntimeModel

  // ---------------------------------------------------------------- agreement

  /**
   The registry's presentations are exactly the lost ones, the one in flight and the queued ones, all
   different; those in state Submitted are exactly the lost ones and the one in flight.
   */
  ghost predicate AgreeOn(r: Registry, launched: seq<Tx>, queue: seq<Tx>) {
    && Inv(r)
    && Distinct(launched + queue)
    && (forall t :: t in r.presentations <==> t in launched || t in queue)
    && (forall t :: t in r.presentations ==> (r.presentations[t].state == Submitted <==> t in launched))
  }

  lemma AdmitAgrees(r: Registry, launched: seq<Tx>, queue: seq<Tx>, x: Submission)
    requires AgreeOn(r, launched, queue)
    requires Begin(r, x.transaction, x.buffer, x.acquire, x.idle, x.oracle).Ok?
    ensures AgreeOn(Begin(r, x.transaction, x.buffer, x.acquire, x.idle, x.oracle).value, launched, queue + [x.transaction])
  {
    hide Inv;
    BeginEffect(r, x.transaction, x.buffer, x.acquire, x.idle, x.oracle);
    BeginKeepsInv(r, x.transaction, x.buffer, x.acquire, x.idle, x.oracle);
    DistinctParts(launched, queue);
    DistinctParts(queue, [x.transaction]);
    DistinctParts(launched, queue + [x.transaction]);
  }

  lemma PollAgrees(r: Registry, launched: seq<Tx>, queue: seq<Tx>, t: Tx, query: Option<bool>)
    requires AgreeOn(r, launched, queue) && t in queue
    ensures AgreeOn(Poll(r, t, query).0, launched, queue)
    ensures Poll(r, t, query).1 == Ok(true) ==> Poll(r, t, query).0.presentations[t].state == Ready
  {
    PollKeepsInv(r, t, query);
    assert PresentOk(r, r.presentations[t]);
    DistinctParts(launched, queue);
    PollEffect(r, t, query);
  }

  lemma DistinctTail(a: seq<Tx>, b: seq<Tx>)
    requires Distinct(a + b) && b != []
    ensures Distinct(a + b[1..]) && b[0] !in a && b[0] !in b[1..]
    ensures forall t :: t in b <==> t == b[0] || t in b[1..]
  {
    DistinctParts(a, b);
    DistinctParts(a, b[1..]);
  }

  lemma RejectHeadAgrees(r: Registry, launched: seq<Tx>, queue: seq<Tx>, triggers: bool)
    requires AgreeOn(r, launched, queue) && queue != []
    ensures FinishPresent(r, queue[0], triggers).Finished?
    ensures AgreeOn(FinishPresent(r, queue[0], triggers).registry, launched, queue[1..])
  {
    hide Inv, FinishPresent;
    FinishKeepsInv(r, queue[0], triggers);
    DistinctTail(launched, queue);
  }

  lemma LaunchAgrees(r: Registry, launched: seq<Tx>, queue: seq<Tx>)
    requires AgreeOn(r, launched, queue) && queue != [] && r.presentations[queue[0]].state == Ready
    ensures Submit(r, queue[0]).Ok?
    ensures AgreeOn(Submit(r, queue[0]).value, launched + [queue[0]], queue[1..])
  {
    hide Inv;
    SubmitEffect(r, queue[0]);
    assert queue == [queue[0]] + queue[1..];
    assert launched + queue == (launched + [queue[0]]) + queue[1..];
    DistinctParts(queue[..1], queue[1..]);
    DistinctParts(launched, queue);
  }

  lemma RetireFlightAgrees(r: Registry, lost: seq<Tx>, t: Tx, queue: seq<Tx>, triggers: bool)
    requires AgreeOn(r, lost + [t], queue)
    ensures Retires(r, t, true)
    ensures FinishPresent(r, t, triggers).Finished?
    ensures AgreeOn(FinishPresent(r, t, triggers).registry, lost, queue)
  {
    hide Inv, FinishPresent;
    FinishKeepsInv(r, t, triggers);
    DistinctParts(lost + [t], queue);
    DistinctParts(lost, [t]);
    DistinctParts(lost, queue);
  }

  /** Registering or releasing resources leaves the presentations alone. */
  lemma ResourceStepAgrees(r: Registry, r': Registry, launched: seq<Tx>, queue: seq<Tx>)
    requires AgreeOn(r, launched, queue) && Inv(r') && r'.presentations == r.presentations
    ensures AgreeOn(r', launched, queue)
  {
  }

  // ---------------------------------------------------------------- history

  /** The lost presentations that are still registered: those since the export diagnostic emptied the registry. */
  function LostTxs(settled: seq<Settlement>): seq<Tx> {
    if settled == [] then []
    else
      var last := settled[|settled| - 1];
      if last.Discarded? then []
      else LostTxs(settled[..|settled| - 1]) + (if last.Lost? then [last.transaction] else [])
  }

  /** All presentations that were settled without feedback. */
  function UnfedTxs(settled: seq<Settlement>): seq<Tx> {
    if settled == [] then []
    else
      var last := settled[|settled| - 1];
      UnfedTxs(settled[..|settled| - 1]) + (if last.Fed? then [] else [last.transaction])
  }

  function SettledTxs(settled: seq<Settlement>): seq<Tx> {
    seq(|settled|, i requires 0 <= i < |settled| => settled[i].transaction)
  }

  /** The feedback the settled presentations produced, in order. */
  function FedOutcomes(settled: seq<Settlement>): seq<FeedbackOutcome> {
    if settled == [] then []
    else
      var last := settled[|settled| - 1];
      FedOutcomes(settled[..|settled| - 1]) + (if last.Fed? then [last.outcome] else [])
  }

  lemma SettledSnoc(settled: seq<Settlement>, x: Settlement)
    ensures LostTxs(settled + [x]) ==
      if x.Discarded? then [] else LostTxs(settled) + (if x.Lost? then [x.transaction] else [])
    ensures UnfedTxs(settled + [x]) == UnfedTxs(settled) + (if x.Fed? then [] else [x.transaction])
    ensures FedOutcomes(settled + [x]) == FedOutcomes(settled) + (if x.Fed? then [x.outcome] else [])
    ensures SettledTxs(settled + [x]) == SettledTxs(settled) + [x.transaction]
  {
    assert (settled + [x])[..|settled|] == settled;
  }

  /** A Fed entry's feedback is its own Complete-then-Idle pair, in its mode; a skip has no presentation time. */
  ghost predicate PairOk(x: Settlement) {
    x.Fed? ==>
      && |x.outcome.feedback| == 2
      && x.outcome.feedback[0].Complete?
      && x.outcome.feedback[0].transaction == x.transaction
      && x.outcome.feedback[0].mode == x.mode
      && (x.mode == Skip ==> x.outcome.feedback[0].ust == 0 && x.outcome.feedback[0].msc == 0)
      && x.outcome.feedback[1] == IdleNotify(x.transaction)
  }

  ghost function Launched(rt: Runtime): seq<Tx> {
    LostTxs(rt.settled) + InFlight(rt.scheduler)
  }

  ghost predicate Agree(rt: Runtime) {
    AgreeOn(rt.registry, Launched(rt), Txs(rt.scheduler.queued))
  }

  /** The sink received exactly the feedback of the settled presentations. */
  ghost predicate SinkFaithful(rt: Runtime) {
    && rt.sink == FedOutcomes(rt.settled)
    && forall x :: x in rt.settled ==> PairOk(x)
  }

  /** First accepted, first settled: the flight and then the queue are what is left, in order. */
  ghost predicate InOrder(rt: Runtime) {
    rt.accepted == SettledTxs(rt.settled) + InFlight(rt.scheduler) + Txs(rt.scheduler.queued)
  }

  ghost predicate DeadlinesOk(s: Scheduler) {
    forall x :: x in s.queued ==> x.notBefore + 100 <= x.deadline <= x.notBefore + 2000
  }

  ghost predicate RuntimeOk(rt: Runtime) {
    Agree(rt) && SinkFaithful(rt) && InOrder(rt) && DeadlinesOk(rt.scheduler)
  }

  // ---------------------------------------------------------------- steps keep it

  lemma TxsTail(queue: seq<Queued>)
    requires queue != []
    ensures Txs(queue[1..]) == Txs(queue)[1..] && Txs(queue)[0] == queue[0].transaction
  {
  }

  lemma TxsSnoc(queue: seq<Queued>, x: Queued)
    ensures Txs(queue + [x]) == Txs(queue) + [x.transaction]
  {
  }

  /** `popped` is `rt` with the head of its queue taken off and only counters changed beside. */
  ghost predicate HeadPopped(rt: Runtime, popped: Runtime) {
    && rt.scheduler.queued != [] && rt.scheduler.submitted.None?
    && popped.registry == rt.registry && popped.sink == rt.sink
    && popped.settled == rt.settled && popped.accepted == rt.accepted
    && popped.scheduler.queued == rt.scheduler.queued[1..]
    && popped.scheduler.submitted.None?
  }

  lemma RejectHeadAgree(rt: Runtime, popped: Runtime, triggers: bool)
    requires Agree(rt) && HeadPopped(rt, popped)
    ensures Agree(RejectGpu(popped, rt.scheduler.queued[0].transaction, triggers))
    ensures Retires(rt.registry, rt.scheduler.queued[0].transaction, false)
    ensures FinishPresent(rt.registry, rt.scheduler.queued[0].transaction, triggers).Finished?
  {
    hide AgreeOn, FinishPresent;
    TxsTail(rt.scheduler.queued);
    HeadIsRegistered(rt);
    RejectHeadAgrees(rt.registry, Launched(rt), Txs(rt.scheduler.queued), triggers);
    var after := RejectGpu(popped, rt.scheduler.queued[0].transaction, triggers);
    SettledSnoc(rt.settled, after.settled[|rt.settled|]);
    assert Launched(after) == Launched(rt);
  }

  /** Settling `t` as the next in order. */
  lemma SettleHistory(rt: Runtime, t: Tx, ust: nat, msc: nat, mode: Mode, triggers: bool, rest: seq<Tx>)
    requires SinkFaithful(rt)
    requires rt.accepted == SettledTxs(rt.settled) + [t] + rest
    requires Retires(rt.registry, t, mode == Flip) && FinishPresent(rt.registry, t, triggers).Finished?
    requires mode == Skip ==> ust == 0 && msc == 0
    ensures var after := Settle(rt, t, ust, msc, mode, triggers);
      && SinkFaithful(after)
      && after.accepted == SettledTxs(after.settled) + rest
  {
    hide FinishPresent, Retires, FedOutcomes, SettledTxs;
    var outcome := FeedbackPair(t, ust, msc, mode, FinishPresent(rt.registry, t, triggers).retirement.idleFence == Triggered);
    var x := Fed(t, mode, outcome);
    var after := Settle(rt, t, ust, msc, mode, triggers);
    assert after.settled == rt.settled + [x] && after.sink == rt.sink + [outcome] && after.accepted == rt.accepted;
    SettledSnoc(rt.settled, x);
    assert PairOk(x);
    assert forall y :: y in after.settled ==> y in rt.settled || y == x;
    assert rt.accepted == (SettledTxs(rt.settled) + [t]) + rest;
  }

  lemma RejectHeadOk(rt: Runtime, popped: Runtime, triggers: bool)
    requires RuntimeOk(rt) && HeadPopped(rt, popped)
    ensures RuntimeOk(RejectGpu(popped, rt.scheduler.queued[0].transaction, triggers))
  {
    hide Agree, FinishPresent, Retires;
    var t := rt.scheduler.queued[0].transaction;
    RejectHeadAgree(rt, popped, triggers);
    TxsTail(rt.scheduler.queued);
    assert rt.accepted == SettledTxs(rt.settled) + [t] + Txs(rt.scheduler.queued[1..]);
    SettleHistory(popped, t, 0, 0, Skip, triggers, Txs(rt.scheduler.queued[1..]));
  }

  lemma HeadIsRegistered(rt: Runtime)
    requires Agree(rt) && rt.scheduler.queued != []
    ensures rt.scheduler.queued[0].transaction in rt.registry.presentations
    ensures rt.scheduler.queued[0].transaction in Txs(rt.scheduler.queued)
  {
    assert Txs(rt.scheduler.queued)[0] == rt.scheduler.queued[0].transaction;
  }

  lemma {:induction false} EnqueueBatchOk(rt: Runtime, batch: seq<Submission>, transactions: seq<SurfaceTransaction>, now: Millis)
    requires RuntimeOk(rt)
    ensures RuntimeOk(EnqueueBatch(rt, batch, transactions, now))
    decreases |batch|
  {
    hide AgreeOn, Begin;
    if batch != [] {
      var x := batch[0];
      var found := FindSurface(transactions, x.surface);
      var admitted := Begin(rt.registry, x.transaction, x.buffer, x.acquire, x.idle, x.oracle);
      if found.Some? && admitted.Ok? {
        AdmitAgrees(rt.registry, Launched(rt), Txs(rt.scheduler.queued), x);
        var scheduler := Accept(rt.scheduler, x, found.value.timeoutMsec, now);
        var rt' := rt.(registry := admitted.value, scheduler := scheduler, accepted := rt.accepted + [x.transaction]);
        TxsSnoc(rt.scheduler.queued, scheduler.queued[|rt.scheduler.queued|]);
        assert RuntimeOk(rt');
        EnqueueBatchOk(rt', batch[1..], transactions, now);
      }
    }
  }

  /** A poll's own effect on the runtime: the gate's decision aside, only the front's readiness and counters. */
  lemma PollGateOk(rt: Runtime, now: Millis, query: Option<bool>)
    requires RuntimeOk(rt)
    ensures var (registry, scheduler, gate) := PollGate(rt.registry, rt.scheduler, now, query);
      && RuntimeOk(rt.(registry := registry, scheduler := scheduler.(queued := rt.scheduler.queued)))
      && scheduler.submitted == rt.scheduler.submitted
      && scheduler.queued == (if gate.Ok? && gate.value.RejectNow? then rt.scheduler.queued[1..] else rt.scheduler.queued)
      && (gate.Ok? && (gate.value.RejectNow? || gate.value.ReadyNow?) ==>
            && rt.scheduler.queued != [] && rt.scheduler.submitted.None?
            && gate.value.transaction == rt.scheduler.queued[0].transaction)
      && (gate.Ok? && gate.value.ReadyNow? ==>
            && gate.value.transaction in registry.presentations
            && registry.presentations[gate.value.transaction].state == Ready)
  {
    hide AgreeOn, Poll;
    if rt.scheduler.submitted.None? && rt.scheduler.queued != [] {
      var t := rt.scheduler.queued[0].transaction;
      HeadIsRegistered(rt);
      PollAgrees(rt.registry, Launched(rt), Txs(rt.scheduler.queued), t, query);
    }
  }

  /** `rt`'s ready head in flight: what a successful submission leaves. */
  lemma LaunchOk(rt: Runtime, after: Runtime)
    requires RuntimeOk(rt) && rt.scheduler.queued != [] && rt.scheduler.submitted.None?
    requires var t := rt.scheduler.queued[0].transaction;
      && t in rt.registry.presentations && rt.registry.presentations[t].state == Ready
      && Submit(rt.registry, t).Ok?
      && after == rt.(
           registry := Submit(rt.registry, t).value,
           scheduler := rt.scheduler.(
             queued := rt.scheduler.queued[1..],
             submitted := Some(Flight(t, rt.scheduler.queued[0].surface))))
    ensures RuntimeOk(after)
  {
    hide AgreeOn, Submit;
    var t := rt.scheduler.queued[0].transaction;
    TxsTail(rt.scheduler.queued);
    LaunchAgrees(rt.registry, Launched(rt), Txs(rt.scheduler.queued));
    assert Launched(after) == Launched(rt) + [t];
    HeadToFlight(SettledTxs(rt.settled), Txs(rt.scheduler.queued));
  }

  lemma HeadToFlight(settled: seq<Tx>, queue: seq<Tx>)
    requires queue != []
    ensures settled + [] + queue == settled + [queue[0]] + queue[1..]
  {
  }

  /** The ready front `t` is fit to present, and diverted to the export diagnostic. */
  predicate Diverts(rt: Runtime, t: Tx, i: DriveInput) {
    && i.native && i.prepared && i.outputsAgree && !i.outputBlocked
    && FrameBuilds(rt.registry, t, i.planesClone)
    && rt.scheduler.diagnose
  }

  lemma DiagnoseEffect(rt: Runtime, i: DriveInput)
    requires Agree(rt) && rt.scheduler.queued != []
    ensures var t := rt.scheduler.queued[0].transaction;
      Diagnose(rt, t, i) == rt.(
        registry := Empty(Diagnose(rt, t, i).registry.limits),
        scheduler := rt.scheduler.(diagnose := false, queued := rt.scheduler.queued[1..]),
        settled := rt.settled + [Discarded(t)])
  {
    hide Inv, FinishPresent, Disconnect;
    var t := rt.scheduler.queued[0].transaction;
    HeadFinishes(rt, i.triggers);
    DisconnectEmpties(FinishPresent(rt.registry, t, i.triggers).registry, i.failing);
  }

  /** The export diagnostic empties the registry, and so keeps the agreement only with a queue of one. */
  lemma DiagnoseOkIff(rt: Runtime, i: DriveInput)
    requires RuntimeOk(rt) && rt.scheduler.queued != [] && rt.scheduler.submitted.None?
    ensures var t := rt.scheduler.queued[0].transaction;
      var after := Diagnose(rt, t, i);
      && after.registry == Empty(after.registry.limits)
      && after.settled == rt.settled + [Discarded(t)]
      && (RuntimeOk(after) <==> |rt.scheduler.queued| == 1)
      && (Agree(after) <==> |rt.scheduler.queued| == 1)
  {
    hide AgreeOn, Diagnose, LostTxs, FedOutcomes, SettledTxs, PairOk;
    var t := rt.scheduler.queued[0].transaction;
    DiagnoseEffect(rt, i);
    var after := Diagnose(rt, t, i);
    TxsTail(rt.scheduler.queued);
    SettledSnoc(rt.settled, Discarded(t));
    EmptyAgreesIff(after.registry, Txs(after.scheduler.queued));
    assert Launched(after) == [];
    if |rt.scheduler.queued| == 1 {
      DiscardedHasNoPair(t);
      assert after.accepted == SettledTxs(after.settled) + InFlight(after.scheduler) + Txs(after.scheduler.queued);
    }
  }

  lemma DiscardedHasNoPair(t: Tx)
    ensures PairOk(Discarded(t))
  {
  }

  lemma HeadFinishes(rt: Runtime, triggers: bool)
    requires Agree(rt) && rt.scheduler.queued != []
    ensures var x := FinishPresent(rt.registry, rt.scheduler.queued[0].transaction, triggers);
      x.Finished? && Inv(x.registry)
  {
    hide FinishPresent;
    HeadIsRegistered(rt);
    FinishKeepsInv(rt.registry, rt.scheduler.queued[0].transaction, triggers);
  }

  lemma EmptyAgreesIff(r: Registry, queue: seq<Tx>)
    requires r == Empty(r.limits)
    ensures AgreeOn(r, [], queue) <==> queue == []
  {
    assert Inv(r);
    if queue != [] {
      assert queue[0] in queue;
    }
  }

  lemma PresentFrontOkIff(rt: Runtime, i: DriveInput)
    requires RuntimeOk(rt) && rt.scheduler.queued != [] && rt.scheduler.submitted.None?
    requires var t := rt.scheduler.queued[0].transaction;
      t in rt.registry.presentations && rt.registry.presentations[t].state == Ready
    ensures var t := rt.scheduler.queued[0].transaction;
      var after := PresentFront(rt, t, i);
      && (RuntimeOk(after) <==> !(Diverts(rt, t, i) && |rt.scheduler.queued| > 1))
      && (Agree(after) <==> !(Diverts(rt, t, i) && |rt.scheduler.queued| > 1))
  {
    hide RuntimeOk, Agree, Submit, RejectGpu, FrameBuilds, Diagnose;
    var t := rt.scheduler.queued[0].transaction;
    OkAgrees(PresentFront(rt, t, i));
    DiagnoseOkIff(rt, i);
    RejectHeadOk(rt, PopFront(rt), i.triggers);
    if Submit(rt.registry, t).Ok? {
      LaunchOk(rt, rt.(
           registry := Submit(rt.registry, t).value,
           scheduler := rt.scheduler.(
             queued := rt.scheduler.queued[1..],
             submitted := Some(Flight(t, rt.scheduler.queued[0].surface)))));
    }
  }

  lemma OkAgrees(rt: Runtime)
    ensures RuntimeOk(rt) ==> Agree(rt)
  {
  }

  /** The drive whose front is ready, fit to present, and diverted to the export diagnostic. */
  predicate Diagnoses(rt: Runtime, i: DriveInput) {
    var (registry, scheduler, gate) := PollGate(rt.registry, rt.scheduler, i.now, i.query);
    gate.Ok? && gate.value.ReadyNow? && Diverts(rt.(registry := registry, scheduler := scheduler), gate.value.transaction, i)
  }

  /** A drive keeps everything in agreement exactly when it does not divert a front that others queue behind. */
  lemma DriveOkIff(rt: Runtime, i: DriveInput)
    requires RuntimeOk(rt)
    ensures RuntimeOk(Drive(rt, i)) <==> !(Diagnoses(rt, i) && |rt.scheduler.queued| > 1)
    ensures Agree(Drive(rt, i)) <==> !(Diagnoses(rt, i) && |rt.scheduler.queued| > 1)
  {
    hide RuntimeOk, Agree, PollGate, PresentFront, RejectGpu, Diverts;
    OkAgrees(Drive(rt, i));
    PollGateOk(rt, i.now, i.query);
    var (registry, scheduler, gate) := PollGate(rt.registry, rt.scheduler, i.now, i.query);
    var polled := rt.(registry := registry, scheduler := scheduler);
    var unpopped := polled.(scheduler := scheduler.(queued := rt.scheduler.queued));
    if gate.Ok? && gate.value.RejectNow? {
      RejectHeadOk(unpopped, polled, i.triggers);
    } else {
      assert unpopped == polled;
      if gate.Ok? && gate.value.ReadyNow? {
        PresentFrontOkIff(polled, i);
      }
    }
  }

  lemma FinalizeFlipOk(rt: Runtime, ust: nat, msc: nat, commits: bool, triggers: bool)
    requires RuntimeOk(rt)
    ensures RuntimeOk(FinalizeFlip(rt, ust, msc, commits, triggers))
  {
    hide RuntimeOk, Settle;
    if rt.scheduler.submitted.Some? {
      if commits {
        FlipOk(rt, ust, msc, triggers);
      } else {
        DropOk(rt);
      }
    }
  }

  lemma FlipOk(rt: Runtime, ust: nat, msc: nat, triggers: bool)
    requires RuntimeOk(rt) && rt.scheduler.submitted.Some?
    ensures RuntimeOk(Settle(rt.(scheduler := rt.scheduler.(submitted := None)),
                             rt.scheduler.submitted.value.transaction, ust, msc, Flip, triggers))
  {
    hide AgreeOn, FinishPresent, Retires, LostTxs, FedOutcomes, SettledTxs, PairOk;
    var t := rt.scheduler.submitted.value.transaction;
    var queue := Txs(rt.scheduler.queued);
    var taken := rt.(scheduler := rt.scheduler.(submitted := None));
    var after := Settle(taken, t, ust, msc, Flip, triggers);
    RetireFlightAgrees(rt.registry, LostTxs(rt.settled), t, queue, triggers);
    SettleHistory(taken, t, ust, msc, Flip, triggers, queue);
    SettledSnoc(rt.settled, after.settled[|rt.settled|]);
    assert Launched(after) == LostTxs(rt.settled);
  }

  lemma DropOk(rt: Runtime)
    requires RuntimeOk(rt) && rt.scheduler.submitted.Some?
    ensures RuntimeOk(rt.(scheduler := rt.scheduler.(submitted := None),
                          settled := rt.settled + [Lost(rt.scheduler.submitted.value.transaction)]))
  {
    hide AgreeOn, LostTxs, FedOutcomes, SettledTxs;
    var t := rt.scheduler.submitted.value.transaction;
    SettledSnoc(rt.settled, Lost(t));
    var after := rt.(scheduler := rt.scheduler.(submitted := None), settled := rt.settled + [Lost(t)]);
    assert Launched(after) == Launched(rt);
    assert after.accepted == SettledTxs(after.settled) + InFlight(after.scheduler) + Txs(after.scheduler.queued);
  }

  // ---------------------------------------------------------------- runs

  datatype Op =
    | OpResource(op: PresentationModel.Op)
    | OpEnqueue(batch: seq<Submission>, transactions: seq<SurfaceTransaction>, now: Millis)
    | OpDrive(input: DriveInput)
    | OpFlip(ust: nat, msc: nat, commits: bool, triggers: bool)

  /** Resource traffic a client causes directly: registrations and releases, no presentation steps. */
  predicate IsResourceOp(op: PresentationModel.Op) {
    op.OpRegisterSource? || op.OpRegisterFence? || op.OpRemoveSource? || op.OpRemoveFence?
  }

  function ResourceStep(r: Registry, op: PresentationModel.Op): Registry {
    if !IsResourceOp(op) then r
    else match PresentationModel.Step(r, NothingYet, op)
      case Panicked => r
      case Stepped(r', _) => r'
  }

  function Step(rt: Runtime, op: Op): Runtime {
    match op
    case OpResource(o) => rt.(registry := ResourceStep(rt.registry, o))
    case OpEnqueue(batch, transactions, now) => EnqueueBatch(rt, batch, transactions, now)
    case OpDrive(input) => Drive(rt, input)
    case OpFlip(ust, msc, commits, triggers) => FinalizeFlip(rt, ust, msc, commits, triggers)
  }

  function Run(rt: Runtime, ops: seq<Op>): Runtime
    decreases |ops|
  {
    if ops == [] then rt else Run(Step(rt, ops[0]), ops[1..])
  }

  function Initial(limits: Limits, firstAcquireDelay: Option<Millis>, rejectFirst: bool, diagnose: bool): Runtime {
    Runtime(Empty(limits), Scheduler([], None, firstAcquireDelay, false, rejectFirst, 0, 0, diagnose), [], [], [])
  }

  lemma ResourceStepKeeps(r: Registry, op: PresentationModel.Op)
    requires Inv(r)
    ensures Inv(ResourceStep(r, op)) && ResourceStep(r, op).presentations == r.presentations
  {
    hide Inv;
    StepKeepsInv(r, NothingYet, op);
  }

  lemma AgreementHasInv(rt: Runtime)
    requires Agree(rt)
    ensures Inv(rt.registry)
  {
  }

  /** The drive diverts its front to the export diagnostic, which discards it and empties the registry. */
  predicate DivertsFront(rt: Runtime, op: Op) {
    op.OpDrive? && Diagnoses(rt, op.input)
  }

  /** And others are queued behind that front. */
  predicate StrandsQueue(rt: Runtime, op: Op) {
    DivertsFront(rt, op) && |rt.scheduler.queued| > 1
  }

  /** A step keeps queue, flight, registry and history in agreement exactly when it does not strand the queue. */
  lemma StepOkIff(rt: Runtime, op: Op)
    requires RuntimeOk(rt)
    ensures RuntimeOk(Step(rt, op)) <==> !StrandsQueue(rt, op)
    ensures Agree(Step(rt, op)) <==> !StrandsQueue(rt, op)
  {
    hide Inv, AgreeOn, ResourceStep, EnqueueBatch, Drive, FinalizeFlip, Diagnoses;
    match op
    case OpResource(o) =>
      AgreementHasInv(rt);
      ResourceStepKeeps(rt.registry, o);
      ResourceStepAgrees(rt.registry, ResourceStep(rt.registry, o), Launched(rt), Txs(rt.scheduler.queued));
    case OpEnqueue(batch, transactions, now) =>
      EnqueueBatchOk(rt, batch, transactions, now);
    case OpDrive(input) =>
      DriveOkIff(rt, input);
    case OpFlip(ust, msc, commits, triggers) =>
      FinalizeFlipOk(rt, ust, msc, commits, triggers);
  }

  predicate NeverStrandsQueue(rt: Runtime, ops: seq<Op>)
    decreases |ops|
  {
    ops == [] || (!StrandsQueue(rt, ops[0]) && NeverStrandsQueue(Step(rt, ops[0]), ops[1..]))
  }

  /** After every step of the run queue, flight and registry agree. */
  ghost predicate StaysAgreed(rt: Runtime, ops: seq<Op>)
    decreases |ops|
  {
    ops == [] || (Agree(Step(rt, ops[0])) && StaysAgreed(Step(rt, ops[0]), ops[1..]))
  }

  lemma {:induction false} RunOk(rt: Runtime, ops: seq<Op>)
    requires RuntimeOk(rt) && NeverStrandsQueue(rt, ops)
    ensures RuntimeOk(Run(rt, ops))
    decreases |ops|
  {
    hide RuntimeOk, Step, StrandsQueue;
    if ops != [] {
      StepOkIff(rt, ops[0]);
      RunOk(Step(rt, ops[0]), ops[1..]);
    }
  }

  /** Queue, flight and registry agree throughout a run if and only if it never strands its queue. */
  lemma {:induction false} RunStaysAgreedIff(rt: Runtime, ops: seq<Op>)
    requires RuntimeOk(rt)
    ensures StaysAgreed(rt, ops) <==> NeverStrandsQueue(rt, ops)
    decreases |ops|
  {
    hide RuntimeOk, Agree, Step, StrandsQueue;
    if ops != [] {
      StepOkIff(rt, ops[0]);
      if !StrandsQueue(rt, ops[0]) {
        RunStaysAgreedIff(Step(rt, ops[0]), ops[1..]);
      }
    }
  }

  /** With the export diagnostic off, no run strands its queue. */
  lemma {:induction false} OffNeverStrands(rt: Runtime, ops: seq<Op>)
    requires !rt.scheduler.diagnose
    ensures NeverStrandsQueue(rt, ops)
    decreases |ops|
  {
    hide Step, StrandsQueue;
    if ops != [] {
      OffStaysOff(rt, ops[0]);
      OffNeverStrands(Step(rt, ops[0]), ops[1..]);
    }
  }

  lemma OffStaysOff(rt: Runtime, op: Op)
    requires !rt.scheduler.diagnose
    ensures !StrandsQueue(rt, op) && !DivertsFront(rt, op) && !Step(rt, op).scheduler.diagnose
  {
    hide EnqueueBatch, PollGate, ResourceStep, Settle, Submit, FrameBuilds;
    match op
    case OpResource(o) =>
    case OpEnqueue(batch, transactions, now) =>
      EnqueueKeepsDiagnose(rt, batch, transactions, now);
    case OpDrive(i) =>
      PollKeepsDiagnose(rt.registry, rt.scheduler, i.now, i.query);
      SettleKeepsScheduler(rt, i);
    case OpFlip(ust, msc, commits, triggers) =>
      if rt.scheduler.submitted.Some? {
        SettledScheduler(rt.(scheduler := rt.scheduler.(submitted := None)),
                         rt.scheduler.submitted.value.transaction, ust, msc, Flip, triggers);
      }
  }

  lemma SettledScheduler(rt: Runtime, t: Tx, ust: nat, msc: nat, mode: Mode, triggers: bool)
    ensures Settle(rt, t, ust, msc, mode, triggers).scheduler == rt.scheduler
  {
    hide FinishPresent, Retires;
  }

  lemma SettleKeepsScheduler(rt: Runtime, i: DriveInput)
    ensures var (registry, scheduler, gate) := PollGate(rt.registry, rt.scheduler, i.now, i.query);
      var polled := rt.(registry := registry, scheduler := scheduler);
      forall t {:trigger RejectGpu(polled, t, i.triggers)} {:trigger RejectGpu(PopFront(polled), t, i.triggers)} ::
        && RejectGpu(polled, t, i.triggers).scheduler == polled.scheduler
        && RejectGpu(PopFront(polled), t, i.triggers).scheduler == PopFront(polled).scheduler
  {
    hide PollGate, Settle;
    var (registry, scheduler, gate) := PollGate(rt.registry, rt.scheduler, i.now, i.query);
    var polled := rt.(registry := registry, scheduler := scheduler);
    forall t
      ensures RejectGpu(polled, t, i.triggers).scheduler == polled.scheduler
      ensures RejectGpu(PopFront(polled), t, i.triggers).scheduler == PopFront(polled).scheduler
    {
      SettledScheduler(polled, t, 0, 0, Skip, i.triggers);
      SettledScheduler(PopFront(polled), t, 0, 0, Skip, i.triggers);
    }
  }

  lemma {:induction false} EnqueueKeepsDiagnose(rt: Runtime, batch: seq<Submission>,
                                                transactions: seq<SurfaceTransaction>, now: Millis)
    ensures EnqueueBatch(rt, batch, transactions, now).scheduler.diagnose == rt.scheduler.diagnose
    decreases |batch|
  {
    hide Begin;
    if batch != [] {
      var x := batch[0];
      var found := FindSurface(transactions, x.surface);
      var begun := Begin(rt.registry, x.transaction, x.buffer, x.acquire, x.idle, x.oracle);
      if found.Some? && begun.Ok? {
        var rt' := rt.(registry := begun.value,
                       scheduler := Accept(rt.scheduler, x, found.value.timeoutMsec, now),
                       accepted := rt.accepted + [x.transaction]);
        EnqueueKeepsDiagnose(rt', batch[1..], transactions, now);
      }
    }
  }

  lemma PollKeepsDiagnose(r: Registry, s: Scheduler, now: Millis, query: Option<bool>)
    ensures PollGate(r, s, now, query).1.diagnose == s.diagnose
  {
    hide Poll;
  }

  /**
   Every run that never strands its queue, whatever fails in it: queue, flight and registry agree, and
   what was accepted is, in order, what has been settled, the flight, and the queue.
   */
  lemma EveryRunAgrees(limits: Limits, delay: Option<Millis>, rejectFirst: bool, diagnose: bool, ops: seq<Op>)
    requires NeverStrandsQueue(Initial(limits, delay, rejectFirst, diagnose), ops)
    ensures var end := Run(Initial(limits, delay, rejectFirst, diagnose), ops);
      && Agree(end)
      && SinkFaithful(end)
      && end.accepted == SettledTxs(end.settled) + InFlight(end.scheduler) + Txs(end.scheduler.queued)
      && DeadlinesOk(end.scheduler)
  {
    hide Run, NeverStrandsQueue;
    var rt := Initial(limits, delay, rejectFirst, diagnose);
    assert RuntimeOk(rt);
    RunOk(rt, ops);
  }

  // ---------------------------------------------------------------- shutdown

  /** The settlements `xs` are those of `ts`, in order, each by a Skip feedback. */
  ghost predicate AllSkips(xs: seq<Settlement>, ts: seq<Tx>) {
    |xs| == |ts| && forall k :: 0 <= k < |ts| ==> xs[k].Fed? && xs[k].transaction == ts[k] && xs[k].mode == Skip
  }

  /** `after` is `rt` with each of `ts`, in order, settled by a Skip feedback. */
  ghost predicate Skipped(rt: Runtime, after: Runtime, ts: seq<Tx>) {
    && SinkFaithful(after)
    && rt.settled <= after.settled
    && AllSkips(after.settled[|rt.settled|..], ts)
    && LostTxs(after.settled) == LostTxs(rt.settled)
    && UnfedTxs(after.settled) == UnfedTxs(rt.settled)
    && after.accepted == rt.accepted
  }

  lemma SkippedThen(rt: Runtime, mid: Runtime, after: Runtime, ts: seq<Tx>, us: seq<Tx>)
    requires Skipped(rt, mid, ts) && Skipped(mid, after, us)
    ensures Skipped(rt, after, ts + us)
  {
    var n, m := |rt.settled|, |mid.settled|;
    assert after.settled == mid.settled + after.settled[m..];
    assert after.settled[n..] == mid.settled[n..] + after.settled[m..];
  }

  lemma RejectOneSkips(rt: Runtime, t: Tx, triggers: bool)
    requires SinkFaithful(rt) && Retires(rt.registry, t, false) && FinishPresent(rt.registry, t, triggers).Finished?
    ensures Skipped(rt, RejectGpu(rt, t, triggers), [t])
    ensures RejectGpu(rt, t, triggers).registry == FinishPresent(rt.registry, t, triggers).registry
  {
    hide FinishPresent, Retires;
    var after := RejectGpu(rt, t, triggers);
    SettledSnoc(rt.settled, after.settled[|rt.settled|]);
  }

  lemma {:induction false} RejectEachSkips(rt: Runtime, launched: seq<Tx>, ts: seq<Tx>, failing: set<Tx>)
    requires AgreeOn(rt.registry, launched, ts) && SinkFaithful(rt)
    ensures var after := RejectEach(rt, ts, failing);
      AgreeOn(after.registry, launched, []) && Skipped(rt, after, ts)
    decreases |ts|
  {
    if ts != [] {
      assert ts[0] in ts;
      RejectHeadAgrees(rt.registry, launched, ts, ts[0] !in failing);
      RejectEachSkipsStep(rt, launched, ts, failing);
      var mid := RejectGpu(rt, ts[0], ts[0] !in failing);
      RejectEachSkips(mid, launched, ts[1..], failing);
      SkippedThen(rt, mid, RejectEach(mid, ts[1..], failing), ts[..1], ts[1..]);
      assert ts == ts[..1] + ts[1..];
    } else {
      assert rt.settled[..|rt.settled|] == rt.settled;
    }
  }

  lemma RejectEachSkipsStep(rt: Runtime, launched: seq<Tx>, ts: seq<Tx>, failing: set<Tx>)
    requires AgreeOn(rt.registry, launched, ts) && SinkFaithful(rt) && ts != []
    ensures var mid := RejectGpu(rt, ts[0], ts[0] !in failing);
      && Skipped(rt, mid, ts[..1])
      && AgreeOn(mid.registry, launched, ts[1..])
  {
    hide FinishPresent, Inv, RejectGpu;
    assert ts[0] in ts;
    RejectHeadAgrees(rt.registry, launched, ts, ts[0] !in failing);
    RejectOneSkips(rt, ts[0], ts[0] !in failing);
    assert ts[..1] == [ts[0]];
  }

  lemma RejectFlightSkips(rt: Runtime, lost: seq<Tx>, t: Tx, triggers: bool)
    requires AgreeOn(rt.registry, lost + [t], []) && SinkFaithful(rt)
    ensures var after := RejectGpu(rt, t, triggers);
      && Skipped(rt, after, [t])
      && AgreeOn(after.registry, lost, [])
  {
    hide FinishPresent, Inv, RejectGpu;
    RetireFlightAgrees(rt.registry, lost, t, [], triggers);
    RejectOneSkips(rt, t, triggers);
  }

  lemma RejectEachKeepsScheduler(rt: Runtime, ts: seq<Tx>, failing: set<Tx>)
    ensures RejectEach(rt, ts, failing).scheduler == rt.scheduler
    decreases |ts|
  {
    if ts != [] {
      RejectEachKeepsScheduler(RejectGpu(rt, ts[0], ts[0] !in failing), ts[1..], failing);
    }
  }

  /**
   Shutting down after any run rejects the queue in order and then the flight, each with one Skip
   feedback; only presentations lost to a failed retirement are left in the registry.
   */
  lemma RejectAllSkips(rt: Runtime, failing: set<Tx>)
    requires RuntimeOk(rt)
    ensures var after := RejectAll(rt, failing);
      && Skipped(rt, after, Txs(rt.scheduler.queued) + InFlight(rt.scheduler))
      && AgreeOn(after.registry, LostTxs(rt.settled), [])
      && after.scheduler.queued == [] && after.scheduler.submitted.None?
  {
    hide AgreeOn, RejectGpu;
    var queue, flight := Txs(rt.scheduler.queued), InFlight(rt.scheduler);
    var emptied := rt.(scheduler := rt.scheduler.(queued := []));
    RejectEachSkips(emptied, Launched(rt), queue, failing);
    RejectEachKeepsScheduler(emptied, queue, failing);
    var drained := RejectEach(emptied, queue, failing);
    var taken := drained.(scheduler := drained.scheduler.(submitted := None));
    var after := RejectAll(rt, failing);
    RejectEachKeepsScheduler(taken, flight, failing);
    assert Skipped(rt, taken, queue);
    if flight == [] {
      assert Launched(rt) == LostTxs(rt.settled);
      assert queue + flight == queue;
    } else {
      RejectFlightSkips(taken, LostTxs(rt.settled), flight[0], flight[0] !in failing);
      assert flight[1..] == [];
      SkippedThen(rt, taken, after, queue, flight);
    }
  }

  lemma DisconnectAfterRejects(r: Registry, lost: seq<Tx>, failing: set<Tx>)
    requires AgreeOn(r, lost, [])
    ensures Disconnect(r, failing).Swept?
    ensures Disconnect(r, failing).registry == Empty(r.limits)
    ensures Disconnect(r, failing).report.retiredPresentations == |lost|
    ensures forall t :: t in r.presentations <==> t in lost
  {
    hide Inv, Disconnect;
    DisconnectEmpties(r, failing);
    DisconnectCounts(r, failing);
    DistinctParts(lost, []);
    DistinctCovers(lost, r.presentations.Keys);
  }

  /**
   Shutdown of any state that satisfies the run invariant: what was not settled yet gets one Skip, in
   queue order with the flight last, so everything accepted is settled exactly once; the disconnect
   then retires exactly the presentations that failed retirements had lost.
   */
  lemma ShutdownOk(rt: Runtime, failing: set<Tx>)
    requires RuntimeOk(rt)
    ensures var (down, sweep) := Shutdown(rt, failing);
      && sweep.Swept?
      && down.registry == Empty(down.registry.limits)
      && Skipped(rt, down, Txs(rt.scheduler.queued) + InFlight(rt.scheduler))
      && multiset(SettledTxs(down.settled)) == multiset(rt.accepted)
      && sweep.report.retiredPresentations == |LostTxs(rt.settled)|
      && (forall t :: t in RejectAll(rt, failing).registry.presentations <==> t in LostTxs(rt.settled))
  {
    hide AgreeOn, Disconnect, RejectAll;
    RejectAllSkips(rt, failing);
    var after := RejectAll(rt, failing);
    DisconnectAfterRejects(after.registry, LostTxs(rt.settled), failing);
    SettledIsPermutation(rt, after);
  }

  /**
   The same for every run from the start that never strands its queue: each settlement is the
   presentation's own pair or one without feedback, and the disconnect retires as many as are left over.
   */
  lemma EveryRunSettlesEachOnce(limits: Limits, delay: Option<Millis>, rejectFirst: bool, diagnose: bool, ops: seq<Op>,
                                failing: set<Tx>)
    requires NeverStrandsQueue(Initial(limits, delay, rejectFirst, diagnose), ops)
    ensures var start := Initial(limits, delay, rejectFirst, diagnose);
      var end := Run(start, ops);
      var (down, sweep) := Shutdown(end, failing);
      && sweep.Swept?
      && multiset(SettledTxs(down.settled)) == multiset(end.accepted)
      && (forall x :: x in down.settled ==> PairOk(x))
      && down.sink == FedOutcomes(down.settled)
      && sweep.report.retiredPresentations == LeftOver(start, ops, 0)
  {
    hide Run, Agree, Shutdown, LeftOver, LostTxs, FedOutcomes, NeverStrandsQueue;
    var start := Initial(limits, delay, rejectFirst, diagnose);
    InitialOk(limits, delay, rejectFirst, diagnose);
    RunOk(start, ops);
    RunLosesExactly(start, ops);
    ShutdownOk(Run(start, ops), failing);
  }

  lemma InitialOk(limits: Limits, delay: Option<Millis>, rejectFirst: bool, diagnose: bool)
    ensures RuntimeOk(Initial(limits, delay, rejectFirst, diagnose))
    ensures LostTxs(Initial(limits, delay, rejectFirst, diagnose).settled) == []
    ensures UnfedTxs(Initial(limits, delay, rejectFirst, diagnose).settled) == []
  {
  }

  lemma DistinctCovers(xs: seq<Tx>, s: set<Tx>)
    requires Distinct(xs) && forall t :: t in s <==> t in xs
    ensures |s| == |xs|
  {
    DistinctMultiset(xs);
    assert multiset(xs) == multiset(s);
  }

  lemma SettledIsPermutation(end: Runtime, after: Runtime)
    requires InOrder(end) && Skipped(end, after, Txs(end.scheduler.queued) + InFlight(end.scheduler))
    ensures multiset(SettledTxs(after.settled)) == multiset(end.accepted)
  {
    var queue, flight := Txs(end.scheduler.queued), InFlight(end.scheduler);
    assert SettledTxs(after.settled) == SettledTxs(end.settled) + (queue + flight);
    assert multiset(SettledTxs(end.settled) + flight + queue) ==
      multiset(SettledTxs(end.settled)) + multiset(flight) + multiset(queue);
  }

  // ---------------------------------------------------------------- one in flight, bounded waiting, loss

  /** While one is in flight a drive changes nothing, so nothing is popped and nothing overwrites it. */
  lemma DriveWaitsForFlight(rt: Runtime, i: DriveInput)
    requires rt.scheduler.submitted.Some?
    ensures Drive(rt, i) == rt
  {
  }

  /** With nothing in flight, a poll that does not fail stops waiting at the front's deadline. */
  lemma PollStopsWaitingAtDeadline(r: Registry, s: Scheduler, now: Millis, query: Option<bool>)
    requires s.submitted.None? && s.queued != [] && DeadlinesOk(s)
    ensures var (_, _, gate) := PollGate(r, s, now, query);
      gate == Ok(WaitingAcquire) ==> now < s.queued[0].deadline <= s.queued[0].notBefore + 2000
  {
    assert s.queued[0] in s.queued;
  }

  /**
   An overdue front is fed back at once when its fence says that it has not signaled, whatever the
   display; and, without a display to present on, whatever its fence says.
   */
  lemma OverdueFrontIsSkipped(rt: Runtime, i: DriveInput)
    requires RuntimeOk(rt) && rt.scheduler.submitted.None? && rt.scheduler.queued != []
    requires i.now >= rt.scheduler.queued[0].deadline && i.query.Some?
    requires var t := rt.scheduler.queued[0].transaction;
      || !i.native
      || (t in rt.registry.presentations && rt.registry.presentations[t].state == WaitingForAcquireFence && !i.query.value)
    ensures var after := Drive(rt, i);
      && |after.settled| == |rt.settled| + 1
      && after.settled[|rt.settled|].Fed?
      && after.settled[|rt.settled|].transaction == rt.scheduler.queued[0].transaction
      && after.settled[|rt.settled|].mode == Skip
      && after.scheduler.queued == rt.scheduler.queued[1..]
  {
    hide AgreeOn, FinishPresent, Poll;
    var head := rt.scheduler.queued[0];
    assert head in rt.scheduler.queued;
    PolledHead(rt, i.query);
    var (registry, scheduler, gate) := PollGate(rt.registry, rt.scheduler, i.now, i.query);
    assert registry == Poll(rt.registry, head.transaction, i.query).0;
  }

  /** Polling the front's fence: it can fail only with the query, and leaves the front ready to finish. */
  lemma PolledHead(rt: Runtime, query: Option<bool>)
    requires Agree(rt) && rt.scheduler.queued != []
    ensures var t := rt.scheduler.queued[0].transaction;
      var (registry, result) := Poll(rt.registry, t, query);
      && (query.Some? ==> result.Ok?)
      && t in rt.registry.presentations
      && (rt.registry.presentations[t].state == WaitingForAcquireFence && query == Some(false) ==> result == Ok(false))
      && t in registry.presentations
      && (forall triggers :: FinishPresent(registry, t, triggers).Finished?)
      && (forall triggers :: Inv(FinishPresent(registry, t, triggers).registry))
  {
    hide FinishPresent;
    var t := rt.scheduler.queued[0].transaction;
    HeadIsRegistered(rt);
    assert PresentOk(rt.registry, rt.registry.presentations[t]);
    PollEffect(rt.registry, t, query);
    PollKeepsInv(rt.registry, t, query);
    var registry := Poll(rt.registry, t, query).0;
    forall triggers ensures FinishPresent(registry, t, triggers).Finished? && Inv(FinishPresent(registry, t, triggers).registry) {
      FinishKeepsInv(registry, t, triggers);
    }
  }

  /** The flip finds something in flight, and the engine does not commit it. */
  predicate DropsFlight(rt: Runtime, op: Op) {
    op.OpFlip? && !op.commits && rt.scheduler.submitted.Some?
  }

  /** The step settles a presentation without feedback. */
  predicate LeavesUnfed(rt: Runtime, op: Op) {
    DropsFlight(rt, op) || DivertsFront(rt, op)
  }

  /** How many steps of a run settled a presentation without feedback. */
  function UnfedSteps(rt: Runtime, ops: seq<Op>): nat
    decreases |ops|
  {
    if ops == [] then 0
    else (if LeavesUnfed(rt, ops[0]) then 1 else 0) + UnfedSteps(Step(rt, ops[0]), ops[1..])
  }

  /** How many dropped flights are registered after the step, when `n` were before it. */
  function LeftBy(rt: Runtime, op: Op, n: nat): nat {
    if DivertsFront(rt, op) then 0 else if DropsFlight(rt, op) then n + 1 else n
  }

  /** How many dropped flights are registered after a run: those since the registry was last emptied. */
  function LeftOver(rt: Runtime, ops: seq<Op>, n: nat): nat
    decreases |ops|
  {
    if ops == [] then n else LeftOver(Step(rt, ops[0]), ops[1..], LeftBy(rt, ops[0], n))
  }

  lemma SettleLosesNothing(rt: Runtime, t: Tx, ust: nat, msc: nat, mode: Mode, triggers: bool)
    ensures LostTxs(Settle(rt, t, ust, msc, mode, triggers).settled) == LostTxs(rt.settled)
    ensures UnfedTxs(Settle(rt, t, ust, msc, mode, triggers).settled) == UnfedTxs(rt.settled)
  {
    hide FinishPresent, Retires;
    var after := Settle(rt, t, ust, msc, mode, triggers);
    if after.settled != rt.settled {
      SettledSnoc(rt.settled, after.settled[|rt.settled|]);
    }
  }

  /**
   A step settles without feedback exactly the flight that a failing flip drops, which stays registered,
   and the front that the diagnostic discards, which takes everything out of the registry.
   */
  lemma StepLosesExactly(rt: Runtime, op: Op)
    requires RuntimeOk(rt)
    ensures |LostTxs(Step(rt, op).settled)| == LeftBy(rt, op, |LostTxs(rt.settled)|)
    ensures UnfedTxs(Step(rt, op).settled) == UnfedTxs(rt.settled) +
      (if DropsFlight(rt, op) then InFlight(rt.scheduler)
       else if DivertsFront(rt, op) && rt.scheduler.queued != [] then [rt.scheduler.queued[0].transaction] else [])
    ensures DivertsFront(rt, op) ==> rt.scheduler.queued != []
  {
    hide RuntimeOk, Settle, EnqueueBatch, Drive, ResourceStep, LostTxs, UnfedTxs, Diagnoses;
    match op
    case OpResource(o) =>
    case OpEnqueue(batch, transactions, now) =>
      EnqueueKeepsRest(rt, batch, transactions, now);
    case OpDrive(i) =>
      DriveLosesExactly(rt, i);
    case OpFlip(ust, msc, commits, triggers) =>
      if rt.scheduler.submitted.Some? {
        var t := rt.scheduler.submitted.value.transaction;
        SettleLosesNothing(rt.(scheduler := rt.scheduler.(submitted := None)), t, ust, msc, Flip, triggers);
        SettledSnoc(rt.settled, Lost(t));
      }
  }

  lemma DriveLosesExactly(rt: Runtime, i: DriveInput)
    requires RuntimeOk(rt)
    ensures Diagnoses(rt, i) ==> rt.scheduler.queued != []
    ensures LostTxs(Drive(rt, i).settled) == if Diagnoses(rt, i) then [] else LostTxs(rt.settled)
    ensures UnfedTxs(Drive(rt, i).settled) == UnfedTxs(rt.settled) +
      (if Diagnoses(rt, i) && rt.scheduler.queued != [] then [rt.scheduler.queued[0].transaction] else [])
  {
    hide RuntimeOk, PollGate, PresentFront, Settle, LostTxs, UnfedTxs, Diverts;
    PollGateOk(rt, i.now, i.query);
    var (registry, scheduler, gate) := PollGate(rt.registry, rt.scheduler, i.now, i.query);
    var polled := rt.(registry := registry, scheduler := scheduler);
    if gate.Ok? && gate.value.RejectNow? {
      SettleLosesNothing(polled, gate.value.transaction, 0, 0, Skip, i.triggers);
    } else if gate.Ok? && gate.value.ReadyNow? {
      assert polled == polled.(scheduler := scheduler.(queued := rt.scheduler.queued));
      PresentLosesExactly(polled, i);
    }
  }

  lemma PresentLosesExactly(rt: Runtime, i: DriveInput)
    requires RuntimeOk(rt) && rt.scheduler.queued != [] && rt.scheduler.submitted.None?
    ensures var t := rt.scheduler.queued[0].transaction;
      var after := PresentFront(rt, t, i);
      && LostTxs(after.settled) == (if Diverts(rt, t, i) then [] else LostTxs(rt.settled))
      && UnfedTxs(after.settled) == UnfedTxs(rt.settled) + (if Diverts(rt, t, i) then [t] else [])
  {
    hide RuntimeOk, Settle, Submit, FrameBuilds, LostTxs, UnfedTxs, Diagnose;
    var t := rt.scheduler.queued[0].transaction;
    SettleLosesNothing(PopFront(rt), t, 0, 0, Skip, i.triggers);
    DiagnoseOkIff(rt, i);
    SettledSnoc(rt.settled, Discarded(t));
  }

  /**
   Over a run that never strands its queue, as many presentations are settled without feedback as flips
   dropped a flight or drives were diverted; and of the dropped ones those since the last diversion are
   still registered.
   */
  lemma {:induction false} RunLosesExactly(rt: Runtime, ops: seq<Op>)
    requires RuntimeOk(rt) && NeverStrandsQueue(rt, ops)
    ensures |LostTxs(Run(rt, ops).settled)| == LeftOver(rt, ops, |LostTxs(rt.settled)|)
    ensures |UnfedTxs(Run(rt, ops).settled)| == |UnfedTxs(rt.settled)| + UnfedSteps(rt, ops)
    decreases |ops|
  {
    hide RuntimeOk, Step, LostTxs, UnfedTxs, StrandsQueue, DropsFlight, DivertsFront;
    if ops != [] {
      StepLosesExactly(rt, ops[0]);
      FlightIsOne(rt, ops[0]);
      StepOkIff(rt, ops[0]);
      RunLosesExactly(Step(rt, ops[0]), ops[1..]);
    }
  }

  lemma FlightIsOne(rt: Runtime, op: Op)
    ensures DropsFlight(rt, op) ==> |InFlight(rt.scheduler)| == 1 && !DivertsFront(rt, op)
  {
  }

  /** With the export diagnostic off, both counts are the number of flips that dropped a flight. */
  lemma {:induction false} OffCountsAgree(rt: Runtime, ops: seq<Op>, n: nat)
    requires !rt.scheduler.diagnose
    ensures LeftOver(rt, ops, n) == n + UnfedSteps(rt, ops)
    decreases |ops|
  {
    hide Step, StrandsQueue, DivertsFront, DropsFlight;
    if ops != [] {
      OffStaysOff(rt, ops[0]);
      OffCountsAgree(Step(rt, ops[0]), ops[1..], LeftBy(rt, ops[0], n));
    }
  }

  /** With something lost, the registry holds more than the queue and the flight. */
  lemma AgreesWithoutLostIff(rt: Runtime)
    requires Agree(rt)
    ensures AgreeOn(rt.registry, InFlight(rt.scheduler), Txs(rt.scheduler.queued)) <==> LostTxs(rt.settled) == []
  {
    hide Inv;
    var lost, flight, queue := LostTxs(rt.settled), InFlight(rt.scheduler), Txs(rt.scheduler.queued);
    if lost == [] {
      assert Launched(rt) == flight;
    } else {
      assert lost[0] in lost;
      DistinctParts(lost + flight, queue);
      DistinctParts(lost, flight);
      assert lost[0] in Launched(rt);
    }
  }

  /**
   After a run that never strands its queue, the registry holds exactly the queued presentations and the
   one in flight, which alone is in state Submitted, if and only if no dropped flight is left over; and the
   disconnect at shutdown retires exactly as many presentations as are left over.
   */
  lemma RunAgreesExactlyIff(limits: Limits, delay: Option<Millis>, rejectFirst: bool, diagnose: bool, ops: seq<Op>,
                            failing: set<Tx>)
    requires NeverStrandsQueue(Initial(limits, delay, rejectFirst, diagnose), ops)
    ensures var start := Initial(limits, delay, rejectFirst, diagnose);
      var end := Run(start, ops);
      && (AgreeOn(end.registry, InFlight(end.scheduler), Txs(end.scheduler.queued)) <==> LeftOver(start, ops, 0) == 0)
      && Shutdown(end, failing).1.Swept?
      && Shutdown(end, failing).1.report.retiredPresentations == LeftOver(start, ops, 0)
  {
    hide Run, Shutdown, AgreeOn, LeftOver, NeverStrandsQueue;
    var start := Initial(limits, delay, rejectFirst, diagnose);
    InitialOk(limits, delay, rejectFirst, diagnose);
    RunOk(start, ops);
    RunLosesExactly(start, ops);
    AgreesWithoutLostIff(Run(start, ops));
    ShutdownOk(Run(start, ops), failing);
  }

  // ---------------------------------------------------------------- what the sink received

  /** A Complete and then an Idle notification of one presentation; a skip has no presentation time. */
  predicate IsPair(o: FeedbackOutcome) {
    && |o.feedback| == 2
    && o.feedback[0].Complete?
    && o.feedback[1] == IdleNotify(o.feedback[0].transaction)
    && (o.feedback[0].mode == Skip ==> o.feedback[0].ust == 0 && o.feedback[0].msc == 0)
  }

  predicate AllPairs(sink: seq<FeedbackOutcome>) {
    forall k :: 0 <= k < |sink| ==> IsPair(sink[k])
  }

  /** The presentations a sink of pairs is about, in order. */
  function FedBack(sink: seq<FeedbackOutcome>): (ts: seq<Tx>)
    requires AllPairs(sink)
    ensures |ts| == |sink|
    ensures forall k :: 0 <= k < |ts| ==> ts[k] == sink[k].feedback[0].transaction
  {
    seq(|sink|, k requires 0 <= k < |sink| => sink[k].feedback[0].transaction)
  }

  /** The history behind a faithful sink: presentations fed back and those that were not together are the settled ones. */
  lemma {:induction false} SettledSplits(settled: seq<Settlement>)
    requires forall x :: x in settled ==> PairOk(x)
    ensures AllPairs(FedOutcomes(settled))
    ensures multiset(SettledTxs(settled)) == multiset(FedBack(FedOutcomes(settled))) + multiset(UnfedTxs(settled))
    ensures UnfedTxs(settled) == [] ==> FedBack(FedOutcomes(settled)) == SettledTxs(settled)
  {
    if settled != [] {
      var n := |settled| - 1;
      var rest, last := settled[..n], settled[n];
      assert settled == rest + [last] && last in settled;
      SettledSplits(rest);
      OneMoreSettled(rest, last);
    }
  }

  lemma OneMoreSettled(rest: seq<Settlement>, last: Settlement)
    requires PairOk(last) && AllPairs(FedOutcomes(rest))
    requires multiset(SettledTxs(rest)) == multiset(FedBack(FedOutcomes(rest))) + multiset(UnfedTxs(rest))
    requires UnfedTxs(rest) == [] ==> FedBack(FedOutcomes(rest)) == SettledTxs(rest)
    ensures var settled := rest + [last];
      && AllPairs(FedOutcomes(settled))
      && multiset(SettledTxs(settled)) == multiset(FedBack(FedOutcomes(settled))) + multiset(UnfedTxs(settled))
      && (UnfedTxs(settled) == [] ==> FedBack(FedOutcomes(settled)) == SettledTxs(settled))
  {
    hide FedOutcomes, UnfedTxs, LostTxs, SettledTxs, FedBack, PairOk, AllPairs;
    SettledSnoc(rest, last);
    FedBackSnoc(rest, last);
  }

  lemma FedBackSnoc(rest: seq<Settlement>, last: Settlement)
    requires PairOk(last) && AllPairs(FedOutcomes(rest))
    requires FedOutcomes(rest + [last]) == FedOutcomes(rest) + (if last.Fed? then [last.outcome] else [])
    ensures AllPairs(FedOutcomes(rest + [last]))
    ensures FedBack(FedOutcomes(rest + [last])) ==
      FedBack(FedOutcomes(rest)) + (if last.Fed? then [last.transaction] else [])
  {
    hide FedOutcomes;
  }

  /** Settling more by Skip feedback appends just those pairs to the sink. */
  lemma {:induction false} SkipsAppended(settled: seq<Settlement>, skips: seq<Settlement>, ts: seq<Tx>)
    requires AllSkips(skips, ts) && forall x :: x in settled + skips ==> PairOk(x)
    requires AllPairs(FedOutcomes(settled))
    ensures var sink, more := FedOutcomes(settled), FedOutcomes(settled + skips);
      && AllPairs(more)
      && sink <= more && FedBack(more) == FedBack(sink) + ts
      && forall k :: |sink| <= k < |more| ==> more[k].feedback[0].mode == Skip
    decreases |skips|
  {
    if skips == [] {
      assert settled + skips == settled;
    } else {
      var n := |skips| - 1;
      assert settled + skips == (settled + skips[..n]) + [skips[n]];
      SkipsAppended(settled, skips[..n], ts[..n]);
      SettledSnoc(settled + skips[..n], skips[n]);
      assert PairOk(skips[n]) by {
        assert (settled + skips)[|settled| + n] == skips[n];
      }
      FedBackSnoc(settled + skips[..n], skips[n]);
      assert ts == ts[..n] + [ts[n]];
    }
  }

  /**
   Every run from the start that never strands its queue, followed by shutdown: the sink holds
   Complete-then-Idle pairs only; shutdown appends one Skip pair for each queued presentation in order and
   then one for the flight; no accepted presentation is fed back twice, and all of them are if and only if
   no flip dropped a flight and no drive was diverted. Before the shutdown pairs come in acceptance order.
   */
  lemma EveryRunFeedsBackEachOnceIff(limits: Limits, delay: Option<Millis>, rejectFirst: bool, diagnose: bool, ops: seq<Op>,
                                     failing: set<Tx>)
    requires NeverStrandsQueue(Initial(limits, delay, rejectFirst, diagnose), ops)
    ensures var start := Initial(limits, delay, rejectFirst, diagnose);
      var end := Run(start, ops);
      var down := Shutdown(end, failing).0;
      && AllPairs(end.sink) && AllPairs(down.sink)
      && end.sink <= down.sink
      && FedBack(down.sink) == FedBack(end.sink) + (Txs(end.scheduler.queued) + InFlight(end.scheduler))
      && (forall k :: |end.sink| <= k < |down.sink| ==> down.sink[k].feedback[0].mode == Skip)
      && multiset(FedBack(down.sink)) <= multiset(end.accepted)
      && |down.sink| + UnfedSteps(start, ops) == |end.accepted|
      && (multiset(FedBack(down.sink)) == multiset(end.accepted) <==> UnfedSteps(start, ops) == 0)
      && (UnfedSteps(start, ops) == 0 ==>
            end.accepted == FedBack(end.sink) + InFlight(end.scheduler) + Txs(end.scheduler.queued))
  {
    hide Run, Shutdown, Agree, AgreeOn, UnfedSteps, LeftOver, FedOutcomes, LostTxs, UnfedTxs, NeverStrandsQueue;
    var start := Initial(limits, delay, rejectFirst, diagnose);
    InitialOk(limits, delay, rejectFirst, diagnose);
    RunOk(start, ops);
    RunLosesExactly(start, ops);
    var end := Run(start, ops);
    ShutdownOk(end, failing);
    ShutdownFeedsBack(end, Shutdown(end, failing).0);
  }

  /** What a shutdown adds to the sink, told by the history of what each accepted presentation came to. */
  lemma ShutdownFeedsBack(end: Runtime, down: Runtime)
    requires SinkFaithful(end) && InOrder(end)
    requires Skipped(end, down, Txs(end.scheduler.queued) + InFlight(end.scheduler))
    requires multiset(SettledTxs(down.settled)) == multiset(end.accepted)
    ensures AllPairs(end.sink) && AllPairs(down.sink) && end.sink <= down.sink
    ensures FedBack(down.sink) == FedBack(end.sink) + (Txs(end.scheduler.queued) + InFlight(end.scheduler))
    ensures forall k :: |end.sink| <= k < |down.sink| ==> down.sink[k].feedback[0].mode == Skip
    ensures multiset(FedBack(down.sink)) + multiset(UnfedTxs(end.settled)) == multiset(end.accepted)
    ensures |down.sink| + |UnfedTxs(end.settled)| == |end.accepted|
    ensures UnfedTxs(end.settled) == [] ==>
      end.accepted == FedBack(end.sink) + InFlight(end.scheduler) + Txs(end.scheduler.queued)
  {
    hide FedOutcomes, LostTxs, UnfedTxs, SettledTxs, FedBack, AllPairs, AllSkips, PairOk;
    SettledSplits(end.settled);
    SettledSplits(down.settled);
    SkipsReachSink(end, down, Txs(end.scheduler.queued) + InFlight(end.scheduler));
    SameSize(FedBack(down.sink), UnfedTxs(end.settled), end.accepted);
  }

  lemma SkipsReachSink(rt: Runtime, after: Runtime, ts: seq<Tx>)
    requires SinkFaithful(rt) && Skipped(rt, after, ts) && AllPairs(rt.sink)
    ensures AllPairs(after.sink) && rt.sink <= after.sink && FedBack(after.sink) == FedBack(rt.sink) + ts
    ensures forall k :: |rt.sink| <= k < |after.sink| ==> after.sink[k].feedback[0].mode == Skip
  {
    hide FedOutcomes, LostTxs, UnfedTxs, FedBack, AllPairs, AllSkips, PairOk;
    var skips := after.settled[|rt.settled|..];
    assert after.settled == rt.settled + skips;
    SkipsAppended(rt.settled, skips, ts);
  }

  lemma SameSize(a: seq<Tx>, b: seq<Tx>, c: seq<Tx>)
    requires multiset(a) + multiset(b) == multiset(c)
    ensures |a| + |b| == |c|
  {
    assert |multiset(a) + multiset(b)| == |multiset(c)|;
  }

  // ---------------------------------------------------------------- a dropped flight

  const ExampleOracle := BeginOracle(true, true, true, None)

  /** A drive that finds everything in order and puts the front on screen. */
  const ExampleDrive := DriveInput(0, None, true, true, true, false, true, SubmittedWaitingForPageFlip, true, {})

  /** A client registers a buffer, presents it, and the engine does not commit the flip. */
  const ExampleLossOps := [
    OpResource(OpRegisterSource(Descriptor(1, 0, true), [])),
    OpEnqueue([Submission(1, 7, 1, None, None, ExampleOracle)], [SurfaceTransaction(7, 300)], 0),
    OpDrive(ExampleDrive),
    OpFlip(16, 1, false, true)]

  /** The presentation is accepted and never fed back, while the registry keeps it in state Submitted. */
  lemma DroppedFlightExample()
    ensures var start := Initial(Limits(1, 0, 2), None, false, false);
      var end := Run(start, ExampleLossOps);
      && UnfedSteps(start, ExampleLossOps) == 1
      && end.accepted == [1] && end.sink == [] && end.settled == [Lost(1)]
      && end.scheduler.queued == [] && end.scheduler.submitted.None?
      && 1 in end.registry.presentations && end.registry.presentations[1].state == Submitted
  {
    var start := Initial(Limits(1, 0, 2), None, false, false);
    var r1 := start.registry.(sources := map[1 := Source([], 0, false)]);
    var s1 := start.(registry := r1);
    var r2 := r1.(sources := map[1 := Source([], 1, false)], presentations := map[1 := ExamplePresent]);
    var s2 := s1.(registry := r2, scheduler := s1.scheduler.(queued := [Queued(1, 7, 0, 300)]), accepted := [1]);
    var r3 := r2.(presentations := map[1 := ExamplePresent.(state := Submitted)]);
    var s3 := s2.(registry := r3, scheduler := s2.scheduler.(queued := [], submitted := Some(Flight(1, 7))));
    var s4 := s3.(scheduler := s3.scheduler.(submitted := None), settled := [Lost(1)]);
    assert Step(start, ExampleLossOps[0]) == s1;
    assert Step(s1, ExampleLossOps[1]) == s2 by {
      assert r1.sources[1 := Source([], 1, false)] == r2.sources;
      assert Begin(r1, 1, 1, None, None, ExampleOracle) == Ok(r2);
      EnqueueFirst(s1, ExampleLossOps[1].batch, ExampleLossOps[1].transactions, 0);
    }
    assert Step(s2, ExampleLossOps[2]) == s3;
    assert Step(s3, ExampleLossOps[3]) == s4;
    FourSteps(start, ExampleLossOps);
  }

  lemma EnqueueFirst(rt: Runtime, batch: seq<Submission>, transactions: seq<SurfaceTransaction>, now: Millis)
    requires batch != [] && FindSurface(transactions, batch[0].surface).Some?
    requires var x := batch[0]; Begin(rt.registry, x.transaction, x.buffer, x.acquire, x.idle, x.oracle).Ok?
    ensures var x := batch[0];
      var accepted := rt.(
        registry := Begin(rt.registry, x.transaction, x.buffer, x.acquire, x.idle, x.oracle).value,
        scheduler := Accept(rt.scheduler, x, FindSurface(transactions, x.surface).value.timeoutMsec, now),
        accepted := rt.accepted + [x.transaction]);
      EnqueueBatch(rt, batch, transactions, now) == EnqueueBatch(accepted, batch[1..], transactions, now)
  {
    hide Begin, Accept;
  }

  lemma FourSteps(rt: Runtime, ops: seq<Op>)
    requires |ops| == 4
    ensures var s1 := Step(rt, ops[0]);
      var s2 := Step(s1, ops[1]);
      var s3 := Step(s2, ops[2]);
      && Run(rt, ops) == Step(s3, ops[3])
      && UnfedSteps(rt, ops) ==
           (if LeavesUnfed(rt, ops[0]) then 1 else 0) + (if LeavesUnfed(s1, ops[1]) then 1 else 0)
           + (if LeavesUnfed(s2, ops[2]) then 1 else 0) + (if LeavesUnfed(s3, ops[3]) then 1 else 0)
  {
    hide Step;
    var s1 := Step(rt, ops[0]);
    var s2 := Step(s1, ops[1]);
    var s3 := Step(s2, ops[2]);
    FirstStep(rt, ops);
    FirstStep(s1, ops[1..]);
    FirstStep(s2, ops[2..]);
    FirstStep(s3, ops[3..]);
    assert ops[1..][1..] == ops[2..] && ops[2..][1..] == ops[3..] && ops[3..][1..] == [];
  }

  lemma FirstStep(rt: Runtime, ops: seq<Op>)
    requires ops != []
    ensures Run(rt, ops) == Run(Step(rt, ops[0]), ops[1..])
    ensures UnfedSteps(rt, ops) ==
      (if LeavesUnfed(rt, ops[0]) then 1 else 0) + UnfedSteps(Step(rt, ops[0]), ops[1..])
  {
    hide Step;
  }

  // ---------------------------------------------------------------- the export diagnostic

  /** Every queued presentation is still registered. */
  ghost predicate QueueBacked(rt: Runtime) {
    forall t :: t in Txs(rt.scheduler.queued) ==> t in rt.registry.presentations
  }

  /** The diagnostic keeps queue and registry in agreement only when the front was alone in the queue. */
  lemma DiagnosticKeepsQueueBackedIff(rt: Runtime, i: DriveInput)
    requires Agree(rt) && Diagnoses(rt, i)
    ensures Drive(rt, i).registry.presentations == map[]
    ensures Drive(rt, i).sink == rt.sink
    ensures QueueBacked(Drive(rt, i)) <==> |rt.scheduler.queued| == 1
  {
    hide Inv, AgreeOn, FinishPresent, Disconnect, Poll;
    var head := rt.scheduler.queued[0];
    PolledHead(rt, i.query);
    var registry := Poll(rt.registry, head.transaction, i.query).0;
    DisconnectEmpties(FinishPresent(registry, head.transaction, i.triggers).registry, i.failing);
    var after := Drive(rt, i);
    assert after.scheduler.queued == rt.scheduler.queued[1..];
    if |rt.scheduler.queued| > 1 {
      assert Txs(after.scheduler.queued)[0] in Txs(after.scheduler.queued);
    }
  }

  /** A front that the registry no longer knows blocks the queue: no drive pops it or settles anything. */
  lemma StrandedFrontBlocks(rt: Runtime, i: DriveInput)
    requires rt.scheduler.queued != [] && rt.scheduler.queued[0].transaction !in rt.registry.presentations
    ensures var after := Drive(rt, i);
      && after.scheduler.queued == rt.scheduler.queued && after.scheduler.submitted == rt.scheduler.submitted
      && after.settled == rt.settled && after.sink == rt.sink && after.registry == rt.registry
  {
  }

  const ExamplePresent := PresentationModel.Present(1, None, None, [], None, None, Ready)

  /** Two ready presentations of one buffer are queued and the diagnostic is on. */
  const ExampleRuntime := Runtime(
    Registry(map[1 := Source([], 2, false)], map[], map[1 := ExamplePresent, 2 := ExamplePresent], Limits(1, 0, 2)),
    Scheduler([Queued(1, 7, 0, 300), Queued(2, 7, 0, 300)], None, None, false, false, 0, 0, true),
    [], [1, 2], [])

  /** A client registers a buffer and presents it twice. */
  const ExampleOps := [
    OpResource(OpRegisterSource(Descriptor(1, 0, true), [])),
    OpEnqueue([Submission(1, 7, 1, None, None, ExampleOracle), Submission(2, 7, 1, None, None, ExampleOracle)],
              [SurfaceTransaction(7, 300)], 0)]

  lemma ExampleIsReached()
    ensures Run(Initial(Limits(1, 0, 2), None, false, true), ExampleOps) == ExampleRuntime
  {
    var start := Initial(Limits(1, 0, 2), None, false, true);
    var r1 := start.registry.(sources := map[1 := Source([], 0, false)]);
    var r2 := r1.(sources := map[1 := Source([], 1, false)], presentations := map[1 := ExamplePresent]);
    var s1 := start.(registry := r1);
    var s2 := s1.(registry := r2, scheduler := s1.scheduler.(queued := [Queued(1, 7, 0, 300)]), accepted := [1]);
    var batch, transactions := ExampleOps[1].batch, ExampleOps[1].transactions;
    assert Step(start, ExampleOps[0]) == s1;
    assert Step(s1, ExampleOps[1]) == ExampleRuntime by {
      assert r1.sources[1 := Source([], 1, false)] == r2.sources;
      assert Begin(r1, 1, 1, None, None, ExampleOracle) == Ok(r2);
      EnqueueFirst(s1, batch, transactions, 0);
      assert EnqueueBatch(s1, batch, transactions, 0) == EnqueueBatch(s2, batch[1..], transactions, 0);
      ExampleSecond(s2, batch[1..], transactions);
    }
    FirstStep(start, ExampleOps);
    FirstStep(s1, ExampleOps[1..]);
  }

  lemma ExampleSecond(rt: Runtime, batch: seq<Submission>, transactions: seq<SurfaceTransaction>)
    requires batch == [Submission(2, 7, 1, None, None, ExampleOracle)] && transactions == [SurfaceTransaction(7, 300)]
    requires rt == ExampleRuntime.(
      registry := Registry(map[1 := Source([], 1, false)], map[], map[1 := ExamplePresent], Limits(1, 0, 2)),
      scheduler := ExampleRuntime.scheduler.(queued := [Queued(1, 7, 0, 300)]),
      accepted := [1])
    ensures EnqueueBatch(rt, batch, transactions, 0) == ExampleRuntime
  {
    var r2, r3 := rt.registry, ExampleRuntime.registry;
    assert r2.sources[1 := Source([], 2, false)] == r3.sources;
    assert r2.presentations[2 := ExamplePresent] == r3.presentations;
    assert |r2.presentations| == 1;
    assert Begin(r2, 2, 1, None, None, ExampleOracle) == Ok(r3);
    EnqueueFirst(rt, batch, transactions, 0);
  }

  /**
   Driving this state, which a run from the start reaches, strands the second presentation in the queue:
   the registry no longer knows it.
   */
  lemma DiagnosticStrandsExample()
    ensures Run(Initial(Limits(1, 0, 2), None, false, true), ExampleOps) == ExampleRuntime
    ensures Agree(ExampleRuntime)
    ensures var i := DriveInput(0, None, true, true, true, false, true, NotSubmitted, true, {});
      Diagnoses(ExampleRuntime, i) && !QueueBacked(Drive(ExampleRuntime, i))
  {
    hide Run;
    ExampleIsReached();
    ExampleAgrees();
    var i := DriveInput(0, None, true, true, true, false, true, NotSubmitted, true, {});
    assert Diagnoses(ExampleRuntime, i);
    DiagnosticKeepsQueueBackedIff(ExampleRuntime, i);
  }

  lemma ExampleAgrees()
    ensures Agree(ExampleRuntime)
  {
    var r := ExampleRuntime.registry;
    assert SourceUsers(r.presentations, 1) == {1, 2};
    assert PresentOk(r, ExamplePresent);
    assert |r.presentations.Keys| == |{1, 2}|;
    assert Inv(r);
    assert Txs(ExampleRuntime.scheduler.queued) == [1, 2];
    assert Launched(ExampleRuntime) + Txs(ExampleRuntime.scheduler.queued) == [1, 2];
  }
}
