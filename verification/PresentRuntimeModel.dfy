/**
 The Present path above the registry as a state machine over values: the one-in-flight scheduler, the
 feedback coordinator, and the presentation steps of the visual runtime that drive both. Whatever the
 display hardware, the engine and the fences answer arrives in the inputs of a step.
 */
module PresentRuntimeModel {
  import opened Basics
  import opened PresentationModel

  type Millis = nat

  datatype Queued = Queued(transaction: Tx, surface: nat, notBefore: Millis, deadline: Millis)

  datatype Flight = Flight(transaction: Tx, surface: nat)

  datatype Scheduler = Scheduler(
    queued: seq<Queued>,
    submitted: Option<Flight>,
    firstAcquireDelay: Option<Millis>,
    delayApplied: bool,
    rejectFirst: bool,
    acquireWaits: nat,
    controlledRejections: nat,
    diagnose: bool)

  datatype Gate = Idle | SubmittedInFlight | WaitingAcquire | RejectNow(transaction: Tx) | ReadyNow(transaction: Tx)

  datatype Mode = Flip | Skip

  datatype Feedback = Complete(transaction: Tx, ust: nat, msc: nat, mode: Mode) | IdleNotify(transaction: Tx)

  datatype FeedbackOutcome = FeedbackOutcome(feedback: seq<Feedback>, idleFenceTriggered: bool)

  /**
   How an accepted presentation left the scheduler: with feedback, lost by a failed retirement, or
   discarded by the export diagnostic.
   */
  datatype Settlement =
    | Fed(transaction: Tx, mode: Mode, outcome: FeedbackOutcome)
    | Lost(transaction: Tx)
    | Discarded(transaction: Tx)

  /** `accepted` and `settled` are history: what was enqueued, and how each left, oldest first. */
  datatype Runtime = Runtime(
    registry: Registry,
    scheduler: Scheduler,
    sink: seq<FeedbackOutcome>,
    accepted: seq<Tx>,
    settled: seq<Settlement>)

  // ---------------------------------------------------------------- feedback

  function FeedbackPair(t: Tx, ust: nat, msc: nat, mode: Mode, triggered: bool): FeedbackOutcome {
    FeedbackOutcome([Complete(t, ust, msc, mode), IdleNotify(t)], triggered)
  }

  /** Retires `t` and routes its feedback pair; an unknown presentation is ignored, as its caller ignores it. */
  function Settle(rt: Runtime, t: Tx, ust: nat, msc: nat, mode: Mode, triggers: bool): Runtime {
    if !Retires(rt.registry, t, mode == Flip) then rt
    else match FinishPresent(rt.registry, t, triggers)
      case FinishPanicked => rt // ruled out by the registry invariant
      case Finished(registry, x) =>
        var outcome := FeedbackPair(t, ust, msc, mode, x.idleFence == Triggered);
        rt.(registry := registry, sink := rt.sink + [outcome], settled := rt.settled + [Fed(t, mode, outcome)])
  }

  function RejectGpu(rt: Runtime, t: Tx, triggers: bool): Runtime {
    Settle(rt, t, 0, 0, Skip, triggers)
  }

  function PopFront(rt: Runtime): Runtime {
    if rt.scheduler.queued == [] then rt
    else rt.(scheduler := rt.scheduler.(queued := rt.scheduler.queued[1..]))
  }

  // ---------------------------------------------------------------- enqueue

  /** A Present submission, with what the kernel answers when the registry admits it. */
  datatype Submission = Submission(
    transaction: Tx,
    surface: nat,
    buffer: Handle,
    acquire: Option<Fence>,
    idle: Option<Fence>,
    oracle: BeginOracle)

  datatype SurfaceTransaction = SurfaceTransaction(surface: nat, timeoutMsec: U32)

  function FindSurface(transactions: seq<SurfaceTransaction>, surface: nat): Option<SurfaceTransaction> {
    if transactions == [] then None
    else if transactions[0].surface == surface then Some(transactions[0])
    else FindSurface(transactions[1..], surface)
  }

  function ClampTimeout(timeoutMsec: U32): Millis {
    Max(100, Min(2000, timeoutMsec))
  }

  function Delay(s: Scheduler): Millis {
    if !s.delayApplied && s.firstAcquireDelay.Some? then s.firstAcquireDelay.value else 0
  }

  function Accept(s: Scheduler, x: Submission, timeoutMsec: U32, now: Millis): Scheduler {
    var notBefore := now + Delay(s);
    s.(delayApplied := s.delayApplied || s.firstAcquireDelay.Some?,
       queued := s.queued + [Queued(x.transaction, x.surface, notBefore, notBefore + ClampTimeout(timeoutMsec))])
  }

  /** The submissions of one batch, in order; the first failure ends the batch and keeps what came before. */
  function EnqueueBatch(rt: Runtime, batch: seq<Submission>, transactions: seq<SurfaceTransaction>, now: Millis): Runtime
    decreases |batch|
  {
    if batch == [] then rt
    else
      var x := batch[0];
      var found := FindSurface(transactions, x.surface);
      if found.None? then rt
      else match Begin(rt.registry, x.transaction, x.buffer, x.acquire, x.idle, x.oracle)
        case Err(_) => rt
        case Ok(registry) =>
          EnqueueBatch(
            rt.(registry := registry,
                scheduler := Accept(rt.scheduler, x, found.value.timeoutMsec, now),
                accepted := rt.accepted + [x.transaction]),
            batch[1..], transactions, now)
  }

  /** Enqueuing gives no feedback and settles nothing. */
  lemma {:induction false} EnqueueKeepsRest(rt: Runtime, batch: seq<Submission>,
                                            transactions: seq<SurfaceTransaction>, now: Millis)
    ensures var after := EnqueueBatch(rt, batch, transactions, now);
      after.sink == rt.sink && after.settled == rt.settled
    decreases |batch|
  {
    hide Begin, Accept;
    if batch != [] {
      var x := batch[0];
      var found := FindSurface(transactions, x.surface);
      var begun := Begin(rt.registry, x.transaction, x.buffer, x.acquire, x.idle, x.oracle);
      if found.Some? && begun.Ok? {
        var rt' := rt.(registry := begun.value,
                       scheduler := Accept(rt.scheduler, x, found.value.timeoutMsec, now),
                       accepted := rt.accepted + [x.transaction]);
        EnqueueKeepsRest(rt', batch[1..], transactions, now);
      }
    }
  }

  // ---------------------------------------------------------------- driving

  /** The scheduler's decision about the front of the queue; `query` is what its acquire fence answers. */
  function PollGate(r: Registry, s: Scheduler, now: Millis, query: Option<bool>)
    : (Registry, Scheduler, Result<Gate, Error>)
  {
    if s.submitted.Some? then (r, s, Ok(SubmittedInFlight))
    else if s.queued == [] then (r, s, Ok(Idle))
    else
      var front := s.queued[0];
      var waited := s.(acquireWaits := SaturateUsize(s.acquireWaits + 1));
      if now < front.notBefore then (r, waited, Ok(WaitingAcquire))
      else
        var (r', signaled) := Poll(r, front.transaction, query);
        match signaled
        case Err(e) => (r', s, Err(e))
        case Ok(ready) =>
          if !ready then
            if now >= front.deadline then
              (r', waited.(queued := s.queued[1..]), Ok(RejectNow(front.transaction)))
            else
              (r', waited, Ok(WaitingAcquire))
          else if s.rejectFirst then
            (r',
             s.(rejectFirst := false,
                controlledRejections := SaturateUsize(s.controlledRejections + 1),
                queued := s.queued[1..]),
             Ok(RejectNow(front.transaction)))
          else
            (r', s, Ok(ReadyNow(front.transaction)))
  }

  /** What submitting the composed frame came to. */
  datatype Tick = TickFails | NotSubmitted | SubmitRejected | SubmittedWaitingForPageFlip

  datatype DriveInput = DriveInput(
    now: Millis,
    query: Option<bool>,
    native: bool,
    prepared: bool,
    outputsAgree: bool,
    outputBlocked: bool,
    planesClone: bool,
    tick: Tick,
    triggers: bool,
    failing: set<Tx>)

  /** Whether the mixed frame of a presentation can be built. */
  predicate FrameBuilds(r: Registry, t: Tx, planesClone: bool) {
    t in r.presentations && r.presentations[t].state == Ready && r.presentations[t].source in r.sources && planesClone
  }

  /** The export diagnostic: drops the front without feedback, then empties the whole registry. */
  function Diagnose(rt: Runtime, t: Tx, i: DriveInput): Runtime {
    var popped := PopFront(rt.(scheduler := rt.scheduler.(diagnose := false)));
    match FinishPresent(popped.registry, t, i.triggers)
    case FinishPanicked => popped
    case Finished(registry, _) =>
      match Disconnect(registry, i.failing)
      case SweepPanicked => popped
      case Swept(registry', _) => popped.(registry := registry', settled := popped.settled + [Discarded(t)])
  }

  /** The front is ready: compose it, submit it, and put it in flight. */
  function PresentFront(rt: Runtime, t: Tx, i: DriveInput): Runtime {
    if !i.native || !i.prepared then RejectGpu(PopFront(rt), t, i.triggers)
    else if !i.outputsAgree || i.outputBlocked then rt
    else if !FrameBuilds(rt.registry, t, i.planesClone) then rt
    else if rt.scheduler.diagnose then Diagnose(rt, t, i)
    else match i.tick
      case TickFails => rt
      case NotSubmitted => rt
      case SubmitRejected => RejectGpu(PopFront(rt), t, i.triggers)
      case SubmittedWaitingForPageFlip =>
        if rt.scheduler.queued == [] then rt
        else match Submit(rt.registry, t)
          case Err(_) => rt
          case Ok(registry) =>
            var popped := PopFront(rt.(registry := registry));
            popped.(scheduler := popped.scheduler.(submitted := Some(Flight(t, rt.scheduler.queued[0].surface))))
  }

  function Drive(rt: Runtime, i: DriveInput): Runtime {
    var (registry, scheduler, gate) := PollGate(rt.registry, rt.scheduler, i.now, i.query);
    var polled := rt.(registry := registry, scheduler := scheduler);
    match gate
    case Err(_) => polled
    case Ok(Idle) => polled
    case Ok(SubmittedInFlight) => polled
    case Ok(WaitingAcquire) => polled
    case Ok(RejectNow(t)) => RejectGpu(polled, t, i.triggers)
    case Ok(ReadyNow(t)) => PresentFront(polled, t, i)
  }

  // ---------------------------------------------------------------- retirement and shutdown

  /** A page flip of the primary output; `commits` tells whether the engine commits the prepared surface. */
  function FinalizeFlip(rt: Runtime, ust: nat, msc: nat, commits: bool, triggers: bool): Runtime {
    if rt.scheduler.submitted.None? then rt
    else
      var t := rt.scheduler.submitted.value.transaction;
      var taken := rt.(scheduler := rt.scheduler.(submitted := None));
      if !commits then taken.(settled := taken.settled + [Lost(t)])
      else Settle(taken, t, ust, msc, Flip, triggers)
  }

  function RejectEach(rt: Runtime, ts: seq<Tx>, failing: set<Tx>): Runtime
    decreases |ts|
  {
    if ts == [] then rt else RejectEach(RejectGpu(rt, ts[0], ts[0] !in failing), ts[1..], failing)
  }

  function Txs(queue: seq<Queued>): (ts: seq<Tx>)
    ensures |ts| == |queue|
    ensures forall i :: 0 <= i < |ts| ==> ts[i] == queue[i].transaction
  {
    seq(|queue|, i requires 0 <= i < |queue| => queue[i].transaction)
  }

  function InFlight(s: Scheduler): seq<Tx> {
    if s.submitted.Some? then [s.submitted.value.transaction] else []
  }

  /** Rejects everything still queued in order, then what is in flight. */
  function RejectAll(rt: Runtime, failing: set<Tx>): Runtime {
    var drained := RejectEach(rt.(scheduler := rt.scheduler.(queued := [])), Txs(rt.scheduler.queued), failing);
    RejectEach(drained.(scheduler := drained.scheduler.(submitted := None)), InFlight(drained.scheduler), failing)
  }

  /** The shutdown of the presentation path: reject everything, then disconnect the registry. */
  function Shutdown(rt: Runtime, failing: set<Tx>): (Runtime, Sweep) {
    var rejected := RejectAll(rt, failing);
    var sweep := Disconnect(rejected.registry, failing);
    (if sweep.Swept? then rejected.(registry := sweep.registry) else rejected, sweep)
  }
}
