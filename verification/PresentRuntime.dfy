/**
 The scheduler and the presentation steps of the visual runtime as objects updated in place. Every
 method is tied to the step of `PresentRuntimeModel` it implements; the registry they share is the
 object of `PresentationRegistry`.
 */
module PresentRuntime {
  import opened Basics
  import opened PresentationModel
  import opened PresentationRegistry
  import opened PresentRuntimeModel

  class LiveProductionPresentScheduler {
    var queued: seq<Queued>
    var submitted: Option<Flight>
    const firstAcquireDelay: Option<Millis>
    var delayApplied: bool
    var rejectFirst: bool
    var acquireWaits: nat
    var controlledRejections: nat
    var diagnose: bool

    function Abs(): Scheduler
      reads this
    {
      Scheduler(queued, submitted, firstAcquireDelay, delayApplied, rejectFirst, acquireWaits, controlledRejections, diagnose)
    }

    constructor WithControls(firstAcquireDelay: Option<Millis>, rejectFirst: bool, diagnose: bool)
      ensures Abs() == Scheduler([], None, firstAcquireDelay, false, rejectFirst, 0, 0, diagnose)
    {
      this.firstAcquireDelay := firstAcquireDelay;
      this.rejectFirst, this.diagnose := rejectFirst, diagnose;
      queued, submitted, delayApplied, acquireWaits, controlledRejections := [], None, false, 0, 0;
    }

    /** Stops at the first submission that has no surface transaction or that the registry refuses. */
    method EnqueueBatch(batch: seq<Submission>, transactions: seq<SurfaceTransaction>,
                        resources: LiveDmaBufPresentationRegistry, now: Millis, ghost before: Runtime)
      returns (ok: bool, ghost after: Runtime)
      requires resources.Valid()
      requires before.registry == resources.Abs() && before.scheduler == Abs()
      modifies this, resources
      ensures resources.Valid()
      ensures after == PresentRuntimeModel.EnqueueBatch(before, batch, transactions, now)
      ensures after.registry == resources.Abs() && after.scheduler == Abs()
      ensures ok <==> |after.accepted| == |before.accepted| + |batch|
    {
      hide Inv, Begin;
      after := before;
      var i := 0;
      while i < |batch|
        invariant 0 <= i <= |batch|
        invariant resources.Valid()
        invariant after.registry == resources.Abs() && after.scheduler == Abs()
        invariant |after.accepted| == |before.accepted| + i
        invariant PresentRuntimeModel.EnqueueBatch(after, batch[i..], transactions, now)
               == PresentRuntimeModel.EnqueueBatch(before, batch, transactions, now)
      {
        var x := batch[i];
        assert batch[i..][1..] == batch[i + 1..];
        var found := FindSurface(transactions, x.surface);
        if found.None? {
          return false, after;
        }
        var begun := resources.BeginPresent(x.transaction, x.buffer, x.acquire, x.idle, x.oracle);
        if begun.Err? {
          return false, after;
        }
        var acquireDelay := 0;
        if !delayApplied && firstAcquireDelay.Some? {
          delayApplied := true;
          acquireDelay := firstAcquireDelay.value;
        }
        var notBefore := now + acquireDelay;
        queued := queued + [Queued(x.transaction, x.surface, notBefore, notBefore + ClampTimeout(found.value.timeoutMsec))];
        after := after.(registry := resources.Abs(), scheduler := Abs(), accepted := after.accepted + [x.transaction]);
        i := i + 1;
      }
      return true, after;
    }

    method PollGate(resources: LiveDmaBufPresentationRegistry, now: Millis, query: Option<bool>)
      returns (gate: Result<Gate, Error>)
      requires resources.Valid()
      modifies this, resources
      ensures resources.Valid()
      ensures (resources.Abs(), Abs(), gate) == PresentRuntimeModel.PollGate(old(resources.Abs()), old(Abs()), now, query)
    {
      hide Inv, Poll;
      if submitted.Some? {
        return Ok(SubmittedInFlight);
      }
      if queued == [] {
        return Ok(Idle);
      }
      var front := queued[0];
      if now < front.notBefore {
        acquireWaits := SaturateUsize(acquireWaits + 1);
        return Ok(WaitingAcquire);
      }
      var signaled := resources.PollAcquireFence(front.transaction, query);
      if signaled.Err? {
        return Err(signaled.error);
      }
      if !signaled.value {
        acquireWaits := SaturateUsize(acquireWaits + 1);
        if now >= front.deadline {
          queued := queued[1..];
          return Ok(RejectNow(front.transaction));
        }
        return Ok(WaitingAcquire);
      }
      if rejectFirst {
        rejectFirst := false;
        controlledRejections := SaturateUsize(controlledRejections + 1);
        queued := queued[1..];
        return Ok(RejectNow(front.transaction));
      }
      return Ok(ReadyNow(front.transaction));
    }

    method PopFront()
      modifies this
      ensures Abs() == old(Abs()).(queued := if old(queued) == [] then [] else old(queued)[1..])
    {
      if queued != [] {
        queued := queued[1..];
      }
    }

    method MarkSubmitted(flight: Flight)
      modifies this
      ensures Abs() == old(Abs()).(submitted := Some(flight))
    {
      submitted := Some(flight);
    }

    method TakeSubmitted() returns (flight: Option<Flight>)
      modifies this
      ensures flight == old(submitted) && Abs() == old(Abs()).(submitted := None)
    {
      flight := submitted;
      submitted := None;
    }

    method DrainTransactions() returns (ts: seq<Tx>)
      modifies this
      ensures ts == Txs(old(queued)) && Abs() == old(Abs()).(queued := [])
    {
      ts := Txs(queued);
      queued := [];
    }

    method TakeDiagnose() returns (was: bool)
      modifies this
      ensures was == old(diagnose) && Abs() == old(Abs()).(diagnose := false)
    {
      was := diagnose;
      diagnose := false;
    }
  }

  class LiveProductionVisualRuntime {
    const resources: LiveDmaBufPresentationRegistry
    const scheduler: LiveProductionPresentScheduler
    var sink: seq<FeedbackOutcome>
    ghost var accepted: seq<Tx>
    ghost var settled: seq<Settlement>

    ghost function Abs(): Runtime
      reads this, resources, scheduler
    {
      Runtime(resources.Abs(), scheduler.Abs(), sink, accepted, settled)
    }

    ghost predicate Valid()
      reads this, resources
    {
      resources.Valid()
    }

    constructor (limits: Limits, firstAcquireDelay: Option<Millis>, rejectFirst: bool, diagnose: bool)
      ensures Valid() && fresh(resources) && fresh(scheduler)
      ensures Abs() == Runtime(
        Empty(limits), Scheduler([], None, firstAcquireDelay, false, rejectFirst, 0, 0, diagnose), [], [], [])
    {
      resources := new LiveDmaBufPresentationRegistry.WithLimits(limits);
      scheduler := new LiveProductionPresentScheduler.WithControls(firstAcquireDelay, rejectFirst, diagnose);
      sink, accepted, settled := [], [], [];
    }

    method Enqueue(batch: seq<Submission>, transactions: seq<SurfaceTransaction>, now: Millis) returns (ok: bool)
      requires Valid()
      modifies this, resources, scheduler
      ensures Valid() && Abs() == EnqueueBatch(old(Abs()), batch, transactions, now)
      ensures ok <==> |accepted| == |old(accepted)| + |batch|
    {
      hide Inv;
      ghost var after;
      ok, after := scheduler.EnqueueBatch(batch, transactions, resources, now, Abs());
      EnqueueKeepsRest(old(Abs()), batch, transactions, now);
      accepted := after.accepted;
    }

    method RejectGpuPresentation(t: Tx, triggers: bool)
      requires Valid()
      modifies this, resources
      ensures Valid() && Abs() == RejectGpu(old(Abs()), t, triggers)
    {
      hide Inv, FinishPresent;
      var retirement := resources.Reject(t, triggers);
      if retirement.Some? {
        var outcome := FeedbackPair(t, 0, 0, Skip, retirement.value.idleFence == Triggered);
        sink := sink + [outcome];
        settled := settled + [Fed(t, Skip, outcome)];
      }
    }

    method DriveGpuPresentation(i: DriveInput)
      requires Valid()
      modifies this, resources, scheduler
      ensures Valid() && Abs() == Drive(old(Abs()), i)
    {
      hide Inv, FinishPresent, Disconnect, Submit, RejectGpu;
      var gate := scheduler.PollGate(resources, i.now, i.query);
      if gate.Err? {
        return;
      }
      match gate.value {
        case Idle =>
        case SubmittedInFlight =>
        case WaitingAcquire =>
        case RejectNow(t) =>
          RejectGpuPresentation(t, i.triggers);
        case ReadyNow(t) =>
          PresentReady(t, i);
      }
    }

    method PresentReady(t: Tx, i: DriveInput)
      requires Valid()
      modifies this, resources, scheduler
      ensures Valid() && Abs() == PresentFront(old(Abs()), t, i)
    {
      hide Inv, FinishPresent, Disconnect, Submit, RejectGpu;
      if !i.native || !i.prepared {
        scheduler.PopFront();
        RejectGpuPresentation(t, i.triggers);
        return;
      }
      if !i.outputsAgree || i.outputBlocked {
        return;
      }
      if !FrameBuilds(resources.Abs(), t, i.planesClone) {
        return;
      }
      if scheduler.diagnose {
        RunDiagnostic(t, i);
        return;
      }
      match i.tick {
        case TickFails =>
        case NotSubmitted =>
        case SubmitRejected =>
          scheduler.PopFront();
          RejectGpuPresentation(t, i.triggers);
        case SubmittedWaitingForPageFlip =>
          if scheduler.queued != [] {
            var surface := scheduler.queued[0].surface;
            var marked := resources.SubmitPresent(t);
            if marked.Ok? {
              scheduler.PopFront();
              scheduler.MarkSubmitted(Flight(t, surface));
            }
          }
      }
    }

    method RunDiagnostic(t: Tx, i: DriveInput)
      requires Valid() && t in resources.presentations
      modifies this, resources, scheduler
      ensures Valid() && Abs() == Diagnose(old(Abs()), t, i)
    {
      hide Inv, FinishPresent, Disconnect;
      var _ := scheduler.TakeDiagnose();
      scheduler.PopFront();
      var _ := resources.Reject(t, i.triggers);
      var _ := resources.Disconnect(i.failing);
      settled := settled + [Discarded(t)];
    }

    method FinalizeGpuPageFlip(ust: nat, msc: nat, commits: bool, triggers: bool) returns (retired: Option<Flight>)
      requires Valid()
      modifies this, resources, scheduler
      ensures Valid() && Abs() == FinalizeFlip(old(Abs()), ust, msc, commits, triggers)
      ensures retired == if commits && old(scheduler.submitted.Some?
                                           && Retires(resources.Abs(), scheduler.submitted.value.transaction, true))
                         then old(scheduler.submitted) else None
    {
      hide Inv, FinishPresent;
      var flight := scheduler.TakeSubmitted();
      if flight.None? {
        return None;
      }
      var t := flight.value.transaction;
      if !commits {
        settled := settled + [Lost(t)];
        return None;
      }
      var retirement := resources.RetirePageFlip(t, triggers);
      if retirement.None? {
        return None;
      }
      var outcome := FeedbackPair(t, ust, msc, Flip, retirement.value.idleFence == Triggered);
      sink := sink + [outcome];
      settled := settled + [Fed(t, Flip, outcome)];
      return flight;
    }

    method ShutdownPresentations(failing: set<Tx>) returns (report: DisconnectReport)
      requires Valid()
      modifies this, resources, scheduler
      ensures Valid() && (Abs(), Swept(resources.Abs(), report)) == Shutdown(old(Abs()), failing)
    {
      hide Inv, FinishPresent, RejectGpu;
      var transactions := scheduler.DrainTransactions();
      RejectAllOf(transactions, failing);
      var flight := scheduler.TakeSubmitted();
      if flight.Some? {
        RejectAllOf([flight.value.transaction], failing);
      }
      report := resources.Disconnect(failing);
    }

    method RejectAllOf(transactions: seq<Tx>, failing: set<Tx>)
      requires Valid()
      modifies this, resources
      ensures Valid() && Abs() == RejectEach(old(Abs()), transactions, failing)
    {
      hide Inv, FinishPresent, RejectGpu;
      ghost var before := Abs();
      var i := 0;
      while i < |transactions|
        invariant 0 <= i <= |transactions| && Valid()
        invariant RejectEach(Abs(), transactions[i..], failing) == RejectEach(before, transactions, failing)
      {
        assert transactions[i..][1..] == transactions[i + 1..];
        RejectGpuPresentation(transactions[i], transactions[i] !in failing);
        i := i + 1;
      }
    }
  }
}
