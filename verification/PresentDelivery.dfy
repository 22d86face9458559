/**
 What becomes of a presentation, call by call: how a batch is queued, what a drive does with the front of
 the queue in each situation, and what a flip tells the client. The last theorem puts them together: with
 fences signaled and the display in order, the whole queue is shown, in order, each with its own flip's time.
 */
module PresentDelivery {
  import opened Basics
  import opened PresentationModel
  import opened PresentationAnswers
  import opened PresentRuntimeModel
  import opened PresentRuntimeProofs
  import Runs = PresentRuntimeProofs

  // ---------------------------------------------------------------- queueing

  /** The first transaction of the surface, which is the one whose timeout counts. */
  ghost predicate IsFirstFor(transactions: seq<SurfaceTransaction>, k: nat, surface: nat) {
    && k < |transactions| && transactions[k].surface == surface
    && forall j :: 0 <= j < k ==> transactions[j].surface != surface
  }

  lemma {:induction false} FindsFirst(transactions: seq<SurfaceTransaction>, surface: nat)
    ensures var found := FindSurface(transactions, surface);
      && (found.None? <==> forall k :: 0 <= k < |transactions| ==> transactions[k].surface != surface)
      && (found.Some? ==> exists k: nat :: IsFirstFor(transactions, k, surface) && found.value == transactions[k])
  {
    if transactions != [] {
      if transactions[0].surface == surface {
        assert IsFirstFor(transactions, 0, surface);
      } else {
        var rest := transactions[1..];
        FindsFirst(rest, surface);
        if FindSurface(rest, surface).Some? {
          var k: nat :| IsFirstFor(rest, k, surface) && FindSurface(rest, surface).value == rest[k];
          assert IsFirstFor(transactions, k + 1, surface) by {
            forall j | 0 <= j < k + 1 ensures transactions[j].surface != surface {
              assert j > 0 ==> transactions[j] == rest[j - 1];
            }
          }
          assert transactions[k + 1] == rest[k];
        }
        if forall k :: 0 <= k < |rest| ==> rest[k].surface != surface {
          forall k | 0 <= k < |transactions| ensures transactions[k].surface != surface {
            assert k > 0 ==> transactions[k] == rest[k - 1];
          }
        }
        if forall k :: 0 <= k < |transactions| ==> transactions[k].surface != surface {
          forall k | 0 <= k < |rest| ensures rest[k].surface != surface {
            assert rest[k] == transactions[k + 1];
          }
        }
      }
    }
  }

  /** The entry is the submission's, held back by `delay`, with its surface's timeout kept between 100 and 2000 ms. */
  ghost predicate QueuedAs(q: Queued, x: Submission, transactions: seq<SurfaceTransaction>, now: Millis, delay: Millis) {
    && q.transaction == x.transaction && q.surface == x.surface && q.notBefore == now + delay
    && exists k: nat :: IsFirstFor(transactions, k, x.surface) &&
         var timeout := transactions[k].timeoutMsec;
         q.deadline == q.notBefore + (if timeout < 100 then 100 else if timeout > 2000 then 2000 else timeout)
  }

  /** The submission has no surface transaction, or the registry refuses it. */
  ghost predicate Refused(r: Registry, x: Submission, transactions: seq<SurfaceTransaction>) {
    || (forall k :: 0 <= k < |transactions| ==> transactions[k].surface != x.surface)
    || Begin(r, x.transaction, x.buffer, x.acquire, x.idle, x.oracle).Err?
  }

  /** The acquire delay goes to the first presentation the scheduler ever accepts, and to no other. */
  function DelayOf(s: Scheduler, i: nat): Millis {
    if i == 0 && !s.delayApplied && s.firstAcquireDelay.Some? then s.firstAcquireDelay.value else 0
  }

  /**
   A batch is accepted in order up to the first refusal: `n` submissions join the queue, each with its own
   surface, earliest time and deadline, and the next one, if any, is refused by what then is registered.
   */
  lemma {:induction false} BatchIsQueued(rt: Runtime, batch: seq<Submission>, transactions: seq<SurfaceTransaction>, now: Millis)
    returns (n: nat)
    ensures var after := EnqueueBatch(rt, batch, transactions, now);
      && n <= |batch|
      && |after.scheduler.queued| == |rt.scheduler.queued| + n
      && after.scheduler.queued[..|rt.scheduler.queued|] == rt.scheduler.queued
      && (forall i :: 0 <= i < n ==>
            QueuedAs(after.scheduler.queued[|rt.scheduler.queued| + i], batch[i], transactions, now, DelayOf(rt.scheduler, i)))
      && (n < |batch| ==> Refused(after.registry, batch[n], transactions))
      && after.accepted == rt.accepted + Txs(after.scheduler.queued[|rt.scheduler.queued|..])
      && after.scheduler.submitted == rt.scheduler.submitted
      && after.scheduler.firstAcquireDelay == rt.scheduler.firstAcquireDelay
      && (after.scheduler.delayApplied <==>
            rt.scheduler.delayApplied || (n > 0 && rt.scheduler.firstAcquireDelay.Some?))
    decreases |batch|
  {
    hide Begin, QueuedAs, IsFirstFor;
    var after := EnqueueBatch(rt, batch, transactions, now);
    if batch == [] {
      n := 0;
      NothingQueued(rt);
    } else {
      var x := batch[0];
      FindsFirst(transactions, x.surface);
      var found := FindSurface(transactions, x.surface);
      var begun := Begin(rt.registry, x.transaction, x.buffer, x.acquire, x.idle, x.oracle);
      if found.None? || begun.Err? {
        n := 0;
        NothingQueued(rt);
      } else {
        var scheduler := Accept(rt.scheduler, x, found.value.timeoutMsec, now);
        var rt' := rt.(registry := begun.value, scheduler := scheduler, accepted := rt.accepted + [x.transaction]);
        AcceptedAs(rt.scheduler, x, transactions, now);
        var m := BatchIsQueued(rt', batch[1..], transactions, now);
        n := m + 1;
        QueueGrew(rt, rt', after, x.transaction);
        forall i | 0 <= i < n
          ensures QueuedAs(after.scheduler.queued[|rt.scheduler.queued| + i], batch[i], transactions, now, DelayOf(rt.scheduler, i))
        {
          if i == 0 {
            assert after.scheduler.queued[|rt.scheduler.queued|] == scheduler.queued[|rt.scheduler.queued|];
          } else {
            assert batch[i] == batch[1..][i - 1];
            assert DelayOf(rt.scheduler, i) == DelayOf(scheduler, i - 1);
          }
        }
      }
    }
  }

  lemma NothingQueued(rt: Runtime)
    ensures rt.scheduler.queued[..|rt.scheduler.queued|] == rt.scheduler.queued
    ensures rt.accepted == rt.accepted + Txs(rt.scheduler.queued[|rt.scheduler.queued|..])
  {
  }

  lemma QueueGrew(rt: Runtime, mid: Runtime, after: Runtime, t: Tx)
    requires |mid.scheduler.queued| == |rt.scheduler.queued| + 1 <= |after.scheduler.queued|
    requires mid.scheduler.queued[..|rt.scheduler.queued|] == rt.scheduler.queued
    requires mid.scheduler.queued[|rt.scheduler.queued|].transaction == t
    requires after.scheduler.queued[..|mid.scheduler.queued|] == mid.scheduler.queued
    requires mid.accepted == rt.accepted + [t]
    requires after.accepted == mid.accepted + Txs(after.scheduler.queued[|mid.scheduler.queued|..])
    ensures after.scheduler.queued[..|rt.scheduler.queued|] == rt.scheduler.queued
    ensures after.accepted == rt.accepted + Txs(after.scheduler.queued[|rt.scheduler.queued|..])
  {
    var n := |rt.scheduler.queued|;
    var queue := after.scheduler.queued;
    PrefixOfPrefix(queue, mid.scheduler.queued, n);
    TxsSplit(queue, n);
    assert after.accepted == rt.accepted + ([t] + Txs(queue[n + 1..]));
  }

  lemma PrefixOfPrefix(queue: seq<Queued>, mid: seq<Queued>, n: nat)
    requires n < |mid| <= |queue| && queue[..|mid|] == mid
    ensures queue[n] == mid[n] && queue[..n] == mid[..n]
  {
    assert queue[..|mid|][..n] == queue[..n];
  }

  lemma TxsSplit(queue: seq<Queued>, n: nat)
    requires n < |queue|
    ensures Txs(queue[n..]) == [queue[n].transaction] + Txs(queue[n + 1..])
  {
    var tail := queue[n..];
    assert tail[1..] == queue[n + 1..];
    assert Txs(tail)[1..] == Txs(tail[1..]);
  }

  lemma AcceptedAs(s: Scheduler, x: Submission, transactions: seq<SurfaceTransaction>, now: Millis)
    requires FindSurface(transactions, x.surface).Some?
    ensures var after := Accept(s, x, FindSurface(transactions, x.surface).value.timeoutMsec, now);
      && |after.queued| == |s.queued| + 1 && after.queued[..|s.queued|] == s.queued
      && QueuedAs(after.queued[|s.queued|], x, transactions, now, DelayOf(s, 0))
      && after.submitted == s.submitted && after.firstAcquireDelay == s.firstAcquireDelay
      && (after.delayApplied <==> s.delayApplied || s.firstAcquireDelay.Some?)
  {
    FindsFirst(transactions, x.surface);
    var k: nat :| IsFirstFor(transactions, k, x.surface) && FindSurface(transactions, x.surface).value == transactions[k];
    var after := Accept(s, x, transactions[k].timeoutMsec, now);
    assert after.queued[|s.queued|].deadline == after.queued[|s.queued|].notBefore + ClampTimeout(transactions[k].timeoutMsec);
  }

  // ---------------------------------------------------------------- driving

  /** With nothing in flight, the time of the front has come. */
  predicate Due(rt: Runtime, now: Millis) {
    rt.scheduler.submitted.None? && rt.scheduler.queued != [] && now >= rt.scheduler.queued[0].notBefore
  }

  /** The front is ready, or its fence answers that it has signaled. */
  predicate FrontReady(rt: Runtime, query: Option<bool>)
    requires rt.scheduler.queued != []
  {
    var t := rt.scheduler.queued[0].transaction;
    && t in rt.registry.presentations
    && (|| rt.registry.presentations[t].state == Ready
        || (rt.registry.presentations[t].state == WaitingForAcquireFence && query == Some(true)))
  }

  predicate FrontWaits(rt: Runtime)
    requires rt.scheduler.queued != []
  {
    var t := rt.scheduler.queued[0].transaction;
    t in rt.registry.presentations && rt.registry.presentations[t].state == WaitingForAcquireFence
  }

  /** Nothing happens to a front whose time has not come, or whose fence has not signaled before its deadline. */
  lemma FrontIsAwaited(rt: Runtime, i: DriveInput)
    requires Agree(rt) && rt.scheduler.submitted.None? && rt.scheduler.queued != []
    requires
      || i.now < rt.scheduler.queued[0].notBefore
      || (FrontWaits(rt) && i.query == Some(false) && i.now < rt.scheduler.queued[0].deadline)
    ensures Drive(rt, i) ==
      rt.(scheduler := rt.scheduler.(acquireWaits := SaturateUsize(rt.scheduler.acquireWaits + 1)))
  {
    hide Poll;
    AgreementHasInv(rt);
    if FrontWaits(rt) {
      PollFollowsFence(rt.registry, rt.scheduler.queued[0].transaction, i.query);
    }
  }

  /** Nor to one whose fence cannot be queried, except that the drive fails. */
  lemma FailedQueryChangesNothing(rt: Runtime, i: DriveInput)
    requires Agree(rt) && Due(rt, i.now) && FrontWaits(rt) && i.query.None?
    ensures Drive(rt, i) == rt
    ensures PollGate(rt.registry, rt.scheduler, i.now, i.query).2 == Err(FenceQueryFailed)
  {
    hide Poll;
    AgreementHasInv(rt);
    PollFollowsFence(rt.registry, rt.scheduler.queued[0].transaction, i.query);
  }

  /** A due and ready front passes the gate, unless the one controlled rejection is due. */
  lemma ReadyFrontPasses(rt: Runtime, i: DriveInput)
    requires Agree(rt) && Due(rt, i.now) && FrontReady(rt, i.query)
    ensures var t := rt.scheduler.queued[0].transaction;
      var (registry, scheduler, gate) := PollGate(rt.registry, rt.scheduler, i.now, i.query);
      && t in registry.presentations && registry.presentations[t].state == Ready
      && registry.presentations[t].source in registry.sources
      && registry.presentations[t].idleFence == rt.registry.presentations[t].idleFence
      && (!rt.scheduler.rejectFirst ==> scheduler == rt.scheduler && gate == Ok(ReadyNow(t)))
      && (rt.scheduler.rejectFirst ==>
            && gate == Ok(RejectNow(t))
            && scheduler.queued == rt.scheduler.queued[1..] && !scheduler.rejectFirst
            && scheduler.controlledRejections == SaturateUsize(rt.scheduler.controlledRejections + 1))
  {
    AgreementHasInv(rt);
    var t := rt.scheduler.queued[0].transaction;
    assert PresentOk(rt.registry, rt.registry.presentations[t]);
  }

  /** What the client is told, and in which order, when a presentation is skipped. */
  ghost predicate SkippedFront(rt: Runtime, after: Runtime, triggers: bool)
    requires rt.scheduler.queued != [] && rt.scheduler.queued[0].transaction in rt.registry.presentations
  {
    var t := rt.scheduler.queued[0].transaction;
    && after.sink == rt.sink + [FeedbackOutcome(
         [Complete(t, 0, 0, Skip), IdleNotify(t)], rt.registry.presentations[t].idleFence.Some? && triggers)]
    && after.scheduler.queued == rt.scheduler.queued[1..]
    && after.scheduler.submitted.None?
    && after.registry.presentations.Keys == rt.registry.presentations.Keys - {t}
  }

  lemma SettledFeedback(rt: Runtime, t: Tx, ust: nat, msc: nat, mode: Mode, triggers: bool)
    requires Inv(rt.registry) && t in rt.registry.presentations
    requires mode == Flip ==> rt.registry.presentations[t].state == Submitted
    ensures var after := Settle(rt, t, ust, msc, mode, triggers);
      && after.sink == rt.sink + [FeedbackOutcome(
           [Complete(t, ust, msc, mode), IdleNotify(t)], rt.registry.presentations[t].idleFence.Some? && triggers)]
      && after.scheduler == rt.scheduler
      && after.registry.presentations == rt.registry.presentations - {t}
  {
    hide FinishPresent, Inv;
    InvParts(rt.registry, t);
    FinishEffect(rt.registry, t, triggers);
  }

  /** The one controlled rejection skips a ready front and is spent. */
  lemma ControlledRejectionSkipsOnce(rt: Runtime, i: DriveInput)
    requires RuntimeOk(rt) && Due(rt, i.now) && FrontReady(rt, i.query) && rt.scheduler.rejectFirst
    ensures SkippedFront(rt, Drive(rt, i), i.triggers)
    ensures !Drive(rt, i).scheduler.rejectFirst
    ensures Drive(rt, i).scheduler.controlledRejections == SaturateUsize(rt.scheduler.controlledRejections + 1)
  {
    hide Settle, PollGate, RuntimeOk;
    OkAgrees(rt);
    ReadyFrontPasses(rt, i);
    PolledAgrees(rt, i);
    var (registry, scheduler, _) := PollGate(rt.registry, rt.scheduler, i.now, i.query);
    var t := rt.scheduler.queued[0].transaction;
    SettledFeedback(rt.(registry := registry, scheduler := scheduler), t, 0, 0, Skip, i.triggers);
  }

  lemma PolledAgrees(rt: Runtime, i: DriveInput)
    requires RuntimeOk(rt)
    ensures var (registry, scheduler, gate) := PollGate(rt.registry, rt.scheduler, i.now, i.query);
      && Inv(registry)
      && registry.presentations.Keys == rt.registry.presentations.Keys
      && scheduler.submitted == rt.scheduler.submitted
  {
    hide Inv;
    AgreementHasInv(rt);
    if rt.scheduler.queued != [] {
      var t := rt.scheduler.queued[0].transaction;
      HeadIsRegistered(rt);
      InvParts(rt.registry, t);
      PollKeepsInv(rt.registry, t, i.query);
      PollEffect(rt.registry, t, i.query);
    }
  }

  /** The display and the engine are in order, and the frame can be built. */
  predicate CanPresent(i: DriveInput) {
    i.native && i.prepared && i.outputsAgree && !i.outputBlocked && i.planesClone
  }

  /** A due and ready front whose frame is submitted is what is in flight afterwards, and only then leaves the queue. */
  lemma ReadyFrontIsLaunched(rt: Runtime, i: DriveInput)
    requires RuntimeOk(rt) && Due(rt, i.now) && FrontReady(rt, i.query) && !rt.scheduler.rejectFirst && !rt.scheduler.diagnose
    requires CanPresent(i) && i.tick == SubmittedWaitingForPageFlip
    ensures var front := rt.scheduler.queued[0];
      var after := Drive(rt, i);
      && after.scheduler == rt.scheduler.(
           queued := rt.scheduler.queued[1..], submitted := Some(Flight(front.transaction, front.surface)))
      && after.sink == rt.sink && after.settled == rt.settled && after.accepted == rt.accepted
      && after.registry.presentations.Keys == rt.registry.presentations.Keys
      && after.registry.presentations[front.transaction].state == Submitted
      && after.registry.presentations[front.transaction].idleFence == rt.registry.presentations[front.transaction].idleFence
  {
    hide PollGate, RuntimeOk, Inv;
    OkAgrees(rt);
    ReadyFrontPasses(rt, i);
    PolledAgrees(rt, i);
    var t := rt.scheduler.queued[0].transaction;
    var registry := PollGate(rt.registry, rt.scheduler, i.now, i.query).0;
    SubmitEffect(registry, t);
  }

  /** Without a display, or when the engine is not ready or the frame is refused, the front is skipped. */
  lemma ReadyFrontIsSkipped(rt: Runtime, i: DriveInput)
    requires RuntimeOk(rt) && Due(rt, i.now) && FrontReady(rt, i.query) && !rt.scheduler.rejectFirst
    requires !i.native || !i.prepared || (!rt.scheduler.diagnose && CanPresent(i) && i.tick == SubmitRejected)
    ensures SkippedFront(rt, Drive(rt, i), i.triggers)
  {
    hide Settle, PollGate, RuntimeOk, Inv;
    OkAgrees(rt);
    ReadyFrontPasses(rt, i);
    PolledAgrees(rt, i);
    var (registry, scheduler, _) := PollGate(rt.registry, rt.scheduler, i.now, i.query);
    var t := rt.scheduler.queued[0].transaction;
    SettledFeedback(PopFront(rt.(registry := registry, scheduler := scheduler)), t, 0, 0, Skip, i.triggers);
  }

  /** While the outputs are blocked or the frame is not submitted, the front stays at the head of the queue, ready. */
  lemma ReadyFrontIsKept(rt: Runtime, i: DriveInput)
    requires RuntimeOk(rt) && Due(rt, i.now) && FrontReady(rt, i.query) && !rt.scheduler.rejectFirst
    requires i.native && i.prepared
    requires
      || !i.outputsAgree || i.outputBlocked || !i.planesClone
      || (!rt.scheduler.diagnose && (i.tick == TickFails || i.tick == NotSubmitted))
    ensures var t := rt.scheduler.queued[0].transaction;
      var after := Drive(rt, i);
      && after.scheduler == rt.scheduler && after.sink == rt.sink && after.settled == rt.settled
      && t in after.registry.presentations && after.registry.presentations[t].state == Ready
  {
    hide PollGate, RuntimeOk, Inv;
    OkAgrees(rt);
    ReadyFrontPasses(rt, i);
  }

  // ---------------------------------------------------------------- flips

  /** A committed flip tells the client its own time, and whether the idle fence was triggered. */
  lemma FlipFeedsBack(rt: Runtime, ust: nat, msc: nat, triggers: bool)
    requires Agree(rt) && rt.scheduler.submitted.Some?
    ensures var t := rt.scheduler.submitted.value.transaction;
      var after := FinalizeFlip(rt, ust, msc, true, triggers);
      && t in rt.registry.presentations
      && after.sink == rt.sink + [FeedbackOutcome(
           [Complete(t, ust, msc, Flip), IdleNotify(t)], rt.registry.presentations[t].idleFence.Some? && triggers)]
      && after.scheduler == rt.scheduler.(submitted := None)
      && after.registry.presentations == rt.registry.presentations - {t}
  {
    hide Settle, Inv;
    AgreementHasInv(rt);
    var t := rt.scheduler.submitted.value.transaction;
    FlightIsSubmitted(rt);
    SettledFeedback(rt.(scheduler := rt.scheduler.(submitted := None)), t, ust, msc, Flip, triggers);
  }

  lemma FlightIsSubmitted(rt: Runtime)
    requires Agree(rt) && rt.scheduler.submitted.Some?
    ensures var t := rt.scheduler.submitted.value.transaction;
      t in rt.registry.presentations && rt.registry.presentations[t].state == Submitted
  {
    var t := rt.scheduler.submitted.value.transaction;
    assert Launched(rt)[|Launched(rt)| - 1] == t;
    assert t in Launched(rt);
  }

  /** A flip the engine does not commit tells nobody; one with nothing in flight does nothing. */
  lemma QuietFlips(rt: Runtime, ust: nat, msc: nat, commits: bool, triggers: bool)
    requires rt.scheduler.submitted.None? || !commits
    ensures var after := FinalizeFlip(rt, ust, msc, commits, triggers);
      && after.sink == rt.sink && after.registry == rt.registry
      && after.scheduler == rt.scheduler.(submitted := None)
  {
  }

  // ---------------------------------------------------------------- the whole queue

  /** For each flip, a drive and then that flip. */
  function Presenting(i: DriveInput, flips: seq<(nat, nat)>, triggers: bool): seq<Runs.Op>
    decreases |flips|
  {
    if flips == [] then []
    else [OpDrive(i), OpFlip(flips[0].0, flips[0].1, true, triggers)] + Presenting(i, flips[1..], triggers)
  }

  /** The entry of the sink is the flip of the queued presentation, with the flip's own time. */
  ghost predicate ShownBy(o: FeedbackOutcome, q: Queued, flip: (nat, nat)) {
    o.feedback == [Complete(q.transaction, flip.0, flip.1, Flip), IdleNotify(q.transaction)]
  }

  lemma FrontIsShown(rt: Runtime, i: DriveInput, flip: (nat, nat), triggers: bool)
    requires RuntimeOk(rt) && Due(rt, i.now) && !rt.scheduler.rejectFirst && !rt.scheduler.diagnose
    requires CanPresent(i) && i.tick == SubmittedWaitingForPageFlip && i.query == Some(true)
    ensures var after := Runs.Step(Runs.Step(rt, OpDrive(i)), OpFlip(flip.0, flip.1, true, triggers));
      && RuntimeOk(after)
      && after.scheduler == rt.scheduler.(queued := rt.scheduler.queued[1..])
      && |after.sink| == |rt.sink| + 1 && rt.sink <= after.sink
      && ShownBy(after.sink[|rt.sink|], rt.scheduler.queued[0], flip)
  {
    hide RuntimeOk, Drive, FinalizeFlip, Agree;
    FrontCanBeReady(rt, i.query);
    ReadyFrontIsLaunched(rt, i);
    OffStaysOff(rt, OpDrive(i));
    StepOkIff(rt, OpDrive(i));
    var mid := Runs.Step(rt, OpDrive(i));
    OkAgrees(mid);
    FlipFeedsBack(mid, flip.0, flip.1, triggers);
    OffStaysOff(mid, OpFlip(flip.0, flip.1, true, triggers));
    StepOkIff(mid, OpFlip(flip.0, flip.1, true, triggers));
  }

  /** With nothing in flight, a queued presentation is ready or waits for its fence. */
  lemma FrontCanBeReady(rt: Runtime, query: Option<bool>)
    requires RuntimeOk(rt) && rt.scheduler.submitted.None? && rt.scheduler.queued != [] && query == Some(true)
    ensures FrontReady(rt, query)
  {
    HeadIsRegistered(rt);
    DistinctParts(Launched(rt), Txs(rt.scheduler.queued));
  }

  /**
   With nothing in flight, every fence signaled, and display and engine in order, `|queue|` drives, each
   followed by its flip, show the whole queue in order, each presentation with the time of its own flip.
   */
  lemma {:induction false} QueueIsShown(rt: Runtime, i: DriveInput, flips: seq<(nat, nat)>, triggers: bool)
    requires RuntimeOk(rt) && rt.scheduler.submitted.None? && |flips| == |rt.scheduler.queued|
    requires forall q :: q in rt.scheduler.queued ==> i.now >= q.notBefore
    requires !rt.scheduler.rejectFirst && !rt.scheduler.diagnose
    requires CanPresent(i) && i.tick == SubmittedWaitingForPageFlip && i.query == Some(true)
    ensures var after := Runs.Run(rt, Presenting(i, flips, triggers));
      && RuntimeOk(after)
      && after.scheduler.queued == [] && after.scheduler.submitted.None?
      && |after.sink| == |rt.sink| + |flips| && rt.sink <= after.sink
      && (forall k :: 0 <= k < |flips| ==> ShownBy(after.sink[|rt.sink| + k], rt.scheduler.queued[k], flips[k]))
    decreases |flips|
  {
    hide RuntimeOk, Runs.Step, ShownBy;
    if flips != [] {
      var first := [OpDrive(i), OpFlip(flips[0].0, flips[0].1, true, triggers)];
      var ops := Presenting(i, flips, triggers);
      assert rt.scheduler.queued[0] in rt.scheduler.queued;
      FrontIsShown(rt, i, flips[0], triggers);
      FirstStep(rt, ops);
      FirstStep(Runs.Step(rt, ops[0]), ops[1..]);
      assert ops[1..][1..] == Presenting(i, flips[1..], triggers);
      var mid := Runs.Step(Runs.Step(rt, ops[0]), ops[1]);
      QueueIsShown(mid, i, flips[1..], triggers);
      var after := Runs.Run(rt, ops);
      forall k | 0 <= k < |flips| ensures ShownBy(after.sink[|rt.sink| + k], rt.scheduler.queued[k], flips[k]) {
        if k == 0 {
          assert after.sink[|rt.sink|] == mid.sink[|rt.sink|];
        } else {
          assert rt.scheduler.queued[k] == mid.scheduler.queued[k - 1] && flips[k] == flips[1..][k - 1];
        }
      }
    }
  }
}
