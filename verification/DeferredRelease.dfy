/**
 What a deferred release comes to. Once a client has been told that a release is deferred, the source or
 fence takes no new presentation, and the retirement of its last user reports it released.
 */
module DeferredRelease {
  import opened Basics
  import opened PresentationModel

  /** The source is registered, and its release waits for the presentations that name it. */
  predicate SourcePending(r: Registry, h: Handle) {
    h in r.sources && r.sources[h].releasePending
  }

  predicate FencePending(r: Registry, f: Fence) {
    f in r.fences && r.fences[f].releasePending
  }

  // ---------------------------------------------------------------- the answer

  /** A registered source that a presentation names answers Deferred and is pending from then on. */
  lemma RemovedSourceIsPending(r: Registry, h: Handle)
    requires Inv(r) && h in r.sources
    ensures var (r', status) := RemoveSource(r, h);
      && (status == Deferred <==> SourceUsers(r.presentations, h) != {})
      && (status == Deferred ==> SourcePending(r', h) && r'.sources == r.sources[h := r'.sources[h]])
      && (status == Deferred ==> r'.sources[h].planeFds == r.sources[h].planeFds)
      && (status != Deferred ==> status == Released && r'.sources == r.sources - {h})
      && r'.presentations == r.presentations && r'.fences == r.fences
  {
    assert r.sources[h].references == |SourceUsers(r.presentations, h)|;
  }

  lemma RemovedFenceIsPending(r: Registry, f: Fence)
    requires Inv(r) && f in r.fences
    ensures var (r', status) := RemoveFence(r, f);
      && (status == Deferred <==> FenceUses(r.presentations, f) > 0)
      && (status == Deferred ==> FencePending(r', f) && r'.fences == r.fences[f := r'.fences[f]])
      && (status == Deferred ==> r'.fences[f].fd == r.fences[f].fd)
      && (status != Deferred ==> status == Released && r'.fences == r.fences - {f})
      && r'.presentations == r.presentations && r'.sources == r.sources
  {
    assert r.fences[f].references == FenceUses(r.presentations, f);
  }

  /** What is not registered is unknown, and nothing changes. */
  lemma UnknownIsLeftAlone(r: Registry, x: nat)
    ensures x !in r.sources ==> RemoveSource(r, x) == (r, Unknown)
    ensures x !in r.fences ==> RemoveFence(r, x) == (r, Unknown)
  {
  }

  /** No presentation is admitted that names something pending, in any role. */
  lemma PendingIsRefused(r: Registry, t: Tx, h: Handle, acquire: Option<Fence>, idle: Option<Fence>, o: BeginOracle)
    requires
      || SourcePending(r, h)
      || (acquire.Some? && FencePending(r, acquire.value))
      || (idle.Some? && FencePending(r, idle.value))
    ensures Begin(r, t, h, acquire, idle, o).Err?
  {
    BeginAdmits(r, t, h, acquire, idle, o);
  }

  // ---------------------------------------------------------------- the last user

  /** The step retires or rejects the only presentation that still names the source. */
  ghost predicate RetiresLastOfSource(r: Registry, op: Op, h: Handle) {
    op.OpRetire? && Retires(r, op.transaction, op.byFlip) && SourceUsers(r.presentations, h) == {op.transaction}
  }

  ghost predicate RetiresLastOfFence(r: Registry, op: Op, f: Fence) {
    && op.OpRetire? && Retires(r, op.transaction, op.byFlip)
    && FenceUses(r.presentations, f) == UsesOf(r.presentations[op.transaction], f) > 0
  }

  lemma StepOnPendingSource(r: Registry, ledger: Ledger, op: Op, h: Handle)
    requires Inv(r) && SourcePending(r, h) && !op.OpDisconnect?
    ensures var s := Step(r, ledger, op);
      && s.Stepped? && Inv(s.registry)
      && (RetiresLastOfSource(r, op, h) ==> h !in s.registry.sources)
      && (RetiresLastOfSource(r, op, h) ==> s.ledger.releasedSources[h] == ledger.releasedSources[h] + 1)
      && (!RetiresLastOfSource(r, op, h) ==> SourcePending(s.registry, h))
      && (!RetiresLastOfSource(r, op, h) ==> s.ledger.releasedSources[h] == ledger.releasedSources[h])
  {
    hide Inv, FinishPresent, RemoveFence, Submit, SourceUsers, Disconnect;
    StepKeepsInv(r, ledger, op);
    match op
    case OpRegisterSource(d, fds) =>
    case OpRegisterFence(f, fd) =>
    case OpBegin(t, k, acquire, idle, o) =>
      PendingKeptByBegin(r, t, k, acquire, idle, o, h);
    case OpPoll(t, query) =>
    case OpSubmit(t) =>
      SubmitEffect(r, t);
    case OpRetire(t, byFlip, triggers) =>
      if Retires(r, t, byFlip) {
        FinishOnPendingSource(r, t, triggers, h);
        var x := FinishPresent(r, t, triggers).retirement;
        assert SourceUsers(r.presentations, h) != {t} ==> !(x.releasedSource && x.source == h);
        assert (if x.releasedSource then multiset{x.source} else multiset{})[h] ==
          (if x.releasedSource && x.source == h then 1 else 0);
      }
    case OpRemoveSource(k) =>
      PendingSourceStays(r, k, h);
    case OpRemoveFence(f) =>
      RemoveFenceKeepsSources(r, f);
    case OpDisconnect(failing) =>
  }

  lemma PendingKeptByBegin(r: Registry, t: Tx, k: Handle, acquire: Option<Fence>, idle: Option<Fence>, o: BeginOracle, h: Handle)
    requires SourcePending(r, h)
    ensures SourcePending(OrElse(Begin(r, t, k, acquire, idle, o), r), h)
  {
  }

  lemma PendingSourceStays(r: Registry, k: Handle, h: Handle)
    requires Inv(r) && SourcePending(r, h)
    ensures SourcePending(RemoveSource(r, k).0, h)
    ensures k == h ==> RemoveSource(r, k).1 == Deferred
  {
    assert r.sources[h].references == |SourceUsers(r.presentations, h)|;
  }

  lemma RemoveFenceKeepsSources(r: Registry, f: Fence)
    ensures RemoveFence(r, f).0.sources == r.sources
  {
  }

  lemma FinishOnPendingSource(r: Registry, t: Tx, triggers: bool, h: Handle)
    requires Inv(r) && SourcePending(r, h) && t in r.presentations
    ensures var x := FinishPresent(r, t, triggers);
      && x.Finished?
      && (SourceUsers(r.presentations, h) == {t} <==> h !in x.registry.sources)
      && (SourceUsers(r.presentations, h) == {t} <==> x.retirement.releasedSource && x.retirement.source == h)
      && (h in x.registry.sources ==> SourcePending(x.registry, h))
  {
    FinishEffect(r, t, triggers);
    FinishKeepsSourceFlags(r, t, triggers);
    if SourceUsers(r.presentations, h) == {t} {
      assert t in SourceUsers(r.presentations, h);
    }
  }

  /** A retirement changes no source but its reference count. */
  lemma FinishKeepsSourceFlags(r: Registry, t: Tx, triggers: bool)
    requires t in r.presentations && r.presentations[t].source in r.sources
    ensures var x := FinishPresent(r, t, triggers);
      x.Finished? && forall h :: h in x.registry.sources ==>
        && h in r.sources
        && x.registry.sources[h].releasePending == r.sources[h].releasePending
        && x.registry.sources[h].planeFds == r.sources[h].planeFds
  {
    hide DropFence;
  }

  lemma StepOnPendingFence(r: Registry, ledger: Ledger, op: Op, f: Fence)
    requires Inv(r) && FencePending(r, f) && !op.OpDisconnect?
    ensures var s := Step(r, ledger, op);
      && s.Stepped? && Inv(s.registry)
      && (RetiresLastOfFence(r, op, f) ==> f !in s.registry.fences)
      && (RetiresLastOfFence(r, op, f) ==> s.ledger.releasedFences[f] == ledger.releasedFences[f] + 1)
      && (!RetiresLastOfFence(r, op, f) ==> FencePending(s.registry, f))
      && (!RetiresLastOfFence(r, op, f) ==> s.ledger.releasedFences[f] == ledger.releasedFences[f])
  {
    hide Inv, FinishPresent, RegisterSource, RemoveSource, Submit, FenceUses, UsesOf, Disconnect;
    StepKeepsInv(r, ledger, op);
    match op
    case OpRegisterSource(d, fds) =>
      RegisterSourceKeepsFences(r, d, fds);
    case OpRegisterFence(g, fd) =>
    case OpBegin(t, k, acquire, idle, o) =>
      PendingFenceKeptByBegin(r, t, k, acquire, idle, o, f);
    case OpPoll(t, query) =>
    case OpSubmit(t) =>
      SubmitEffect(r, t);
    case OpRetire(t, byFlip, triggers) =>
      if Retires(r, t, byFlip) {
        FinishOnPendingFence(r, t, triggers, f);
      }
    case OpRemoveSource(h) =>
      RemoveSourceKeepsFences(r, h);
    case OpRemoveFence(g) =>
      PendingFenceStays(r, g, f);
    case OpDisconnect(failing) =>
  }

  lemma RegisterSourceKeepsFences(r: Registry, d: Descriptor, fds: seq<Fd>)
    ensures OrElse(RegisterSource(r, d, fds), r).fences == r.fences
  {
  }

  lemma RemoveSourceKeepsFences(r: Registry, h: Handle)
    ensures RemoveSource(r, h).0.fences == r.fences
  {
  }

  lemma PendingFenceKeptByBegin(r: Registry, t: Tx, k: Handle, acquire: Option<Fence>, idle: Option<Fence>,
                                o: BeginOracle, f: Fence)
    requires FencePending(r, f)
    ensures FencePending(OrElse(Begin(r, t, k, acquire, idle, o), r), f)
  {
  }

  lemma PendingFenceStays(r: Registry, g: Fence, f: Fence)
    requires Inv(r) && FencePending(r, f)
    ensures FencePending(RemoveFence(r, g).0, f)
    ensures g == f ==> RemoveFence(r, g).1 == Deferred
  {
    assert r.fences[f].references == FenceUses(r.presentations, f);
  }

  lemma FinishOnPendingFence(r: Registry, t: Tx, triggers: bool, f: Fence)
    requires Inv(r) && FencePending(r, f) && t in r.presentations
    ensures var x := FinishPresent(r, t, triggers);
      var last := FenceUses(r.presentations, f) == UsesOf(r.presentations[t], f) > 0;
      && x.Finished?
      && (last <==> f !in x.registry.fences)
      && multiset(x.retirement.releasedFences)[f] == (if last then 1 else 0)
      && (f in x.registry.fences ==> FencePending(x.registry, f))
  {
    hide FinishPresent;
    FinishEffect(r, t, triggers);
    var x := FinishPresent(r, t, triggers);
    assert r.fences[f].references == FenceUses(r.presentations, f);
    DistinctMultiset(x.retirement.releasedFences);
  }

  // ---------------------------------------------------------------- runs

  /** The run neither disconnects the registry nor registers the handle again. */
  predicate LeavesSourceBe(ops: seq<Op>, h: Handle) {
    forall op :: op in ops ==> !op.OpDisconnect? && !(op.OpRegisterSource? && op.descriptor.handle == h)
  }

  predicate LeavesFenceBe(ops: seq<Op>, f: Fence) {
    forall op :: op in ops ==> !op.OpDisconnect? && !(op.OpRegisterFence? && op.fence == f)
  }

  /** Some step of the run retires the last presentation naming the source. */
  ghost predicate LastOfSourceRetires(r: Registry, ledger: Ledger, ops: seq<Op>, h: Handle)
    decreases |ops|
  {
    && ops != []
    && var s := Step(r, ledger, ops[0]);
    || RetiresLastOfSource(r, ops[0], h)
    || (s.Stepped? && LastOfSourceRetires(s.registry, s.ledger, ops[1..], h))
  }

  ghost predicate LastOfFenceRetires(r: Registry, ledger: Ledger, ops: seq<Op>, f: Fence)
    decreases |ops|
  {
    && ops != []
    && var s := Step(r, ledger, ops[0]);
    || RetiresLastOfFence(r, ops[0], f)
    || (s.Stepped? && LastOfFenceRetires(s.registry, s.ledger, ops[1..], f))
  }

  /** The handle is not registered, and stays so. */
  lemma {:induction false} UnregisteredSourceStaysOut(r: Registry, ledger: Ledger, ops: seq<Op>, h: Handle)
    requires Inv(r) && h !in r.sources && LeavesSourceBe(ops, h)
    ensures var s := Run(r, ledger, ops);
      s.Stepped? && h !in s.registry.sources && s.ledger.releasedSources[h] == ledger.releasedSources[h]
    decreases |ops|
  {
    hide Inv, Step;
    if ops != [] {
      assert ops[0] in ops;
      assert forall op :: op in ops[1..] ==> op in ops;
      StepKeepsInv(r, ledger, ops[0]);
      UnregisteredSourceStep(r, ledger, ops[0], h);
      var s := Step(r, ledger, ops[0]);
      UnregisteredSourceStaysOut(s.registry, s.ledger, ops[1..], h);
    }
  }

  lemma UnregisteredSourceStep(r: Registry, ledger: Ledger, op: Op, h: Handle)
    requires Inv(r) && h !in r.sources && !op.OpDisconnect? && !(op.OpRegisterSource? && op.descriptor.handle == h)
    ensures var s := Step(r, ledger, op);
      s.Stepped? && h !in s.registry.sources && s.ledger.releasedSources[h] == ledger.releasedSources[h]
  {
    hide Inv;
    var inS, outS, inF, outF := StepMoves(r, ledger, op);
    var s := Step(r, ledger, op);
    EntersOnlyByName(r, ledger, op, h);
    assert (multiset(s.registry.sources.Keys) + outS)[h] == (multiset(r.sources.Keys) + inS)[h];
  }

  lemma EntersOnlyByName(r: Registry, ledger: Ledger, op: Op, h: Handle)
    requires Step(r, ledger, op).Stepped? && !(op.OpRegisterSource? && op.descriptor.handle == h)
    ensures Step(r, ledger, op).ledger.registeredSources[h] == ledger.registeredSources[h]
  {
    hide RegisterSource, RegisterFence, Begin, Poll, Submit, FinishPresent, RemoveSource, RemoveFence, Disconnect;
  }

  lemma {:induction false} UnregisteredFenceStaysOut(r: Registry, ledger: Ledger, ops: seq<Op>, f: Fence)
    requires Inv(r) && f !in r.fences && LeavesFenceBe(ops, f)
    ensures var s := Run(r, ledger, ops);
      s.Stepped? && f !in s.registry.fences && s.ledger.releasedFences[f] == ledger.releasedFences[f]
    decreases |ops|
  {
    hide Inv, Step;
    if ops != [] {
      assert ops[0] in ops;
      assert forall op :: op in ops[1..] ==> op in ops;
      StepKeepsInv(r, ledger, ops[0]);
      UnregisteredFenceStep(r, ledger, ops[0], f);
      var s := Step(r, ledger, ops[0]);
      UnregisteredFenceStaysOut(s.registry, s.ledger, ops[1..], f);
    }
  }

  lemma UnregisteredFenceStep(r: Registry, ledger: Ledger, op: Op, f: Fence)
    requires Inv(r) && f !in r.fences && !op.OpDisconnect? && !(op.OpRegisterFence? && op.fence == f)
    ensures var s := Step(r, ledger, op);
      s.Stepped? && f !in s.registry.fences && s.ledger.releasedFences[f] == ledger.releasedFences[f]
  {
    hide Inv;
    var inS, outS, inF, outF := StepMoves(r, ledger, op);
    var s := Step(r, ledger, op);
    FenceEntersOnlyByName(r, ledger, op, f);
    assert (multiset(s.registry.fences.Keys) + outF)[f] == (multiset(r.fences.Keys) + inF)[f];
  }

  lemma FenceEntersOnlyByName(r: Registry, ledger: Ledger, op: Op, f: Fence)
    requires Step(r, ledger, op).Stepped? && !(op.OpRegisterFence? && op.fence == f)
    ensures Step(r, ledger, op).ledger.registeredFences[f] == ledger.registeredFences[f]
  {
    hide RegisterSource, RegisterFence, Begin, Poll, Submit, FinishPresent, RemoveSource, RemoveFence, Disconnect;
  }

  /**
   From a deferred release on: while some user is left the source stays registered and pending, so that no
   presentation can name it; when its last user retires it is released, and reported exactly once.
   */
  lemma {:induction false} PendingSourceIsReleasedIff(r: Registry, ledger: Ledger, ops: seq<Op>, h: Handle)
    requires Inv(r) && SourcePending(r, h) && LeavesSourceBe(ops, h)
    ensures var s := Run(r, ledger, ops);
      var retired := LastOfSourceRetires(r, ledger, ops, h);
      && s.Stepped?
      && (retired <==> h !in s.registry.sources)
      && (!retired ==> SourcePending(s.registry, h))
      && s.ledger.releasedSources[h] == ledger.releasedSources[h] + (if retired then 1 else 0)
    decreases |ops|
  {
    hide Inv, Step, RetiresLastOfSource;
    if ops != [] {
      assert ops[0] in ops;
      assert forall op :: op in ops[1..] ==> op in ops;
      StepOnPendingSource(r, ledger, ops[0], h);
      var s := Step(r, ledger, ops[0]);
      if RetiresLastOfSource(r, ops[0], h) {
        UnregisteredSourceStaysOut(s.registry, s.ledger, ops[1..], h);
      } else {
        PendingSourceIsReleasedIff(s.registry, s.ledger, ops[1..], h);
      }
    }
  }

  /** The same for a fence, which one presentation may use in both roles. */
  lemma {:induction false} PendingFenceIsReleasedIff(r: Registry, ledger: Ledger, ops: seq<Op>, f: Fence)
    requires Inv(r) && FencePending(r, f) && LeavesFenceBe(ops, f)
    ensures var s := Run(r, ledger, ops);
      var retired := LastOfFenceRetires(r, ledger, ops, f);
      && s.Stepped?
      && (retired <==> f !in s.registry.fences)
      && (!retired ==> FencePending(s.registry, f))
      && s.ledger.releasedFences[f] == ledger.releasedFences[f] + (if retired then 1 else 0)
    decreases |ops|
  {
    hide Inv, Step, RetiresLastOfFence;
    if ops != [] {
      assert ops[0] in ops;
      assert forall op :: op in ops[1..] ==> op in ops;
      StepOnPendingFence(r, ledger, ops[0], f);
      var s := Step(r, ledger, ops[0]);
      if RetiresLastOfFence(r, ops[0], f) {
        UnregisteredFenceStaysOut(s.registry, s.ledger, ops[1..], f);
      } else {
        PendingFenceIsReleasedIff(s.registry, s.ledger, ops[1..], f);
      }
    }
  }

  /** Altogether: a release is told at once, at the retirement of the last user, or not yet. */
  lemma RemovedSourceIsReleasedOnce(r: Registry, ledger: Ledger, ops: seq<Op>, h: Handle)
    requires Inv(r) && h in r.sources && LeavesSourceBe(ops, h)
    ensures var s := Run(r, ledger, [OpRemoveSource(h)] + ops);
      && s.Stepped?
      && (h in s.registry.sources ==> SourcePending(s.registry, h))
      && s.ledger.releasedSources[h] == ledger.releasedSources[h] + (if h in s.registry.sources then 0 else 1)
  {
    hide Inv, RemoveSource;
    var all := [OpRemoveSource(h)] + ops;
    assert all[0] == OpRemoveSource(h) && all[1..] == ops;
    RemovedSourceIsPending(r, h);
    RemoveSourceKeepsInv(r, h);
    var s := Step(r, ledger, all[0]);
    assert Run(r, ledger, all) == Run(s.registry, s.ledger, ops);
    if h in s.registry.sources {
      PendingSourceIsReleasedIff(s.registry, s.ledger, ops, h);
    } else {
      UnregisteredSourceStaysOut(s.registry, s.ledger, ops, h);
    }
  }

  lemma RemovedFenceIsReleasedOnce(r: Registry, ledger: Ledger, ops: seq<Op>, f: Fence)
    requires Inv(r) && f in r.fences && LeavesFenceBe(ops, f)
    ensures var s := Run(r, ledger, [OpRemoveFence(f)] + ops);
      && s.Stepped?
      && (f in s.registry.fences ==> FencePending(s.registry, f))
      && s.ledger.releasedFences[f] == ledger.releasedFences[f] + (if f in s.registry.fences then 0 else 1)
  {
    hide Inv, RemoveFence;
    var all := [OpRemoveFence(f)] + ops;
    assert all[0] == OpRemoveFence(f) && all[1..] == ops;
    RemovedFenceIsPending(r, f);
    RemoveFenceKeepsInv(r, f);
    var s := Step(r, ledger, all[0]);
    assert Run(r, ledger, all) == Run(s.registry, s.ledger, ops);
    if f in s.registry.fences {
      PendingFenceIsReleasedIff(s.registry, s.ledger, ops, f);
    } else {
      UnregisteredFenceStaysOut(s.registry, s.ledger, ops, f);
    }
  }
}
