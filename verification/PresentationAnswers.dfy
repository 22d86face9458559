/**
 What the presentation registry answers, and what stands behind a presentation: each call's error tells
 exactly what was wrong, an acquire fence's signal is noticed, and every presentation keeps using the
 descriptors its source and fences were registered with.
 */
module PresentationAnswers {
  import opened Basics
  import opened PresentationModel
  import opened DeferredRelease

  // ---------------------------------------------------------------- registration

  /** A source is accepted exactly when it is well formed, complete, new, and there is room. */
  lemma RegisterSourceAnswers(r: Registry, d: Descriptor, planeFds: seq<Fd>)
    ensures var x := RegisterSource(r, d, planeFds);
      var complete := |planeFds| == d.planeCount;
      && (x == Err(InvalidDescriptor) <==> !d.wellFormed)
      && (x == Err(PlaneFdCountMismatch) <==> d.wellFormed && !complete)
      && (x == Err(DuplicateHandle) <==> d.wellFormed && complete && d.handle in r.sources)
      && (x == Err(CapacityExceeded) <==>
            d.wellFormed && complete && d.handle !in r.sources && |r.sources| >= r.limits.sources)
      && (x.Ok? <==> d.wellFormed && complete && d.handle !in r.sources && |r.sources| < r.limits.sources)
      && (x.Ok? ==>
            && x.value.sources == r.sources[d.handle := Source(planeFds, 0, false)]
            && x.value.fences == r.fences && x.value.presentations == r.presentations)
  {
  }

  lemma RegisterFenceAnswers(r: Registry, f: Fence, fd: Fd)
    ensures var x := RegisterFence(r, f, fd);
      && (x == Err(DuplicateFence) <==> f in r.fences)
      && (x == Err(CapacityExceeded) <==> f !in r.fences && |r.fences| >= r.limits.fences)
      && (x.Ok? <==> f !in r.fences && |r.fences| < r.limits.fences)
      && (x.Ok? ==>
            && x.value.fences == r.fences[f := FenceSource(fd, 0, false)]
            && x.value.sources == r.sources && x.value.presentations == r.presentations)
  {
  }

  // ---------------------------------------------------------------- admission

  predicate Usable(r: Registry, f: Option<Fence>) {
    f.Some? ==> f.value in r.fences && !r.fences[f.value].releasePending
  }

  /** A named fence can be used: registered, not pending, and its descriptor clones. */
  predicate Clones(r: Registry, f: Option<Fence>, clones: bool) {
    f.Some? ==> f.value in r.fences && !r.fences[f.value].releasePending && clones
  }

  /** The transaction is new, there is room, and the source can be presented. */
  predicate SourceFit(r: Registry, t: Tx, h: Handle) {
    && t !in r.presentations && |r.presentations| < r.limits.presentations
    && h in r.sources && !r.sources[h].releasePending
  }

  /** A refused presentation is told the first thing wrong with it: itself, its source, acquire, then idle fence. */
  lemma BeginAnswers(r: Registry, t: Tx, h: Handle, acquire: Option<Fence>, idle: Option<Fence>, o: BeginOracle)
    ensures var x := Begin(r, t, h, acquire, idle, o);
      var full := |r.presentations| >= r.limits.presentations;
      var fit := SourceFit(r, t, h) && o.planesClone;
      var acquired := fit && Clones(r, acquire, o.acquireClones);
      && (x == Err(DuplicatePresentation) <==> t in r.presentations)
      && (x == Err(CapacityExceeded) <==> t !in r.presentations && full)
      && (x == Err(UnknownHandle) <==> t !in r.presentations && !full && h !in r.sources)
      && (x == Err(SourceReleasePending) <==> t !in r.presentations && !full && SourcePending(r, h))
      && (x == Err(UnknownFence) <==>
            || (fit && acquire.Some? && acquire.value !in r.fences)
            || (acquired && idle.Some? && idle.value !in r.fences))
      && (x == Err(FenceReleasePending) <==>
            || (fit && acquire.Some? && FencePending(r, acquire.value))
            || (acquired && idle.Some? && FencePending(r, idle.value)))
      && (x == Err(FdCloneFailed) <==>
            || (SourceFit(r, t, h) && !o.planesClone)
            || (fit && acquire.Some? && Usable(r, acquire) && !o.acquireClones)
            || (acquired && idle.Some? && Usable(r, idle) && !o.idleClones))
      && (x == Err(FenceQueryFailed) <==>
            acquired && Clones(r, idle, o.idleClones) && acquire.Some? && o.query.None?)
  {
  }

  // ---------------------------------------------------------------- polling and submitting

  /**
   Polling a waiting presentation answers what its acquire fence answers; it is ready from then on exactly
   when the fence has signaled, and gives back its clone of the fence.
   */
  lemma PollFollowsFence(r: Registry, t: Tx, query: Option<bool>)
    requires Inv(r) && t in r.presentations && r.presentations[t].state == WaitingForAcquireFence
    ensures var (r', x) := Poll(r, t, query);
      && x == (if query.None? then Err(FenceQueryFailed) else Ok(query.value))
      && t in r'.presentations
      && (r'.presentations[t].state == Ready <==> query == Some(true))
      && (query == Some(true) ==> r'.presentations[t].acquireFd.None?)
      && (query != Some(true) ==> r' == r)
  {
    assert PresentOk(r, r.presentations[t]);
  }

  /** One that does not wait is not queried, and an unknown one is an error. */
  lemma PollOfSettled(r: Registry, t: Tx, query: Option<bool>)
    requires t in r.presentations ==> r.presentations[t].state != WaitingForAcquireFence
    ensures Poll(r, t, query) == (r, if t in r.presentations then Ok(true) else Err(UnknownPresentation))
  {
  }

  lemma SubmitAnswers(r: Registry, t: Tx)
    ensures Submit(r, t) == Err(UnknownPresentation) <==> t !in r.presentations
    ensures Submit(r, t) == Err(AcquireFencePending) <==>
      t in r.presentations && r.presentations[t].state == WaitingForAcquireFence
    ensures Submit(r, t) == Err(AlreadySubmitted) <==> t in r.presentations && r.presentations[t].state == Submitted
  {
  }

  /** A page flip retires what has been submitted and nothing else; a rejection retires anything registered. */
  lemma RetiresExactly(r: Registry, ledger: Ledger, t: Tx, byFlip: bool, triggers: bool)
    requires Inv(r)
    ensures var s := Step(r, ledger, OpRetire(t, byFlip, triggers));
      var retired := t in r.presentations && (!byFlip || r.presentations[t].state == Submitted);
      && s.Stepped?
      && (retired ==> s.registry.presentations == r.presentations - {t})
      && (!retired ==> s.registry == r && s.ledger == ledger)
  {
    hide FinishPresent, Inv;
    if t in r.presentations {
      FinishKeepsInv(r, t, triggers);
    }
  }

  // ---------------------------------------------------------------- descriptors

  /** A presentation's descriptors are those its source and its fences were registered with. */
  ghost predicate FdsOf(sources: map<Handle, Source>, fences: map<Fence, FenceSource>, p: Present) {
    && (p.source in sources ==> p.planeFds == sources[p.source].planeFds)
    && (p.acquireFd.Some? && p.acquireFence.Some? && p.acquireFence.value in fences ==>
          p.acquireFd.value == fences[p.acquireFence.value].fd)
    && (p.idleFd.Some? && p.idleFence.Some? && p.idleFence.value in fences ==>
          p.idleFd.value == fences[p.idleFence.value].fd)
  }

  ghost predicate FdsOk(r: Registry) {
    forall t {:trigger r.presentations[t]} :: t in r.presentations ==> FdsOf(r.sources, r.fences, r.presentations[t])
  }

  /** Resources that are kept keep their descriptors, and new ones are not named yet. */
  ghost predicate SameFds(r: Registry, r': Registry) {
    && (forall h :: h in r'.sources && h in r.sources ==> r'.sources[h].planeFds == r.sources[h].planeFds)
    && (forall f :: f in r'.fences && f in r.fences ==> r'.fences[f].fd == r.fences[f].fd)
  }

  lemma SameFdsKeepsFds(r: Registry, r': Registry)
    requires Inv(r) && FdsOk(r) && SameFds(r, r')
    requires forall t :: t in r'.presentations ==> t in r.presentations && r'.presentations[t] == r.presentations[t]
    ensures FdsOk(r')
  {
    forall t | t in r'.presentations ensures FdsOf(r'.sources, r'.fences, r'.presentations[t]) {
      assert PresentOk(r, r.presentations[t]);
      assert FdsOf(r.sources, r.fences, r.presentations[t]);
    }
  }

  lemma BeginUsesRegistered(r: Registry, t: Tx, h: Handle, acquire: Option<Fence>, idle: Option<Fence>, o: BeginOracle)
    requires Begin(r, t, h, acquire, idle, o).Ok?
    ensures var r' := Begin(r, t, h, acquire, idle, o).value;
      && SameFds(r, r')
      && t in r'.presentations
      && FdsOf(r'.sources, r'.fences, r'.presentations[t])
  {
  }

  lemma BeginKeepsFds(r: Registry, t: Tx, h: Handle, acquire: Option<Fence>, idle: Option<Fence>, o: BeginOracle)
    requires Inv(r) && FdsOk(r) && Begin(r, t, h, acquire, idle, o).Ok?
    ensures FdsOk(Begin(r, t, h, acquire, idle, o).value)
  {
    hide Inv, Begin, FdsOf;
    var r' := Begin(r, t, h, acquire, idle, o).value;
    BeginUsesRegistered(r, t, h, acquire, idle, o);
    BeginEffect(r, t, h, acquire, idle, o);
    SameFdsKeepsFds(r, r'.(presentations := r.presentations));
    assert forall u :: u in r'.presentations && u != t ==> r'.presentations[u] == r.presentations[u];
  }

  lemma FinishKeepsFds(r: Registry, t: Tx, triggers: bool)
    requires Inv(r) && FdsOk(r) && t in r.presentations
    ensures FinishPresent(r, t, triggers).Finished? && FdsOk(FinishPresent(r, t, triggers).registry)
  {
    hide FdsOk, FdsOf, FinishPresent, Inv;
    FinishEffect(r, t, triggers);
    InvParts(r, t);
    FinishKeepsSourceFlags(r, t, triggers);
    SameFdsKeepsFds(r, FinishPresent(r, t, triggers).registry);
  }

  lemma AdvanceKeepsFds(r: Registry, r': Registry, t: Tx)
    requires FdsOk(r) && t in r.presentations && t in r'.presentations
    requires r'.sources == r.sources && r'.fences == r.fences && r'.presentations == r.presentations[t := r'.presentations[t]]
    requires var p, q := r.presentations[t], r'.presentations[t];
      && q.source == p.source && q.acquireFence == p.acquireFence && q.idleFence == p.idleFence
      && q.planeFds == p.planeFds && q.idleFd == p.idleFd && (q.acquireFd == p.acquireFd || q.acquireFd.None?)
    ensures FdsOk(r')
  {
    assert FdsOf(r.sources, r.fences, r.presentations[t]);
    forall u | u in r'.presentations ensures FdsOf(r'.sources, r'.fences, r'.presentations[u]) {
      assert u != t ==> FdsOf(r.sources, r.fences, r.presentations[u]);
    }
  }

  lemma StepKeepsFds(r: Registry, ledger: Ledger, op: Op)
    requires Inv(r) && FdsOk(r)
    ensures Step(r, ledger, op).Stepped? && FdsOk(Step(r, ledger, op).registry)
  {
    hide FdsOk, Inv, Begin, FinishPresent, Disconnect;
    match op
    case OpRegisterSource(d, fds) =>
      SameFdsKeepsFds(r, OrElse(RegisterSource(r, d, fds), r));
    case OpRegisterFence(f, fd) =>
      SameFdsKeepsFds(r, OrElse(RegisterFence(r, f, fd), r));
    case OpBegin(t, h, acquire, idle, o) =>
      if Begin(r, t, h, acquire, idle, o).Ok? {
        BeginKeepsFds(r, t, h, acquire, idle, o);
      }
    case OpPoll(t, query) =>
      if Poll(r, t, query).0 != r {
        AdvanceKeepsFds(r, Poll(r, t, query).0, t);
      }
    case OpSubmit(t) =>
      if Submit(r, t).Ok? {
        AdvanceKeepsFds(r, Submit(r, t).value, t);
      }
    case OpRetire(t, byFlip, triggers) =>
      if Retires(r, t, byFlip) {
        FinishKeepsFds(r, t, triggers);
      }
    case OpRemoveSource(h) =>
      SameFdsKeepsFds(r, RemoveSource(r, h).0);
    case OpRemoveFence(f) =>
      SameFdsKeepsFds(r, RemoveFence(r, f).0);
    case OpDisconnect(failing) =>
      DisconnectEmpties(r, failing);
      EmptyHasFds(r.limits);
  }

  lemma EmptyHasFds(limits: Limits)
    ensures FdsOk(Empty(limits))
  {
  }

  lemma {:induction false} RunKeepsFds(r: Registry, ledger: Ledger, ops: seq<Op>)
    requires Inv(r) && FdsOk(r)
    ensures Run(r, ledger, ops).Stepped? && Inv(Run(r, ledger, ops).registry) && FdsOk(Run(r, ledger, ops).registry)
    decreases |ops|
  {
    hide Inv, FdsOk, Step;
    if ops != [] {
      StepKeepsInv(r, ledger, ops[0]);
      StepKeepsFds(r, ledger, ops[0]);
      var s := Step(r, ledger, ops[0]);
      RunKeepsFds(s.registry, s.ledger, ops[1..]);
    }
  }

  /**
   In every state a run from the start reaches, whatever was released and registered again meanwhile, each
   presentation holds the planes of its source, waits on its own acquire fence and will trigger its own
   idle fence.
   */
  lemma EveryRunSharesFds(limits: Limits, ops: seq<Op>, t: Tx)
    ensures var end := Run(Empty(limits), NothingYet, ops);
      end.Stepped? && (t in end.registry.presentations ==>
        var r, p := end.registry, end.registry.presentations[t];
        && p.source in r.sources && p.planeFds == r.sources[p.source].planeFds
        && (p.state == WaitingForAcquireFence ==>
              && p.acquireFence.Some? && p.acquireFence.value in r.fences
              && p.acquireFd == Some(r.fences[p.acquireFence.value].fd))
        && (p.idleFence.Some? ==> p.idleFence.value in r.fences && p.idleFd == Some(r.fences[p.idleFence.value].fd)))
  {
    hide Run;
    EmptyHasFds(limits);
    assert Inv(Empty(limits));
    RunKeepsFds(Empty(limits), NothingYet, ops);
    var r := Run(Empty(limits), NothingYet, ops).registry;
    if t in r.presentations {
      assert PresentOk(r, r.presentations[t]);
      assert FdsOf(r.sources, r.fences, r.presentations[t]);
    }
  }
}
