/**
 The renderer's DMA-BUF presentation registry as a state machine over values: reusable sources and
 fences are counted by the presentations in flight that name them, and a release that arrives while
 something is in flight is deferred to the last retirement.

 A panic in the implementation (an `expect` on a missing entry) is the explicit outcome `Panicked`.
 */
module PresentationModel {
  import opened Basics

  type Handle = nat
  type Fence = nat
  type Tx = nat

  /** An open file description: clones of a descriptor share it. */
  type Fd = nat

  datatype BufferState = WaitingForAcquireFence | Ready | Submitted

  datatype Error =
    | InvalidDescriptor
    | PlaneFdCountMismatch
    | DuplicateHandle
    | UnknownHandle
    | AcquireFencePending
    | AlreadySubmitted
    | FenceQueryFailed
    | FdCloneFailed
    | DuplicateFence
    | UnknownFence
    | DuplicatePresentation
    | UnknownPresentation
    | CapacityExceeded
    | SourceReleasePending
    | FenceReleasePending

  /** `wellFormed` stands for the outcome of validating the descriptor's geometry and planes. */
  datatype Descriptor = Descriptor(handle: Handle, planeCount: nat, wellFormed: bool)

  datatype Source = Source(planeFds: seq<Fd>, references: nat, releasePending: bool)

  datatype FenceSource = FenceSource(fd: Fd, references: nat, releasePending: bool)

  datatype Present = Present(
    source: Handle,
    acquireFence: Option<Fence>,
    idleFence: Option<Fence>,
    planeFds: seq<Fd>,
    acquireFd: Option<Fd>,
    idleFd: Option<Fd>,
    state: BufferState)

  datatype Limits = Limits(sources: nat, fences: nat, presentations: nat)

  datatype Registry = Registry(
    sources: map<Handle, Source>,
    fences: map<Fence, FenceSource>,
    presentations: map<Tx, Present>,
    limits: Limits)

  datatype ReleaseStatus = Unknown | Deferred | Released

  datatype IdleFenceStatus = NotRequested | Triggered | TriggerFailed

  datatype Retirement = Retirement(
    transaction: Tx,
    source: Handle,
    idleFence: IdleFenceStatus,
    releasedSource: bool,
    releasedFences: seq<Fence>)

  datatype DisconnectReport = DisconnectReport(
    retiredPresentations: nat,
    triggeredIdleFences: nat,
    failedIdleFences: nat,
    releasedSources: seq<Handle>,
    releasedFences: seq<Fence>)

  /** What the kernel answers during `begin_present`: whether each clone succeeds, and the fence query. */
  datatype BeginOracle = BeginOracle(
    planesClone: bool,
    acquireClones: bool,
    idleClones: bool,
    query: Option<bool>)

  datatype Finish = FinishPanicked | Finished(registry: Registry, retirement: Retirement)

  // ---------------------------------------------------------------- operations

  function Empty(limits: Limits): Registry {
    Registry(map[], map[], map[], limits)
  }

  function RegisterSource(r: Registry, d: Descriptor, planeFds: seq<Fd>): Result<Registry, Error> {
    if !d.wellFormed then Err(InvalidDescriptor)
    else if |planeFds| != d.planeCount then Err(PlaneFdCountMismatch)
    else if d.handle in r.sources then Err(DuplicateHandle)
    else if |r.sources| >= r.limits.sources then Err(CapacityExceeded)
    else Ok(r.(sources := r.sources[d.handle := Source(planeFds, 0, false)]))
  }

  function RegisterFence(r: Registry, f: Fence, fd: Fd): Result<Registry, Error> {
    if f in r.fences then Err(DuplicateFence)
    else if |r.fences| >= r.limits.fences then Err(CapacityExceeded)
    else Ok(r.(fences := r.fences[f := FenceSource(fd, 0, false)]))
  }

  /** Looks up and clones the descriptor of an optional fence. */
  function CloneFence(r: Registry, f: Option<Fence>, clones: bool): Result<Option<Fd>, Error> {
    if f.None? then Ok(None)
    else if f.value !in r.fences then Err(UnknownFence)
    else if r.fences[f.value].releasePending then Err(FenceReleasePending)
    else if !clones then Err(FdCloneFailed)
    else Ok(Some(r.fences[f.value].fd))
  }

  /** One more reference to an optional fence. */
  function Retain(fences: map<Fence, FenceSource>, f: Option<Fence>): map<Fence, FenceSource> {
    if f.Some? && f.value in fences then
      fences[f.value := fences[f.value].(references := fences[f.value].references + 1)]
    else
      fences
  }

  function Begin(r: Registry, t: Tx, h: Handle, acquire: Option<Fence>, idle: Option<Fence>, o: BeginOracle)
    : Result<Registry, Error>
  {
    if t in r.presentations then Err(DuplicatePresentation)
    else if |r.presentations| >= r.limits.presentations then Err(CapacityExceeded)
    else if h !in r.sources then Err(UnknownHandle)
    else if r.sources[h].releasePending then Err(SourceReleasePending)
    else if !o.planesClone then Err(FdCloneFailed)
    else match CloneFence(r, acquire, o.acquireClones)
      case Err(e) => Err(e)
      case Ok(acquireFd) =>
        match CloneFence(r, idle, o.idleClones)
        case Err(e) => Err(e)
        case Ok(idleFd) =>
          if acquireFd.Some? && o.query.None? then Err(FenceQueryFailed)
          else
            var ready := acquireFd.None? || o.query.value;
            Ok(r.(
              sources := r.sources[h := r.sources[h].(references := r.sources[h].references + 1)],
              fences := Retain(Retain(r.fences, acquire), idle),
              presentations := r.presentations[t := Present(
                h, acquire, idle, r.sources[h].planeFds,
                if ready then None else acquireFd,
                idleFd,
                if ready then Ready else WaitingForAcquireFence)]))
  }

  /** `query` is the fence's answer, or None when querying it fails. */
  function Poll(r: Registry, t: Tx, query: Option<bool>): (Registry, Result<bool, Error>) {
    if t !in r.presentations then (r, Err(UnknownPresentation))
    else
      var p := r.presentations[t];
      if p.state != WaitingForAcquireFence then (r, Ok(true))
      else if p.acquireFd.None? || query.None? then (r, Err(FenceQueryFailed))
      else if query.value then
        (r.(presentations := r.presentations[t := p.(acquireFd := None, state := Ready)]), Ok(true))
      else
        (r, Ok(false))
  }

  function Submit(r: Registry, t: Tx): Result<Registry, Error> {
    if t !in r.presentations then Err(UnknownPresentation)
    else match r.presentations[t].state
      case WaitingForAcquireFence => Err(AcquireFencePending)
      case Ready => Ok(r.(presentations := r.presentations[t := r.presentations[t].(state := Submitted)]))
      case Submitted => Err(AlreadySubmitted)
  }

  function SaturatingDecrement(n: nat): nat {
    if n == 0 then 0 else n - 1
  }

  /** One reference less to a source, dropping it when that was the last and a release is pending. */
  function DropSource(sources: map<Handle, Source>, h: Handle): (r: (map<Handle, Source>, bool))
    requires h in sources
  {
    var s := sources[h].(references := SaturatingDecrement(sources[h].references));
    if s.references == 0 && s.releasePending then (sources - {h}, true) else (sources[h := s], false)
  }

  /** The same for an optional fence; a fence that is no longer registered is skipped. */
  function DropFence(fences: map<Fence, FenceSource>, f: Option<Fence>): (map<Fence, FenceSource>, seq<Fence>) {
    if f.None? || f.value !in fences then (fences, [])
    else
      var s := fences[f.value].(references := SaturatingDecrement(fences[f.value].references));
      if s.references == 0 && s.releasePending then (fences - {f.value}, [f.value])
      else (fences[f.value := s], [])
  }

  function IdleStatus(p: Present, triggers: bool): IdleFenceStatus {
    if p.idleFd.None? then NotRequested else if triggers then Triggered else TriggerFailed
  }

  function FinishPresent(r: Registry, t: Tx, triggers: bool): Finish {
    if t !in r.presentations || r.presentations[t].source !in r.sources then FinishPanicked
    else
      var p := r.presentations[t];
      var (sources, releasedSource) := DropSource(r.sources, p.source);
      var (fences1, released1) := DropFence(r.fences, p.acquireFence);
      var (fences2, released2) := DropFence(fences1, p.idleFence);
      Finished(
        r.(sources := sources, fences := fences2, presentations := r.presentations - {t}),
        Retirement(t, p.source, IdleStatus(p, triggers), releasedSource, released1 + released2))
  }

  /** A page-flip retirement applies to submitted presentations only; a rejection to any. */
  predicate Retires(r: Registry, t: Tx, byFlip: bool) {
    t in r.presentations && (byFlip ==> r.presentations[t].state == Submitted)
  }

  function RemoveSource(r: Registry, h: Handle): (Registry, ReleaseStatus) {
    if h !in r.sources then (r, Unknown)
    else if r.sources[h].references > 0 then
      (r.(sources := r.sources[h := r.sources[h].(releasePending := true)]), Deferred)
    else (r.(sources := r.sources - {h}), Released)
  }

  function RemoveFence(r: Registry, f: Fence): (Registry, ReleaseStatus) {
    if f !in r.fences then (r, Unknown)
    else if r.fences[f].references > 0 then
      (r.(fences := r.fences[f := r.fences[f].(releasePending := true)]), Deferred)
    else (r.(fences := r.fences - {f}), Released)
  }

  /** Adds one retirement to a disconnect report. */
  function Count(report: DisconnectReport, x: Retirement): DisconnectReport {
    DisconnectReport(
      report.retiredPresentations + 1,
      report.triggeredIdleFences + (if x.idleFence == Triggered then 1 else 0),
      report.failedIdleFences + (if x.idleFence == TriggerFailed then 1 else 0),
      report.releasedSources + (if x.releasedSource then [x.source] else []),
      report.releasedFences + x.releasedFences)
  }

  datatype Sweep = SweepPanicked | Swept(registry: Registry, report: DisconnectReport)

  /** Finishes the listed presentations in order; triggering fails for those in `failing`. */
  function FinishAll(r: Registry, ts: seq<Tx>, failing: set<Tx>, report: DisconnectReport): Sweep
    decreases |ts|
  {
    if ts == [] then Swept(r, report)
    else match FinishPresent(r, ts[0], ts[0] !in failing)
      case FinishPanicked => SweepPanicked
      case Finished(r', x) => FinishAll(r', ts[1..], failing, Count(report, x))
  }

  const NoReport := DisconnectReport(0, 0, 0, [], [])

  function Disconnect(r: Registry, failing: set<Tx>): Sweep {
    match FinishAll(r, Ascending(r.presentations.Keys), failing, NoReport)
    case SweepPanicked => SweepPanicked
    case Swept(r', report) =>
      Swept(r'.(sources := map[], fences := map[]),
            report.(releasedSources := report.releasedSources + Ascending(r'.sources.Keys),
                    releasedFences := report.releasedFences + Ascending(r'.fences.Keys)))
  }

  // ---------------------------------------------------------------- the counting invariant

  ghost function SourceUsers(ps: map<Tx, Present>, h: Handle): set<Tx> {
    set t | t in ps && ps[t].source == h
  }

  ghost function AcquireUsers(ps: map<Tx, Present>, f: Fence): set<Tx> {
    set t | t in ps && ps[t].acquireFence == Some(f)
  }

  ghost function IdleUsers(ps: map<Tx, Present>, f: Fence): set<Tx> {
    set t | t in ps && ps[t].idleFence == Some(f)
  }

  /** A presentation that uses one fence for both roles counts twice. */
  ghost function FenceUses(ps: map<Tx, Present>, f: Fence): nat {
    |AcquireUsers(ps, f)| + |IdleUsers(ps, f)|
  }

  ghost function UsesOf(p: Present, f: Fence): nat {
    (if p.acquireFence == Some(f) then 1 else 0) + (if p.idleFence == Some(f) then 1 else 0)
  }

  ghost predicate SourcesExact(sources: map<Handle, Source>, ps: map<Tx, Present>) {
    forall h {:trigger SourceUsers(ps, h)} :: h in sources ==>
      && sources[h].references == |SourceUsers(ps, h)|
      && (sources[h].releasePending ==> sources[h].references > 0)
  }

  ghost predicate FencesExact(fences: map<Fence, FenceSource>, ps: map<Tx, Present>) {
    forall f {:trigger FenceUses(ps, f)} :: f in fences ==>
      && fences[f].references == FenceUses(ps, f)
      && (fences[f].releasePending ==> fences[f].references > 0)
  }

  ghost predicate PresentOk(r: Registry, p: Present) {
    && p.source in r.sources
    && (p.acquireFence.Some? ==> p.acquireFence.value in r.fences)
    && (p.idleFence.Some? ==> p.idleFence.value in r.fences)
    && (p.acquireFd.Some? <==> p.state == WaitingForAcquireFence)
    && (p.acquireFd.Some? ==> p.acquireFence.Some?)
    && (p.idleFd.Some? <==> p.idleFence.Some?)
  }

  ghost predicate Inv(r: Registry) {
    && SourcesExact(r.sources, r.presentations)
    && FencesExact(r.fences, r.presentations)
    && (forall t {:trigger PresentOk(r, r.presentations[t])} :: t in r.presentations ==> PresentOk(r, r.presentations[t]))
    && |r.sources| <= r.limits.sources
    && |r.fences| <= r.limits.fences
    && |r.presentations| <= r.limits.presentations
  }

  lemma SourceUsersGrow(ps: map<Tx, Present>, t: Tx, p: Present, h: Handle)
    requires t !in ps
    ensures |SourceUsers(ps[t := p], h)| == |SourceUsers(ps, h)| + (if p.source == h then 1 else 0)
  {
    if p.source == h {
      assert SourceUsers(ps[t := p], h) == SourceUsers(ps, h) + {t};
    } else {
      assert SourceUsers(ps[t := p], h) == SourceUsers(ps, h);
    }
  }

  lemma AcquireUsersGrow(ps: map<Tx, Present>, t: Tx, p: Present, f: Fence)
    requires t !in ps
    ensures |AcquireUsers(ps[t := p], f)| == |AcquireUsers(ps, f)| + (if p.acquireFence == Some(f) then 1 else 0)
  {
    if p.acquireFence == Some(f) {
      assert AcquireUsers(ps[t := p], f) == AcquireUsers(ps, f) + {t};
    } else {
      assert AcquireUsers(ps[t := p], f) == AcquireUsers(ps, f);
    }
  }

  lemma IdleUsersGrow(ps: map<Tx, Present>, t: Tx, p: Present, f: Fence)
    requires t !in ps
    ensures |IdleUsers(ps[t := p], f)| == |IdleUsers(ps, f)| + (if p.idleFence == Some(f) then 1 else 0)
  {
    if p.idleFence == Some(f) {
      assert IdleUsers(ps[t := p], f) == IdleUsers(ps, f) + {t};
    } else {
      assert IdleUsers(ps[t := p], f) == IdleUsers(ps, f);
    }
  }

  /** `qs` is `ps` with one more presentation, `p`, as far as the users of sources and fences go. */
  ghost predicate Grown(ps: map<Tx, Present>, qs: map<Tx, Present>, p: Present) {
    && (forall h: Handle {:trigger SourceUsers(qs, h)} ::
          |SourceUsers(qs, h)| == |SourceUsers(ps, h)| + (if p.source == h then 1 else 0))
    && (forall f: Fence {:trigger FenceUses(qs, f)} :: FenceUses(qs, f) == FenceUses(ps, f) + UsesOf(p, f))
  }

  lemma UsersGrow(ps: map<Tx, Present>, t: Tx, p: Present)
    requires t !in ps
    ensures Grown(ps, ps[t := p], p)
  {
    forall h: Handle {
      SourceUsersGrow(ps, t, p, h);
    }
    forall f: Fence ensures FenceUses(ps[t := p], f) == FenceUses(ps, f) + UsesOf(p, f) {
      AcquireUsersGrow(ps, t, p, f);
      IdleUsersGrow(ps, t, p, f);
    }
  }

  /** Changing how far a presentation has got does not change what it names. */
  lemma UsersKept(sources: map<Handle, Source>, fences: map<Fence, FenceSource>, ps: map<Tx, Present>, t: Tx, p: Present)
    requires t in ps
    requires p.source == ps[t].source && p.acquireFence == ps[t].acquireFence && p.idleFence == ps[t].idleFence
    requires SourcesExact(sources, ps) && FencesExact(fences, ps)
    ensures SourcesExact(sources, ps[t := p]) && FencesExact(fences, ps[t := p])
  {
    forall h | h in sources ensures |SourceUsers(ps[t := p], h)| == |SourceUsers(ps, h)| {
      assert SourceUsers(ps[t := p], h) == SourceUsers(ps, h);
    }
    forall f | f in fences ensures FenceUses(ps[t := p], f) == FenceUses(ps, f) {
      assert AcquireUsers(ps[t := p], f) == AcquireUsers(ps, f);
      assert IdleUsers(ps[t := p], f) == IdleUsers(ps, f);
    }
  }

  // ---------------------------------------------------------------- what each operation does

  /** Exactly when a presentation is admitted. */
  ghost predicate Admissible(r: Registry, t: Tx, h: Handle, acquire: Option<Fence>, idle: Option<Fence>, o: BeginOracle) {
    && t !in r.presentations
    && |r.presentations| < r.limits.presentations
    && h in r.sources && !r.sources[h].releasePending && o.planesClone
    && (acquire.Some? ==>
          && acquire.value in r.fences && !r.fences[acquire.value].releasePending
          && o.acquireClones && o.query.Some?)
    && (idle.Some? ==> idle.value in r.fences && !r.fences[idle.value].releasePending && o.idleClones)
  }

  lemma RetainExact(fences: map<Fence, FenceSource>, ps: map<Tx, Present>, qs: map<Tx, Present>, p: Present)
    requires FencesExact(fences, ps) && Grown(ps, qs, p)
    requires p.acquireFence.Some? ==> p.acquireFence.value in fences
    requires p.idleFence.Some? ==> p.idleFence.value in fences
    ensures var fences' := Retain(Retain(fences, p.acquireFence), p.idleFence);
      FencesExact(fences', qs) && fences'.Keys == fences.Keys
  {
    hide Retain, FencesExact;
    RetainOne(fences, p.acquireFence);
    var fences1 := Retain(fences, p.acquireFence);
    RetainOne(fences1, p.idleFence);
    var fences2 := Retain(fences1, p.idleFence);
    RecountedIsExact(fences, fences2, ps, qs, p);
  }

  lemma RetainOne(fences: map<Fence, FenceSource>, f: Option<Fence>)
    requires f.Some? ==> f.value in fences
    ensures Retain(fences, f).Keys == fences.Keys
    ensures forall g :: g in fences ==>
      Retain(fences, f)[g] == fences[g].(references := fences[g].references + (if f == Some(g) then 1 else 0))
  {
  }

  lemma RecountedIsExact(fences: map<Fence, FenceSource>, fences': map<Fence, FenceSource>, ps: map<Tx, Present>,
                         qs: map<Tx, Present>, p: Present)
    requires FencesExact(fences, ps) && Grown(ps, qs, p) && fences'.Keys == fences.Keys
    requires forall f :: f in fences ==>
      fences'[f] == fences[f].(references := fences[f].references + UsesOf(p, f))
    ensures FencesExact(fences', qs)
  {
    forall f | f in fences'
      ensures fences'[f].references == FenceUses(qs, f)
      ensures fences'[f].releasePending ==> fences'[f].references > 0
    {
      assert fences[f].references == FenceUses(ps, f);
    }
  }

  lemma BeginAdmits(r: Registry, t: Tx, h: Handle, acquire: Option<Fence>, idle: Option<Fence>, o: BeginOracle)
    ensures Begin(r, t, h, acquire, idle, o).Ok? <==> Admissible(r, t, h, acquire, idle, o)
  {
  }

  lemma BeginEffect(r: Registry, t: Tx, h: Handle, acquire: Option<Fence>, idle: Option<Fence>, o: BeginOracle)
    requires Begin(r, t, h, acquire, idle, o).Ok?
    ensures var r' := Begin(r, t, h, acquire, idle, o).value;
      && t !in r.presentations && t in r'.presentations
      && r'.presentations == r.presentations[t := r'.presentations[t]]
      && var p := r'.presentations[t];
      && p.source == h && p.acquireFence == acquire && p.idleFence == idle
      && p.planeFds == r.sources[h].planeFds
      && (p.idleFd.Some? <==> idle.Some?)
      && (p.acquireFd.Some? <==> p.state == WaitingForAcquireFence)
      && (p.state == WaitingForAcquireFence <==> acquire.Some? && o.query == Some(false))
      && p.state != Submitted
  {
  }

  lemma BeginKeepsInv(r: Registry, t: Tx, h: Handle, acquire: Option<Fence>, idle: Option<Fence>, o: BeginOracle)
    requires Inv(r) && Begin(r, t, h, acquire, idle, o).Ok?
    ensures Inv(Begin(r, t, h, acquire, idle, o).value)
    ensures Begin(r, t, h, acquire, idle, o).value.sources.Keys == r.sources.Keys
    ensures Begin(r, t, h, acquire, idle, o).value.fences.Keys == r.fences.Keys
  {
    BeginAdmits(r, t, h, acquire, idle, o);
    BeginEffect(r, t, h, acquire, idle, o);
    var r' := Begin(r, t, h, acquire, idle, o).value;
    var p := r'.presentations[t];
    UsersGrow(r.presentations, t, p);
    RetainExact(r.fences, r.presentations, r'.presentations, p);
    AdmittedKeepsInv(r, r', t, h);
  }

  lemma AdmittedKeepsInv(r: Registry, r': Registry, t: Tx, h: Handle)
    requires Inv(r) && h in r.sources && t !in r.presentations && t in r'.presentations
    requires |r.presentations| < r.limits.presentations
    requires r'.limits == r.limits
    requires r'.presentations == r.presentations[t := r'.presentations[t]]
    requires r'.sources == r.sources[h := r.sources[h].(references := r.sources[h].references + 1)]
    requires r'.fences.Keys == r.fences.Keys && FencesExact(r'.fences, r'.presentations)
    requires Grown(r.presentations, r'.presentations, r'.presentations[t])
    requires r'.presentations[t].source == h && PresentOk(r', r'.presentations[t])
    ensures Inv(r') && r'.sources.Keys == r.sources.Keys
  {
    assert r'.sources.Keys == r.sources.Keys;
    assert |r'.fences| == |r'.fences.Keys|;
    forall u | u in r'.presentations ensures PresentOk(r', r'.presentations[u]) {
      assert u != t ==> PresentOk(r, r.presentations[u]);
    }
  }

  lemma PollKeepsInv(r: Registry, t: Tx, query: Option<bool>)
    requires Inv(r)
    ensures Inv(Poll(r, t, query).0)
  {
    if t in r.presentations {
      var p := r.presentations[t];
      assert PresentOk(r, p);
      if p.state == WaitingForAcquireFence && query == Some(true) {
        AdvanceKeepsInv(r, t, p.(acquireFd := None, state := Ready));
      }
    }
  }

  lemma PollEffect(r: Registry, t: Tx, query: Option<bool>)
    requires t in r.presentations && PresentOk(r, r.presentations[t])
    ensures var (r', result) := Poll(r, t, query);
      && r'.presentations.Keys == r.presentations.Keys
      && (result.Err? ==> r' == r)
      && (r' == r || r' == r.(presentations := r.presentations[t := r'.presentations[t]]))
      && (result == Ok(true) <==> r'.presentations[t].state != WaitingForAcquireFence)
      && (r'.presentations[t].state == Submitted <==> r.presentations[t].state == Submitted)
      && (result.Err? <==> r.presentations[t].state == WaitingForAcquireFence && query.None?)
  {
  }

  lemma AdvanceKeepsInv(r: Registry, t: Tx, p: Present)
    requires Inv(r) && t in r.presentations
    requires p.source == r.presentations[t].source
    requires p.acquireFence == r.presentations[t].acquireFence
    requires p.idleFence == r.presentations[t].idleFence
    requires PresentOk(r, p)
    ensures Inv(r.(presentations := r.presentations[t := p]))
  {
    UsersKept(r.sources, r.fences, r.presentations, t, p);
    var r' := r.(presentations := r.presentations[t := p]);
    assert r'.presentations.Keys == r.presentations.Keys;
    forall u | u in r'.presentations ensures PresentOk(r', r'.presentations[u]) {
      assert PresentOk(r, r.presentations[u]);
    }
  }

  lemma SubmitEffect(r: Registry, t: Tx)
    requires Inv(r)
    ensures var s := Submit(r, t);
      && (s.Ok? <==> t in r.presentations && r.presentations[t].state == Ready)
      && (s.Ok? ==>
            && Inv(s.value)
            && s.value == r.(presentations := r.presentations[t := r.presentations[t].(state := Submitted)]))
  {
    if t in r.presentations && r.presentations[t].state == Ready {
      assert PresentOk(r, r.presentations[t]);
      AdvanceKeepsInv(r, t, r.presentations[t].(state := Submitted));
    }
  }

  /** The fences a retirement releases: pending ones whose every remaining use is the retired presentation. */
  ghost predicate LastUse(fences: map<Fence, FenceSource>, p: Present, f: Fence) {
    f in fences && fences[f].releasePending && fences[f].references == UsesOf(p, f)
  }

  lemma DropFencesEffect(fences: map<Fence, FenceSource>, p: Present)
    requires forall f :: f in fences ==>
      UsesOf(p, f) <= fences[f].references && (fences[f].releasePending ==> fences[f].references > 0)
    ensures var (fences1, released1) := DropFence(fences, p.acquireFence);
      var (fences2, released2) := DropFence(fences1, p.idleFence);
      && (forall f :: f in fences2 <==> f in fences && !LastUse(fences, p, f))
      && (forall f :: f in fences2 ==>
            fences2[f] == fences[f].(references := fences[f].references - UsesOf(p, f)))
      && (forall f :: f in released1 + released2 <==> LastUse(fences, p, f))
      && Distinct(released1 + released2)
  {
  }

  /** `fences'` is what `DropFencesEffect` leaves of `fences` when `p` retires. */
  ghost predicate Dropped(fences: map<Fence, FenceSource>, fences': map<Fence, FenceSource>, p: Present) {
    && (forall f :: f in fences' <==> f in fences && !LastUse(fences, p, f))
    && (forall f :: f in fences' ==>
          && UsesOf(p, f) <= fences[f].references
          && fences'[f] == fences[f].(references := fences[f].references - UsesOf(p, f)))
  }

  lemma DroppedIsExact(fences: map<Fence, FenceSource>, fences': map<Fence, FenceSource>, ps: map<Tx, Present>, t: Tx)
    requires t in ps && FencesExact(fences, ps) && Dropped(fences, fences', ps[t])
    requires Grown(ps - {t}, ps, ps[t])
    ensures FencesExact(fences', ps - {t})
  {
    forall f | f in fences'
      ensures fences'[f].references == FenceUses(ps - {t}, f)
      ensures fences'[f].releasePending ==> fences'[f].references > 0
    {
      assert FenceUses(ps, f) == FenceUses(ps - {t}, f) + UsesOf(ps[t], f);
      assert !LastUse(fences, ps[t], f);
    }
  }

  lemma DroppedKeepsNamed(fences: map<Fence, FenceSource>, fences': map<Fence, FenceSource>, ps: map<Tx, Present>,
                          t: Tx, u: Tx, f: Fence)
    requires t in ps && FencesExact(fences, ps) && Dropped(fences, fences', ps[t])
    requires Grown(ps - {t}, ps, ps[t])
    requires u in ps && u != t && f in fences && UsesOf(ps[u], f) > 0
    ensures f in fences'
  {
    var qs := ps - {t};
    assert u in AcquireUsers(qs, f) || u in IdleUsers(qs, f);
    assert FenceUses(ps, f) == FenceUses(qs, f) + UsesOf(ps[t], f);
  }

  lemma DroppedSourceIsExact(sources: map<Handle, Source>, ps: map<Tx, Present>, t: Tx)
    requires t in ps && SourcesExact(sources, ps) && ps[t].source in sources
    requires Grown(ps - {t}, ps, ps[t])
    ensures var h := ps[t].source; var (sources', released) := DropSource(sources, h);
      && sources[h].references > 0
      && SourcesExact(sources', ps - {t})
      && (released <==> sources[h].releasePending && SourceUsers(ps, h) == {t})
      && sources'.Keys == sources.Keys - (if released then {h} else {})
  {
    var h := ps[t].source;
    var qs := ps - {t};
    assert t in SourceUsers(ps, h);
    assert |SourceUsers(ps, h)| == |SourceUsers(qs, h)| + 1;
    assert SourceUsers(ps, h) == SourceUsers(qs, h) + {t};
    var (sources', released) := DropSource(sources, h);
    forall k | k in sources'
      ensures sources'[k].references == |SourceUsers(qs, k)|
      ensures sources'[k].releasePending ==> sources'[k].references > 0
    {
      assert |SourceUsers(ps, k)| == |SourceUsers(qs, k)| + (if h == k then 1 else 0);
    }
  }

  lemma DroppedSourceKeepsNamed(sources: map<Handle, Source>, ps: map<Tx, Present>, t: Tx, u: Tx)
    requires t in ps && SourcesExact(sources, ps) && ps[t].source in sources
    requires u in ps && u != t && ps[u].source in sources
    ensures ps[u].source in DropSource(sources, ps[t].source).0
  {
    if ps[u].source == ps[t].source {
      assert {t, u} <= SourceUsers(ps, ps[t].source);
      SubsetIsSmaller({t, u}, SourceUsers(ps, ps[t].source));
    }
  }

  lemma RemovalGrows(ps: map<Tx, Present>, t: Tx)
    requires t in ps
    ensures Grown(ps - {t}, ps, ps[t])
  {
    assert (ps - {t})[t := ps[t]] == ps;
    UsersGrow(ps - {t}, t, ps[t]);
  }

  /**
   Retiring a presentation never panics and its counts never saturate; it takes away exactly that
   presentation, and releases exactly the pending resources it was the last to name, each once.
   */
  lemma FinishEffect(r: Registry, t: Tx, triggers: bool)
    requires Inv(r) && t in r.presentations
    ensures var p := r.presentations[t];
      var x := FinishPresent(r, t, triggers);
      && x.Finished?
      && r.sources[p.source].references > 0
      && Inv(x.registry)
      && x.registry.limits == r.limits
      && x.registry.presentations == r.presentations - {t}
      && x.retirement.transaction == t && x.retirement.source == p.source
      && x.retirement.idleFence ==
           (if p.idleFence.None? then NotRequested else if triggers then Triggered else TriggerFailed)
      && (x.retirement.releasedSource <==>
            r.sources[p.source].releasePending && SourceUsers(r.presentations, p.source) == {t})
      && x.registry.sources.Keys == r.sources.Keys - (if x.retirement.releasedSource then {p.source} else {})
      && Dropped(r.fences, x.registry.fences, p)
      && (forall f :: f in x.retirement.releasedFences <==> LastUse(r.fences, p, f))
      && Distinct(x.retirement.releasedFences)
  {
    hide Inv, Grown, SourcesExact, LastUse, DropFence, DropSource, SourceUsers;
    var ps := r.presentations;
    var p := ps[t];
    RemovalGrows(ps, t);
    InvParts(r, t);
    DroppedSourceIsExact(r.sources, ps, t);
    UsesCounted(r, t);
    DropFencesEffect(r.fences, p);
    FinishedKeepsInv(r, FinishPresent(r, t, triggers).registry, t);
  }

  lemma UsesCounted(r: Registry, t: Tx)
    requires Inv(r) && t in r.presentations
    ensures forall f :: f in r.fences ==>
      && UsesOf(r.presentations[t], f) <= r.fences[f].references
      && (r.fences[f].releasePending ==> r.fences[f].references > 0)
  {
    RemovalGrows(r.presentations, t);
    forall f | f in r.fences
      ensures UsesOf(r.presentations[t], f) <= r.fences[f].references
      ensures r.fences[f].releasePending ==> r.fences[f].references > 0
    {
      assert r.fences[f].references == FenceUses(r.presentations, f);
    }
  }

  lemma InvParts(r: Registry, t: Tx)
    requires Inv(r) && t in r.presentations
    ensures PresentOk(r, r.presentations[t]) && SourcesExact(r.sources, r.presentations)
  {
  }

  lemma FinishedKeepsInv(r: Registry, r': Registry, t: Tx)
    requires Inv(r) && t in r.presentations && r.presentations[t].source in r.sources
    requires Grown(r.presentations - {t}, r.presentations, r.presentations[t])
    requires r'.limits == r.limits && r'.presentations == r.presentations - {t}
    requires r'.sources == DropSource(r.sources, r.presentations[t].source).0
    requires r'.sources.Keys <= r.sources.Keys && SourcesExact(r'.sources, r'.presentations)
    requires Dropped(r.fences, r'.fences, r.presentations[t])
    ensures Inv(r')
  {
    hide DropSource, Dropped, Grown;
    DroppedIsExact(r.fences, r'.fences, r.presentations, t);
    forall u | u in r'.presentations ensures PresentOk(r', r'.presentations[u]) {
      assert PresentOk(r, r.presentations[u]);
      DroppedSourceKeepsNamed(r.sources, r.presentations, t, u);
      FinishKeepsNamed(r, r'.fences, t, u);
    }
    DroppedKeysShrink(r.fences, r'.fences, r.presentations[t]);
    SubsetIsSmaller(r'.sources.Keys, r.sources.Keys);
    SubsetIsSmaller(r'.fences.Keys, r.fences.Keys);
    SubsetIsSmaller(r'.presentations.Keys, r.presentations.Keys);
  }

  lemma DroppedKeysShrink(fences: map<Fence, FenceSource>, fences': map<Fence, FenceSource>, p: Present)
    requires Dropped(fences, fences', p)
    ensures fences'.Keys <= fences.Keys
  {
  }

  lemma FinishKeepsNamed(r: Registry, fences': map<Fence, FenceSource>, t: Tx, u: Tx)
    requires FencesExact(r.fences, r.presentations)
    requires t in r.presentations && Dropped(r.fences, fences', r.presentations[t])
    requires Grown(r.presentations - {t}, r.presentations, r.presentations[t])
    requires u in r.presentations && u != t && PresentOk(r, r.presentations[u])
    ensures r.presentations[u].acquireFence.Some? ==> r.presentations[u].acquireFence.value in fences'
    ensures r.presentations[u].idleFence.Some? ==> r.presentations[u].idleFence.value in fences'
  {
    var q := r.presentations[u];
    if q.acquireFence.Some? {
      DroppedKeepsNamed(r.fences, fences', r.presentations, t, u, q.acquireFence.value);
    }
    if q.idleFence.Some? {
      DroppedKeepsNamed(r.fences, fences', r.presentations, t, u, q.idleFence.value);
    }
  }

  // ---------------------------------------------------------------- registration and removal

  lemma UnregisteredIsUnused(r: Registry)
    requires Inv(r)
    ensures forall h: Handle | h !in r.sources :: SourceUsers(r.presentations, h) == {}
    ensures forall f: Fence | f !in r.fences :: FenceUses(r.presentations, f) == 0
  {
    forall h: Handle | h !in r.sources ensures SourceUsers(r.presentations, h) == {} {
      forall t | t in r.presentations ensures r.presentations[t].source != h {
        assert PresentOk(r, r.presentations[t]);
      }
    }
    forall f: Fence | f !in r.fences ensures FenceUses(r.presentations, f) == 0 {
      forall t | t in r.presentations ensures UsesOf(r.presentations[t], f) == 0 {
        assert PresentOk(r, r.presentations[t]);
      }
      assert AcquireUsers(r.presentations, f) == {};
      assert IdleUsers(r.presentations, f) == {};
    }
  }

  /**
   What a live presentation names is there for its retirement, in particular its idle fence is still
   there, and still counted, after its acquire fence was given back, even when they are the same fence.
   */
  lemma NamedIsReferenced(r: Registry, t: Tx)
    requires Inv(r) && t in r.presentations
    ensures var p := r.presentations[t];
      var fences1 := DropFence(r.fences, p.acquireFence).0;
      && p.source in r.sources && r.sources[p.source].references > 0
      && (p.acquireFence.Some? ==> p.acquireFence.value in r.fences && r.fences[p.acquireFence.value].references > 0)
      && (p.idleFence.Some? ==> p.idleFence.value in r.fences && r.fences[p.idleFence.value].references > 0)
      && (p.idleFence.Some? ==> p.idleFence.value in fences1 && fences1[p.idleFence.value].references > 0)
  {
    hide Inv, SourcesExact;
    var p := r.presentations[t];
    InvParts(r, t);
    SourceIsCounted(r.sources, r.presentations, t);
    UsesCounted(r, t);
    if p.acquireFence.Some? {
      assert UsesOf(p, p.acquireFence.value) > 0;
    }
    if p.idleFence.Some? {
      assert UsesOf(p, p.idleFence.value) > 0;
    }
  }

  lemma SourceIsCounted(sources: map<Handle, Source>, ps: map<Tx, Present>, t: Tx)
    requires t in ps && ps[t].source in sources && SourcesExact(sources, ps)
    ensures sources[ps[t].source].references > 0
  {
    assert t in SourceUsers(ps, ps[t].source);
  }

  /** Same presentations over registered resources that still include every named one. */
  lemma ResourcesChangeKeepsInv(r: Registry, r': Registry)
    requires Inv(r)
    requires r'.presentations == r.presentations && r'.limits == r.limits
    requires SourcesExact(r'.sources, r.presentations) && FencesExact(r'.fences, r.presentations)
    requires forall h :: h in r.sources && r.sources[h].references > 0 ==> h in r'.sources
    requires forall f :: f in r.fences && r.fences[f].references > 0 ==> f in r'.fences
    requires |r'.sources| <= r.limits.sources && |r'.fences| <= r.limits.fences
    ensures Inv(r')
  {
    forall t | t in r'.presentations ensures PresentOk(r', r'.presentations[t]) {
      assert PresentOk(r, r.presentations[t]);
      NamedIsReferenced(r, t);
    }
  }

  lemma RegisterSourceKeepsInv(r: Registry, d: Descriptor, planeFds: seq<Fd>)
    requires Inv(r) && RegisterSource(r, d, planeFds).Ok?
    ensures Inv(RegisterSource(r, d, planeFds).value)
  {
    UnregisteredIsUnused(r);
    ResourcesChangeKeepsInv(r, RegisterSource(r, d, planeFds).value);
  }

  lemma RegisterFenceKeepsInv(r: Registry, f: Fence, fd: Fd)
    requires Inv(r) && RegisterFence(r, f, fd).Ok?
    ensures Inv(RegisterFence(r, f, fd).value)
  {
    UnregisteredIsUnused(r);
    ResourcesChangeKeepsInv(r, RegisterFence(r, f, fd).value);
  }

  lemma RemoveSourceKeepsInv(r: Registry, h: Handle)
    requires Inv(r)
    ensures Inv(RemoveSource(r, h).0)
    ensures RemoveSource(r, h).1 == Released <==> h in r.sources && SourceUsers(r.presentations, h) == {}
    ensures RemoveSource(r, h).0.sources.Keys ==
      r.sources.Keys - (if RemoveSource(r, h).1 == Released then {h} else {})
  {
    if h in r.sources {
      assert r.sources[h].references == |SourceUsers(r.presentations, h)|;
      var r' := RemoveSource(r, h).0;
      SubsetIsSmaller(r'.sources.Keys, r.sources.Keys);
      ResourcesChangeKeepsInv(r, r');
    }
  }

  lemma RemoveFenceKeepsInv(r: Registry, f: Fence)
    requires Inv(r)
    ensures Inv(RemoveFence(r, f).0)
    ensures RemoveFence(r, f).1 == Released <==> f in r.fences && FenceUses(r.presentations, f) == 0
    ensures RemoveFence(r, f).0.fences.Keys ==
      r.fences.Keys - (if RemoveFence(r, f).1 == Released then {f} else {})
  {
    if f in r.fences {
      assert r.fences[f].references == FenceUses(r.presentations, f);
      var r' := RemoveFence(r, f).0;
      SubsetIsSmaller(r'.fences.Keys, r.fences.Keys);
      ResourcesChangeKeepsInv(r, r');
    }
  }

  // ---------------------------------------------------------------- disconnect

  /** Resources released so far together with those still registered. */
  ghost predicate SameResources(r: Registry, report: DisconnectReport, r': Registry, report': DisconnectReport) {
    && multiset(report'.releasedSources) + multiset(r'.sources.Keys)
       == multiset(report.releasedSources) + multiset(r.sources.Keys)
    && multiset(report'.releasedFences) + multiset(r'.fences.Keys)
       == multiset(report.releasedFences) + multiset(r.fences.Keys)
  }

  ghost function WithIdle(ps: map<Tx, Present>, ts: seq<Tx>, failing: set<Tx>, fails: bool): nat {
    if ts == [] then 0
    else
      (if ts[0] in ps && ps[ts[0]].idleFence.Some? && (ts[0] in failing <==> fails) then 1 else 0)
      + WithIdle(ps, ts[1..], failing, fails)
  }

  lemma SplitKeys(kept: set<nat>, released: seq<nat>, before: set<nat>)
    requires Distinct(released)
    requires forall x :: x in before <==> x in kept || x in released
    requires forall x :: x in released ==> x !in kept
    ensures multiset(released) + multiset(kept) == multiset(before)
  {
    DistinctMultiset(released);
    forall x: nat ensures (multiset(released) + multiset(kept))[x] == multiset(before)[x] {
      assert x in released ==> multiset(released)[x] == 1;
    }
  }

  lemma FinishConservesSources(r: Registry, t: Tx, triggers: bool)
    requires Inv(r) && t in r.presentations
    ensures var x := FinishPresent(r, t, triggers);
      && x.Finished?
      && multiset(if x.retirement.releasedSource then [x.retirement.source] else [])
         + multiset(x.registry.sources.Keys) == multiset(r.sources.Keys)
  {
    FinishEffect(r, t, triggers);
    var x := FinishPresent(r, t, triggers);
    assert PresentOk(r, r.presentations[t]);
    SplitKeys(x.registry.sources.Keys, if x.retirement.releasedSource then [x.retirement.source] else [], r.sources.Keys);
  }

  lemma FinishConservesFences(r: Registry, t: Tx, triggers: bool)
    requires Inv(r) && t in r.presentations
    ensures var x := FinishPresent(r, t, triggers);
      && x.Finished?
      && multiset(x.retirement.releasedFences) + multiset(x.registry.fences.Keys) == multiset(r.fences.Keys)
  {
    FinishEffect(r, t, triggers);
    var x := FinishPresent(r, t, triggers);
    SplitKeys(x.registry.fences.Keys, x.retirement.releasedFences, r.fences.Keys);
  }

  lemma FinishConserves(r: Registry, t: Tx, triggers: bool, report: DisconnectReport)
    requires Inv(r) && t in r.presentations
    ensures var x := FinishPresent(r, t, triggers);
      x.Finished? && SameResources(r, report, x.registry, Count(report, x.retirement))
  {
    FinishConservesSources(r, t, triggers);
    FinishConservesFences(r, t, triggers);
  }

  lemma FinishKeepsInv(r: Registry, t: Tx, triggers: bool)
    requires Inv(r) && t in r.presentations
    ensures var x := FinishPresent(r, t, triggers);
      && x.Finished? && Inv(x.registry)
      && x.registry.presentations == r.presentations - {t}
      && x.registry.limits == r.limits
      && x.retirement.idleFence ==
           (if r.presentations[t].idleFence.None? then NotRequested else if triggers then Triggered else TriggerFailed)
  {
    FinishEffect(r, t, triggers);
  }

  lemma {:induction false} FinishAllKeepsInv(r: Registry, ts: seq<Tx>, failing: set<Tx>, report: DisconnectReport)
    requires Inv(r) && Distinct(ts) && forall t :: t in ts ==> t in r.presentations
    ensures var s := FinishAll(r, ts, failing, report);
      && s.Swept?
      && Inv(s.registry)
      && s.registry.limits == r.limits
      && s.registry.presentations.Keys <= r.presentations.Keys
      && (forall t :: t in ts ==> t !in s.registry.presentations)
    decreases |ts|
  {
    if ts != [] {
      FinishKeepsInv(r, ts[0], ts[0] !in failing);
      var x := FinishPresent(r, ts[0], ts[0] !in failing);
      FinishAllKeepsInv(x.registry, ts[1..], failing, Count(report, x.retirement));
    }
  }

  lemma {:induction false} FinishAllConserves(r: Registry, ts: seq<Tx>, failing: set<Tx>, report: DisconnectReport)
    requires Inv(r) && Distinct(ts) && forall t :: t in ts ==> t in r.presentations
    ensures var s := FinishAll(r, ts, failing, report);
      s.Swept? && SameResources(r, report, s.registry, s.report)
    decreases |ts|
  {
    if ts != [] {
      FinishKeepsInv(r, ts[0], ts[0] !in failing);
      FinishConserves(r, ts[0], ts[0] !in failing, report);
      var x := FinishPresent(r, ts[0], ts[0] !in failing);
      FinishAllConserves(x.registry, ts[1..], failing, Count(report, x.retirement));
    }
  }

  lemma {:induction false} FinishAllCounts(r: Registry, ts: seq<Tx>, failing: set<Tx>, report: DisconnectReport)
    requires Inv(r) && Distinct(ts) && forall t :: t in ts ==> t in r.presentations
    ensures var s := FinishAll(r, ts, failing, report);
      && s.Swept?
      && s.report.retiredPresentations == report.retiredPresentations + |ts|
      && s.report.triggeredIdleFences ==
           report.triggeredIdleFences + WithIdle(r.presentations, ts, failing, false)
      && s.report.failedIdleFences == report.failedIdleFences + WithIdle(r.presentations, ts, failing, true)
    decreases |ts|
  {
    if ts != [] {
      FinishKeepsInv(r, ts[0], ts[0] !in failing);
      var x := FinishPresent(r, ts[0], ts[0] !in failing);
      FinishAllCounts(x.registry, ts[1..], failing, Count(report, x.retirement));
      WithIdleKept(r.presentations, ts[0], ts[1..], failing, true);
      WithIdleKept(r.presentations, ts[0], ts[1..], failing, false);
    }
  }

  lemma {:induction false} WithIdleKept(ps: map<Tx, Present>, t: Tx, ts: seq<Tx>, failing: set<Tx>, fails: bool)
    requires t !in ts
    ensures WithIdle(ps - {t}, ts, failing, fails) == WithIdle(ps, ts, failing, fails)
  {
    if ts != [] {
      WithIdleKept(ps, t, ts[1..], failing, fails);
    }
  }

  lemma DisconnectEmpties(r: Registry, failing: set<Tx>)
    requires Inv(r)
    ensures Disconnect(r, failing).Swept?
    ensures Disconnect(r, failing).registry == Empty(r.limits)
    ensures Inv(Disconnect(r, failing).registry)
  {
    var ts := Ascending(r.presentations.Keys);
    IncreasingIsDistinct(ts);
    FinishAllKeepsInv(r, ts, failing, NoReport);
    var s := FinishAll(r, ts, failing, NoReport);
    assert s.registry.presentations.Keys == {};
  }

  /** The disconnect report names every resource that was registered exactly once, and nothing else. */
  lemma DisconnectReleasesEachOnce(r: Registry, failing: set<Tx>)
    requires Inv(r)
    ensures Disconnect(r, failing).Swept?
    ensures multiset(Disconnect(r, failing).report.releasedSources) == multiset(r.sources.Keys)
    ensures multiset(Disconnect(r, failing).report.releasedFences) == multiset(r.fences.Keys)
  {
    hide Inv, SameResources;
    var ts := Ascending(r.presentations.Keys);
    IncreasingIsDistinct(ts);
    FinishAllConserves(r, ts, failing, NoReport);
    var s := FinishAll(r, ts, failing, NoReport);
    ReleasedThenKept(r, s.registry, s.report);
  }

  lemma ReleasedThenKept(r: Registry, r': Registry, report: DisconnectReport)
    requires SameResources(r, NoReport, r', report)
    ensures multiset(report.releasedSources + Ascending(r'.sources.Keys)) == multiset(r.sources.Keys)
    ensures multiset(report.releasedFences + Ascending(r'.fences.Keys)) == multiset(r.fences.Keys)
  {
    ReportCoversRest(report.releasedSources, r'.sources.Keys);
    ReportCoversRest(report.releasedFences, r'.fences.Keys);
  }

  /** It counts every presentation, and splits those with an idle fence by whether it triggered. */
  lemma DisconnectCounts(r: Registry, failing: set<Tx>)
    requires Inv(r)
    ensures var s := Disconnect(r, failing);
      && s.Swept?
      && s.report.retiredPresentations == |r.presentations|
      && s.report.triggeredIdleFences == WithIdle(r.presentations, Ascending(r.presentations.Keys), failing, false)
      && s.report.failedIdleFences == WithIdle(r.presentations, Ascending(r.presentations.Keys), failing, true)
  {
    hide Inv, FinishAll, WithIdle;
    var ts := Ascending(r.presentations.Keys);
    IncreasingIsDistinct(ts);
    FinishAllCounts(r, ts, failing, NoReport);
    AscendingLength(r.presentations.Keys);
  }

  lemma ReportCoversRest(released: seq<nat>, kept: set<nat>)
    ensures multiset(released + Ascending(kept)) == multiset(released) + multiset(kept)
  {
  }

  lemma AscendingLength(s: set<nat>)
    ensures |Ascending(s)| == |s|
  {
    assert |multiset(Ascending(s))| == |multiset(s)|;
  }

  // ---------------------------------------------------------------- runs

  datatype Op =
    | OpRegisterSource(descriptor: Descriptor, planeFds: seq<Fd>)
    | OpRegisterFence(fence: Fence, fd: Fd)
    | OpBegin(transaction: Tx, handle: Handle, acquire: Option<Fence>, idle: Option<Fence>, oracle: BeginOracle)
    | OpPoll(transaction: Tx, query: Option<bool>)
    | OpSubmit(transaction: Tx)
    | OpRetire(transaction: Tx, byFlip: bool, triggers: bool)
    | OpRemoveSource(handle: Handle)
    | OpRemoveFence(fence: Fence)
    | OpDisconnect(failing: set<Tx>)

  /** What a client has been told: its successful registrations and every release report. */
  datatype Ledger = Ledger(
    registeredSources: multiset<Handle>,
    releasedSources: multiset<Handle>,
    registeredFences: multiset<Fence>,
    releasedFences: multiset<Fence>)

  datatype Outcome = Panicked | Stepped(registry: Registry, ledger: Ledger)

  function OrElse(result: Result<Registry, Error>, r: Registry): Registry {
    if result.Ok? then result.value else r
  }

  function Step(r: Registry, ledger: Ledger, op: Op): Outcome {
    match op
    case OpRegisterSource(d, fds) =>
      var result := RegisterSource(r, d, fds);
      Stepped(OrElse(result, r),
              if result.Ok? then ledger.(registeredSources := ledger.registeredSources + multiset{d.handle}) else ledger)
    case OpRegisterFence(f, fd) =>
      var result := RegisterFence(r, f, fd);
      Stepped(OrElse(result, r),
              if result.Ok? then ledger.(registeredFences := ledger.registeredFences + multiset{f}) else ledger)
    case OpBegin(t, h, acquire, idle, o) => Stepped(OrElse(Begin(r, t, h, acquire, idle, o), r), ledger)
    case OpPoll(t, query) => Stepped(Poll(r, t, query).0, ledger)
    case OpSubmit(t) => Stepped(OrElse(Submit(r, t), r), ledger)
    case OpRetire(t, byFlip, triggers) =>
      if !Retires(r, t, byFlip) then Stepped(r, ledger)
      else (match FinishPresent(r, t, triggers)
        case FinishPanicked => Panicked
        case Finished(r', x) =>
          Stepped(r', ledger.(
            releasedSources := ledger.releasedSources + (if x.releasedSource then multiset{x.source} else multiset{}),
            releasedFences := ledger.releasedFences + multiset(x.releasedFences))))
    case OpRemoveSource(h) =>
      var (r', status) := RemoveSource(r, h);
      Stepped(r', if status == Released then ledger.(releasedSources := ledger.releasedSources + multiset{h}) else ledger)
    case OpRemoveFence(f) =>
      var (r', status) := RemoveFence(r, f);
      Stepped(r', if status == Released then ledger.(releasedFences := ledger.releasedFences + multiset{f}) else ledger)
    case OpDisconnect(failing) =>
      match Disconnect(r, failing)
      case SweepPanicked => Panicked
      case Swept(r', report) =>
        Stepped(r', ledger.(
          releasedSources := ledger.releasedSources + multiset(report.releasedSources),
          releasedFences := ledger.releasedFences + multiset(report.releasedFences)))
  }

  function Run(r: Registry, ledger: Ledger, ops: seq<Op>): Outcome
    decreases |ops|
  {
    if ops == [] then Stepped(r, ledger)
    else match Step(r, ledger, ops[0])
      case Panicked => Panicked
      case Stepped(r', ledger') => Run(r', ledger', ops[1..])
  }

  /** Every registration has been released once, or is still registered. */
  ghost predicate Balanced(r: Registry, ledger: Ledger) {
    && ledger.registeredSources == ledger.releasedSources + multiset(r.sources.Keys)
    && ledger.registeredFences == ledger.releasedFences + multiset(r.fences.Keys)
  }

  const NothingYet := Ledger(multiset{}, multiset{}, multiset{}, multiset{})

  lemma StepKeepsInv(r: Registry, ledger: Ledger, op: Op)
    requires Inv(r)
    ensures Step(r, ledger, op).Stepped?
    ensures Inv(Step(r, ledger, op).registry)
  {
    hide Inv, RegisterSource, RegisterFence, Begin, Poll, Submit, FinishPresent, RemoveSource, RemoveFence, Disconnect;
    match op
    case OpRegisterSource(d, fds) =>
      if RegisterSource(r, d, fds).Ok? {
        RegisterSourceKeepsInv(r, d, fds);
      }
    case OpRegisterFence(f, fd) =>
      if RegisterFence(r, f, fd).Ok? {
        RegisterFenceKeepsInv(r, f, fd);
      }
    case OpBegin(t, h, acquire, idle, o) =>
      if Begin(r, t, h, acquire, idle, o).Ok? {
        BeginKeepsInv(r, t, h, acquire, idle, o);
      }
    case OpPoll(t, query) =>
      PollKeepsInv(r, t, query);
    case OpSubmit(t) =>
      SubmitEffect(r, t);
    case OpRetire(t, byFlip, triggers) =>
      if Retires(r, t, byFlip) {
        FinishKeepsInv(r, t, triggers);
      }
    case OpRemoveSource(h) =>
      RemoveSourceKeepsInv(r, h);
    case OpRemoveFence(f) =>
      RemoveFenceKeepsInv(r, f);
    case OpDisconnect(failing) =>
      DisconnectEmpties(r, failing);
  }

  /** Between `r` and `r'` these sources and fences were registered and these were released. */
  ghost predicate Moves(r: Registry, r': Registry, inS: multiset<Handle>, outS: multiset<Handle>,
                        inF: multiset<Fence>, outF: multiset<Fence>)
  {
    && multiset(r'.sources.Keys) + outS == multiset(r.sources.Keys) + inS
    && multiset(r'.fences.Keys) + outF == multiset(r.fences.Keys) + inF
  }

  lemma AddedKey(before: set<nat>, after: set<nat>, x: nat)
    requires x !in before
    requires forall y :: y in after <==> y in before || y == x
    ensures multiset(after) == multiset(before) + multiset{x}
  {
    assert after == before + {x};
  }

  lemma RegisterSourceMoves(r: Registry, d: Descriptor, planeFds: seq<Fd>)
    requires RegisterSource(r, d, planeFds).Ok?
    ensures Moves(r, RegisterSource(r, d, planeFds).value, multiset{d.handle}, multiset{}, multiset{}, multiset{})
  {
    AddedKey(r.sources.Keys, RegisterSource(r, d, planeFds).value.sources.Keys, d.handle);
  }

  lemma RegisterFenceMoves(r: Registry, f: Fence, fd: Fd)
    requires RegisterFence(r, f, fd).Ok?
    ensures Moves(r, RegisterFence(r, f, fd).value, multiset{}, multiset{}, multiset{f}, multiset{})
  {
    AddedKey(r.fences.Keys, RegisterFence(r, f, fd).value.fences.Keys, f);
  }

  lemma RemoveSourceMoves(r: Registry, h: Handle)
    ensures var (r', status) := RemoveSource(r, h);
      Moves(r, r', multiset{}, if status == Released then multiset{h} else multiset{}, multiset{}, multiset{})
  {
    var (r', status) := RemoveSource(r, h);
    assert r'.sources.Keys == r.sources.Keys - (if status == Released then {h} else {});
  }

  lemma RemoveFenceMoves(r: Registry, f: Fence)
    ensures var (r', status) := RemoveFence(r, f);
      Moves(r, r', multiset{}, multiset{}, multiset{}, if status == Released then multiset{f} else multiset{})
  {
    var (r', status) := RemoveFence(r, f);
    assert r'.fences.Keys == r.fences.Keys - (if status == Released then {f} else {});
  }

  lemma FinishMoves(r: Registry, t: Tx, triggers: bool)
    requires Inv(r) && t in r.presentations
    ensures var x := FinishPresent(r, t, triggers);
      && x.Finished?
      && Moves(r, x.registry,
               multiset{}, if x.retirement.releasedSource then multiset{x.retirement.source} else multiset{},
               multiset{}, multiset(x.retirement.releasedFences))
  {
    FinishConservesSources(r, t, triggers);
    FinishConservesFences(r, t, triggers);
  }

  lemma DisconnectMoves(r: Registry, failing: set<Tx>)
    requires Inv(r)
    ensures var s := Disconnect(r, failing);
      && s.Swept?
      && Moves(r, s.registry, multiset{}, multiset(s.report.releasedSources), multiset{}, multiset(s.report.releasedFences))
  {
    hide Inv, Disconnect;
    DisconnectEmpties(r, failing);
    DisconnectReleasesEachOnce(r, failing);
  }

  lemma SameKeysMove(r: Registry, r': Registry)
    requires r'.sources.Keys == r.sources.Keys && r'.fences.Keys == r.fences.Keys
    ensures Moves(r, r', multiset{}, multiset{}, multiset{}, multiset{})
  {
  }

  lemma StepMoves(r: Registry, ledger: Ledger, op: Op)
    returns (inS: multiset<Handle>, outS: multiset<Handle>, inF: multiset<Fence>, outF: multiset<Fence>)
    requires Inv(r)
    ensures Step(r, ledger, op).Stepped?
    ensures Moves(r, Step(r, ledger, op).registry, inS, outS, inF, outF)
    ensures var l := Step(r, ledger, op).ledger;
      && l.registeredSources == ledger.registeredSources + inS
      && l.releasedSources == ledger.releasedSources + outS
      && l.registeredFences == ledger.registeredFences + inF
      && l.releasedFences == ledger.releasedFences + outF
  {
    hide Inv, Moves, RegisterSource, RegisterFence, Begin, FinishPresent, RemoveSource, RemoveFence, Disconnect;
    inS, outS, inF, outF := multiset{}, multiset{}, multiset{}, multiset{};
    SameKeysMove(r, r);
    match op
    case OpRegisterSource(d, fds) =>
      if RegisterSource(r, d, fds).Ok? {
        RegisterSourceMoves(r, d, fds);
        inS := multiset{d.handle};
      }
    case OpRegisterFence(f, fd) =>
      if RegisterFence(r, f, fd).Ok? {
        RegisterFenceMoves(r, f, fd);
        inF := multiset{f};
      }
    case OpBegin(t, h, acquire, idle, o) =>
      if Begin(r, t, h, acquire, idle, o).Ok? {
        BeginKeepsInv(r, t, h, acquire, idle, o);
        SameKeysMove(r, Begin(r, t, h, acquire, idle, o).value);
      }
    case OpPoll(t, query) =>
      SameKeysMove(r, Poll(r, t, query).0);
    case OpSubmit(t) =>
      SameKeysMove(r, OrElse(Submit(r, t), r));
    case OpRetire(t, byFlip, triggers) =>
      if Retires(r, t, byFlip) {
        FinishMoves(r, t, triggers);
        var x := FinishPresent(r, t, triggers).retirement;
        outS := if x.releasedSource then multiset{x.source} else multiset{};
        outF := multiset(x.releasedFences);
      }
    case OpRemoveSource(h) =>
      RemoveSourceMoves(r, h);
      outS := if RemoveSource(r, h).1 == Released then multiset{h} else multiset{};
    case OpRemoveFence(f) =>
      RemoveFenceMoves(r, f);
      outF := if RemoveFence(r, f).1 == Released then multiset{f} else multiset{};
    case OpDisconnect(failing) =>
      DisconnectMoves(r, failing);
      outS := multiset(Disconnect(r, failing).report.releasedSources);
      outF := multiset(Disconnect(r, failing).report.releasedFences);
  }

  lemma StepKeepsBalance(r: Registry, ledger: Ledger, op: Op)
    requires Inv(r) && Balanced(r, ledger)
    ensures Step(r, ledger, op).Stepped?
    ensures Balanced(Step(r, ledger, op).registry, Step(r, ledger, op).ledger)
  {
    hide Inv, Step;
    var inS, outS, inF, outF := StepMoves(r, ledger, op);
    var r' := Step(r, ledger, op).registry;
    StillBalanced(ledger.registeredSources, ledger.releasedSources,
                  multiset(r.sources.Keys), multiset(r'.sources.Keys), inS, outS);
    StillBalanced(ledger.registeredFences, ledger.releasedFences,
                  multiset(r.fences.Keys), multiset(r'.fences.Keys), inF, outF);
  }

  lemma StillBalanced(registered: multiset<nat>, released: multiset<nat>, held: multiset<nat>, held': multiset<nat>,
                      entered: multiset<nat>, left: multiset<nat>)
    requires registered == released + held
    requires held' + left == held + entered
    ensures registered + entered == released + left + held'
  {
    calc {
      registered + entered;
      released + (held + entered);
      released + (held' + left);
      released + left + held';
    }
  }

  /** No run panics, and in every state it reaches the counts are exact. */
  lemma {:induction false} RunKeepsInv(r: Registry, ledger: Ledger, ops: seq<Op>)
    requires Inv(r)
    ensures Run(r, ledger, ops).Stepped? && Inv(Run(r, ledger, ops).registry)
    decreases |ops|
  {
    if ops != [] {
      StepKeepsInv(r, ledger, ops[0]);
      var s := Step(r, ledger, ops[0]);
      RunKeepsInv(s.registry, s.ledger, ops[1..]);
    }
  }

  lemma {:induction false} RunKeepsBalance(r: Registry, ledger: Ledger, ops: seq<Op>)
    requires Inv(r) && Balanced(r, ledger)
    ensures Run(r, ledger, ops).Stepped?
    ensures Balanced(Run(r, ledger, ops).registry, Run(r, ledger, ops).ledger)
    decreases |ops|
  {
    if ops != [] {
      StepKeepsInv(r, ledger, ops[0]);
      StepKeepsBalance(r, ledger, ops[0]);
      var s := Step(r, ledger, ops[0]);
      RunKeepsBalance(s.registry, s.ledger, ops[1..]);
    }
  }

  /** Release conservation: from an empty registry, registrations = releases + what is still registered. */
  lemma RunConserves(limits: Limits, ops: seq<Op>)
    ensures var end := Run(Empty(limits), NothingYet, ops);
      && end.Stepped?
      && Inv(end.registry)
      && end.ledger.registeredSources == end.ledger.releasedSources + multiset(end.registry.sources.Keys)
      && end.ledger.registeredFences == end.ledger.releasedFences + multiset(end.registry.fences.Keys)
  {
    hide Run;
    var r := Empty(limits);
    assert Inv(r) && Balanced(r, NothingYet);
    RunKeepsInv(r, NothingYet, ops);
    RunKeepsBalance(r, NothingYet, ops);
  }

  /** With at most `n` presentations in flight, no source count exceeds `n` and no fence count `2 * n`. */
  lemma CountsBounded(r: Registry)
    requires Inv(r)
    ensures forall h :: h in r.sources ==> r.sources[h].references <= r.limits.presentations
    ensures forall f :: f in r.fences ==> r.fences[f].references <= 2 * r.limits.presentations
  {
    var keys := r.presentations.Keys;
    forall h | h in r.sources ensures r.sources[h].references <= r.limits.presentations {
      SubsetIsSmaller(SourceUsers(r.presentations, h), keys);
    }
    forall f | f in r.fences ensures r.fences[f].references <= 2 * r.limits.presentations {
      SubsetIsSmaller(AcquireUsers(r.presentations, f), keys);
      SubsetIsSmaller(IdleUsers(r.presentations, f), keys);
      assert r.fences[f].references == FenceUses(r.presentations, f);
    }
  }
}
