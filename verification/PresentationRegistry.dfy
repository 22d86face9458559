/**
 The registry object: its maps and counters are updated in place, and every method is tied to the
 state machine of `PresentationModel`. Entries the implementation fetches with `expect` are plain
 map selections here, so verification of a body is the proof that the `expect` cannot fire.
 */
module PresentationRegistry {
  import opened Basics
  import opened PresentationModel

  class LiveDmaBufPresentationRegistry {
    var sources: map<Handle, Source>
    var fences: map<Fence, FenceSource>
    var presentations: map<Tx, Present>
    const limits: Limits

    function Abs(): Registry
      reads this
    {
      Registry(sources, fences, presentations, limits)
    }

    ghost predicate Valid()
      reads this
    {
      Inv(Abs())
    }

    constructor WithLimits(limits: Limits)
      ensures Valid() && Abs() == Empty(limits)
    {
      this.limits := limits;
      sources, fences, presentations := map[], map[], map[];
    }

    method RegisterSource(d: Descriptor, planeFds: seq<Fd>) returns (result: Result<Unit, Error>)
      requires Valid()
      modifies this
      ensures Valid()
      ensures var spec := PresentationModel.RegisterSource(old(Abs()), d, planeFds);
        && Abs() == OrElse(spec, old(Abs()))
        && (result.Ok? <==> spec.Ok?) && (result.Err? ==> result.error == spec.error)
    {
      if !d.wellFormed {
        return Err(InvalidDescriptor);
      }
      if |planeFds| != d.planeCount {
        return Err(PlaneFdCountMismatch);
      }
      if d.handle in sources {
        return Err(DuplicateHandle);
      }
      if |sources| >= limits.sources {
        return Err(CapacityExceeded);
      }
      RegisterSourceKeepsInv(Abs(), d, planeFds);
      sources := sources[d.handle := Source(planeFds, 0, false)];
      return Ok(Unit.Unit);
    }

    method RegisterFence(fence: Fence, fd: Fd) returns (result: Result<Unit, Error>)
      requires Valid()
      modifies this
      ensures Valid()
      ensures var spec := PresentationModel.RegisterFence(old(Abs()), fence, fd);
        && Abs() == OrElse(spec, old(Abs()))
        && (result.Ok? <==> spec.Ok?) && (result.Err? ==> result.error == spec.error)
    {
      if fence in fences {
        return Err(DuplicateFence);
      }
      if |fences| >= limits.fences {
        return Err(CapacityExceeded);
      }
      RegisterFenceKeepsInv(Abs(), fence, fd);
      fences := fences[fence := FenceSource(fd, 0, false)];
      return Ok(Unit.Unit);
    }

    method BeginPresent(t: Tx, h: Handle, acquire: Option<Fence>, idle: Option<Fence>, o: BeginOracle)
      returns (result: Result<Unit, Error>)
      requires Valid()
      modifies this
      ensures Valid()
      ensures var spec := Begin(old(Abs()), t, h, acquire, idle, o);
        && Abs() == OrElse(spec, old(Abs()))
        && (result.Ok? <==> spec.Ok?) && (result.Err? ==> result.error == spec.error)
      ensures result.Ok? <==> Admissible(old(Abs()), t, h, acquire, idle, o)
    {
      hide Inv, Admissible;
      ghost var before := Abs();
      BeginAdmits(before, t, h, acquire, idle, o);
      if t in presentations {
        return Err(DuplicatePresentation);
      }
      if |presentations| >= limits.presentations {
        return Err(CapacityExceeded);
      }
      if h !in sources {
        return Err(UnknownHandle);
      }
      if sources[h].releasePending {
        return Err(SourceReleasePending);
      }
      if !o.planesClone {
        return Err(FdCloneFailed);
      }
      var planeFds := sources[h].planeFds;
      var acquireFd := CloneFence(Abs(), acquire, o.acquireClones);
      if acquireFd.Err? {
        return Err(acquireFd.error);
      }
      var idleFd := CloneFence(Abs(), idle, o.idleClones);
      if idleFd.Err? {
        return Err(idleFd.error);
      }
      if acquireFd.value.Some? && o.query.None? {
        return Err(FenceQueryFailed);
      }
      var ready := acquireFd.value.None? || o.query.value;
      BeginKeepsInv(before, t, h, acquire, idle, o);
      sources := sources[h := sources[h].(references := sources[h].references + 1)];
      if acquire.Some? {
        fences := fences[acquire.value := fences[acquire.value].(references := fences[acquire.value].references + 1)];
      }
      if idle.Some? {
        fences := fences[idle.value := fences[idle.value].(references := fences[idle.value].references + 1)];
      }
      presentations := presentations[t := Present(
        h, acquire, idle, planeFds,
        if ready then None else acquireFd.value,
        idleFd.value,
        if ready then Ready else WaitingForAcquireFence)];
      return Ok(Unit.Unit);
    }

    method PollAcquireFence(t: Tx, query: Option<bool>) returns (result: Result<bool, Error>)
      requires Valid()
      modifies this
      ensures Valid()
      ensures (Abs(), result) == Poll(old(Abs()), t, query)
    {
      PollKeepsInv(Abs(), t, query);
      if t !in presentations {
        return Err(UnknownPresentation);
      }
      var p := presentations[t];
      if p.state != WaitingForAcquireFence {
        return Ok(true);
      }
      if p.acquireFd.None? || query.None? {
        return Err(FenceQueryFailed);
      }
      if query.value {
        presentations := presentations[t := p.(acquireFd := None, state := Ready)];
      }
      return Ok(query.value);
    }

    method SubmitPresent(t: Tx) returns (result: Result<Unit, Error>)
      requires Valid()
      modifies this
      ensures Valid()
      ensures var spec := Submit(old(Abs()), t);
        && Abs() == OrElse(spec, old(Abs()))
        && (result.Ok? <==> spec.Ok?) && (result.Err? ==> result.error == spec.error)
    {
      SubmitEffect(Abs(), t);
      if t !in presentations {
        return Err(UnknownPresentation);
      }
      match presentations[t].state {
        case WaitingForAcquireFence =>
          return Err(AcquireFencePending);
        case Ready =>
          presentations := presentations[t := presentations[t].(state := Submitted)];
          return Ok(Unit.Unit);
        case Submitted =>
          return Err(AlreadySubmitted);
      }
    }

    method RetirePageFlip(t: Tx, triggers: bool) returns (result: Option<Retirement>)
      requires Valid()
      modifies this
      ensures Valid()
      ensures result.Some? <==> Retires(old(Abs()), t, true)
      ensures result.Some? ==> FinishPresent(old(Abs()), t, triggers) == Finished(Abs(), result.value)
      ensures result.None? ==> Abs() == old(Abs())
    {
      if t in presentations && presentations[t].state == Submitted {
        var x := FinishOne(t, triggers);
        return Some(x);
      }
      return None;
    }

    method Reject(t: Tx, triggers: bool) returns (result: Option<Retirement>)
      requires Valid()
      modifies this
      ensures Valid()
      ensures result.Some? <==> Retires(old(Abs()), t, false)
      ensures result.Some? ==> FinishPresent(old(Abs()), t, triggers) == Finished(Abs(), result.value)
      ensures result.None? ==> Abs() == old(Abs())
    {
      if t in presentations {
        var x := FinishOne(t, triggers);
        return Some(x);
      }
      return None;
    }

    method FinishOne(t: Tx, triggers: bool) returns (x: Retirement)
      requires Valid() && t in presentations
      modifies this
      ensures Valid()
      ensures FinishPresent(old(Abs()), t, triggers) == Finished(Abs(), x)
    {
      hide Inv;
      ghost var before := Abs();
      FinishKeepsInv(before, t, triggers);
      NamedIsReferenced(before, t);
      var p := presentations[t];
      presentations := presentations - {t};
      var idleFence := IdleStatus(p, triggers);

      assert SaturatingDecrement(sources[p.source].references) == sources[p.source].references - 1;
      var source := sources[p.source].(references := SaturatingDecrement(sources[p.source].references));
      sources := sources[p.source := source];
      var releasedSource := source.references == 0 && source.releasePending;
      if releasedSource {
        sources := sources - {p.source};
        assert sources == before.sources - {p.source};
      }

      var releasedFences := DropFences([p.acquireFence, p.idleFence]);
      x := Retirement(t, p.source, idleFence, releasedSource, releasedFences);
    }

    /** Gives back one reference per named fence; both lookups find the fence, so none is skipped. */
    method DropFences(named: seq<Option<Fence>>) returns (released: seq<Fence>)
      requires |named| == 2
      requires named[0].Some? ==> named[0].value in fences && fences[named[0].value].references > 0
      requires named[1].Some? ==> var fences1 := DropFence(fences, named[0]).0;
        named[1].value in fences1 && fences1[named[1].value].references > 0
      modifies this`fences
      ensures var (fences1, released1) := DropFence(old(fences), named[0]);
        var (fences2, released2) := DropFence(fences1, named[1]);
        fences == fences2 && released == released1 + released2
    {
      released := [];
      ghost var (fences1, released1) := DropFence(fences, named[0]);
      ghost var (fences2, released2) := DropFence(fences1, named[1]);
      for i := 0 to |named|
        invariant i == 0 ==> fences == old(fences) && released == []
        invariant i == 1 ==> fences == fences1 && released == released1
        invariant i == 2 ==> fences == fences2 && released == released1 + released2
      {
        if named[i].Some? {
          var fence := named[i].value;
          assert SaturatingDecrement(fences[fence].references) == fences[fence].references - 1;
          var registration := fences[fence].(references := SaturatingDecrement(fences[fence].references));
          if registration.references == 0 && registration.releasePending {
            fences := fences - {fence};
            released := released + [fence];
          } else {
            fences := fences[fence := registration];
          }
        }
      }
    }

    method RemoveSource(h: Handle) returns (status: ReleaseStatus)
      requires Valid()
      modifies this
      ensures Valid()
      ensures (Abs(), status) == PresentationModel.RemoveSource(old(Abs()), h)
    {
      RemoveSourceKeepsInv(Abs(), h);
      if h !in sources {
        return Unknown;
      }
      if sources[h].references > 0 {
        sources := sources[h := sources[h].(releasePending := true)];
        return Deferred;
      }
      sources := sources - {h};
      return Released;
    }

    method RemoveFence(f: Fence) returns (status: ReleaseStatus)
      requires Valid()
      modifies this
      ensures Valid()
      ensures (Abs(), status) == PresentationModel.RemoveFence(old(Abs()), f)
    {
      RemoveFenceKeepsInv(Abs(), f);
      if f !in fences {
        return Unknown;
      }
      if fences[f].references > 0 {
        fences := fences[f := fences[f].(releasePending := true)];
        return Deferred;
      }
      fences := fences - {f};
      return Released;
    }

    /** Finishes the listed presentations in order, collecting the report. */
    method FinishEvery(transactions: seq<Tx>, failing: set<Tx>) returns (report: DisconnectReport)
      requires Valid() && Distinct(transactions)
      requires forall t :: t in transactions ==> t in presentations
      modifies this
      ensures Valid()
      ensures FinishAll(old(Abs()), transactions, failing, NoReport) == Swept(Abs(), report)
    {
      hide Inv, FinishPresent;
      ghost var before := Abs();
      report := NoReport;
      var i := 0;
      while i < |transactions|
        invariant 0 <= i <= |transactions|
        invariant Valid()
        invariant forall j :: i <= j < |transactions| ==> transactions[j] in presentations
        invariant FinishAll(Abs(), transactions[i..], failing, report)
               == FinishAll(before, transactions, failing, NoReport)
      {
        var t := transactions[i];
        assert transactions[i..][1..] == transactions[i + 1..];
        FinishKeepsInv(Abs(), t, t !in failing);
        var x := FinishOne(t, t !in failing);
        report := Count(report, x);
        i := i + 1;
      }
    }

    method Disconnect(failing: set<Tx>) returns (report: DisconnectReport)
      requires Valid()
      modifies this
      ensures Valid()
      ensures PresentationModel.Disconnect(old(Abs()), failing) == Swept(Abs(), report)
    {
      hide Inv, FinishAll;
      DisconnectEmpties(Abs(), failing);
      var transactions := Ascending(presentations.Keys);
      IncreasingIsDistinct(transactions);
      FinishAllKeepsInv(Abs(), transactions, failing, NoReport);
      report := FinishEvery(transactions, failing);
      var handles := Ascending(sources.Keys);
      var remaining := Ascending(fences.Keys);
      sources, fences := map[], map[];
      report := report.(releasedSources := report.releasedSources + handles,
                        releasedFences := report.releasedFences + remaining);
    }
  }
}
