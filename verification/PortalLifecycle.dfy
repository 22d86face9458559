/**
 The portal's request and grant lifecycle: transfers are submitted, decided once, and leave the live
 states by completion, failure, expiry or revocation. The first part is the lifecycle over values, the
 second the object that updates its maps in place.
 */
module PortalLifecycle {
  import opened Basics

  type Transfer = nat
  type Namespace = nat
  type Millis = nat

  datatype Kind = Clipboard | DragAndDrop | FileHandoff | ScreenCapture | ScreenRecording | UriOpen | Notification

  datatype Decision = Pending | Allowed | Denied | Revoked

  datatype GrantState = Active | Completed | Revoked | Expired

  datatype Request = Request(
    transfer: Transfer,
    source: Namespace,
    target: Namespace,
    kind: Kind,
    generation: nat,
    deadline: Millis,
    decision: Decision)

  datatype Grant = Grant(
    transfer: Transfer,
    source: Namespace,
    target: Namespace,
    kind: Kind,
    sourceGeneration: nat,
    brokerGeneration: nat,
    deadline: Millis,
    state: GrantState)

  datatype Error =
    | InvalidRequest
    | DeadlineElapsed
    | CapacityExceeded
    | DuplicateTransfer
    | UnknownTransfer
    | NotPending
    | GrantNotActive
    | StaleSourceGeneration
    | InvalidBrokerGeneration

  datatype State = State(
    brokerGeneration: nat,
    capacity: nat,
    requests: map<Transfer, Request>,
    grants: map<Transfer, Grant>)

  // ---------------------------------------------------------------- operations over values

  predicate ValidRequest(r: Request) {
    && r.transfer != 0 && r.source != 0 && r.target != 0 && r.source != r.target
    && r.decision == Pending && r.generation != 0 && r.deadline != 0
  }

  function PendingSet(requests: map<Transfer, Request>): set<Transfer> {
    set t | t in requests && requests[t].decision == Pending
  }

  function ActiveSet(grants: map<Transfer, Grant>): set<Transfer> {
    set t | t in grants && grants[t].state == Active
  }

  function PendingOrActive(requests: map<Transfer, Request>, grants: map<Transfer, Grant>): nat {
    |PendingSet(requests)| + |ActiveSet(grants)|
  }

  function Submit(s: State, r: Request, now: Millis): Result<State, Error> {
    if !ValidRequest(r) then Err(InvalidRequest)
    else if r.deadline <= now then Err(DeadlineElapsed)
    else if r.transfer in s.requests then Err(DuplicateTransfer)
    else if PendingOrActive(s.requests, s.grants) >= s.capacity then Err(CapacityExceeded)
    else Ok(s.(requests := s.requests[r.transfer := r]))
  }

  function SetDecision(s: State, t: Transfer, d: Decision): State
    requires t in s.requests
  {
    s.(requests := s.requests[t := s.requests[t].(decision := d)])
  }

  function GrantFor(r: Request, sourceGeneration: nat, brokerGeneration: nat): Grant {
    Grant(r.transfer, r.source, r.target, r.kind, sourceGeneration, brokerGeneration, r.deadline, Active)
  }

  /** A late or stale decision revokes the request instead of deciding it. */
  function Decide(s: State, t: Transfer, allow: bool, sourceGeneration: nat, now: Millis)
    : (State, Result<Option<Grant>, Error>)
  {
    if t !in s.requests then (s, Err(UnknownTransfer))
    else
      var r := s.requests[t];
      if r.decision != Pending then (s, Err(NotPending))
      else if r.deadline <= now then (SetDecision(s, t, Decision.Revoked), Err(DeadlineElapsed))
      else if r.generation != sourceGeneration then (SetDecision(s, t, Decision.Revoked), Err(StaleSourceGeneration))
      else if !allow then (SetDecision(s, t, Denied), Ok(None))
      else
        var g := GrantFor(r.(transfer := t), sourceGeneration, s.brokerGeneration);
        (SetDecision(s, t, Allowed).(grants := s.grants[t := g]), Ok(Some(g)))
  }

  /** Moves an active grant to a final state: completion, or the executor's failure. */
  function Close(s: State, t: Transfer, final: GrantState): Result<State, Error> {
    if t !in s.grants then Err(UnknownTransfer)
    else if s.grants[t].state != Active then Err(GrantNotActive)
    else Ok(s.(grants := s.grants[t := s.grants[t].(state := final)]))
  }

  /** What a sweep looks for in a request. */
  datatype Condition =
    | Elapsed(now: Millis)
    | SourceChanged(source: Namespace, generation: nat)
    | Disconnected(namespace: Namespace)
    | Everything

  predicate Meets(c: Condition, r: Request) {
    match c
    case Elapsed(now) => r.deadline <= now
    case SourceChanged(source, generation) => r.source == source && r.generation != generation
    case Disconnected(namespace) => r.source == namespace || r.target == namespace
    case Everything => true
  }

  /** A sweep for elapsed deadlines expires grants; every other sweep revokes them. */
  function FinalState(c: Condition): GrantState {
    if c.Elapsed? then Expired else GrantState.Revoked
  }

  /** Still pending, or granted and active. */
  predicate Live(s: State, t: Transfer) {
    && t in s.requests
    && if t in s.grants then s.grants[t].state == Active else s.requests[t].decision == Pending
  }

  predicate Hit(s: State, c: Condition, t: Transfer) {
    Live(s, t) && Meets(c, s.requests[t])
  }

  function SweptRequests(s: State, c: Condition, visited: set<Transfer>): map<Transfer, Request> {
    map t | t in s.requests ::
      if t in visited && Hit(s, c, t) && t !in s.grants then s.requests[t].(decision := Decision.Revoked)
      else s.requests[t]
  }

  function SweptGrants(s: State, c: Condition, visited: set<Transfer>): map<Transfer, Grant> {
    map t | t in s.grants ::
      if t in visited && Hit(s, c, t) then s.grants[t].(state := FinalState(c)) else s.grants[t]
  }

  /** The state after a sweep has visited the transfers in `visited`. */
  function SweptOver(s: State, c: Condition, visited: set<Transfer>): State {
    s.(requests := SweptRequests(s, c, visited), grants := SweptGrants(s, c, visited))
  }

  function HitSet(s: State, c: Condition): set<Transfer> {
    set t | t in s.requests && Hit(s, c, t)
  }

  /** Visits every request in order and reports the transfers it changed. */
  function Sweep(s: State, c: Condition): (State, seq<Transfer>) {
    (SweptOver(s, c, s.requests.Keys), Ascending(HitSet(s, c)))
  }

  function BrokerRestarted(s: State, generation: nat): (State, Result<seq<Transfer>, Error>) {
    if generation <= s.brokerGeneration then (s, Err(InvalidBrokerGeneration))
    else
      var (swept, revoked) := Sweep(s, Everything);
      (swept.(brokerGeneration := generation), Ok(revoked))
  }

  // ---------------------------------------------------------------- the invariant

  ghost function LiveSet(s: State): set<Transfer> {
    set t | t in s.requests && Live(s, t)
  }

  ghost predicate Copies(g: Grant, r: Request) {
    && g.transfer == r.transfer && g.source == r.source && g.target == r.target && g.kind == r.kind
    && g.sourceGeneration == r.generation && g.deadline == r.deadline
  }

  /** A grant exists exactly for an allowed request and copies it; active grants are of this broker. */
  ghost predicate EntryOk(s: State, t: Transfer) {
    && (t in s.grants <==> t in s.requests && s.requests[t].decision == Allowed)
    && (t in s.requests ==> s.requests[t].transfer == t)
    && (t in s.grants ==>
          && Copies(s.grants[t], s.requests[t])
          && s.grants[t].brokerGeneration <= s.brokerGeneration
          && (s.grants[t].state == Active ==> s.grants[t].brokerGeneration == s.brokerGeneration))
  }

  ghost predicate Inv(s: State) {
    && s.brokerGeneration > 0 && s.capacity > 0
    && (forall t: Transfer {:trigger EntryOk(s, t)} :: EntryOk(s, t))
    && |LiveSet(s)| <= s.capacity
  }

  /** A transfer that is no longer live: denied, completed, revoked or expired. */
  predicate Ended(s: State, t: Transfer) {
    t in s.requests && !Live(s, t)
  }

  ghost predicate SameEntry(s: State, s': State, t: Transfer) {
    && t in s.requests && t in s'.requests && s'.requests[t] == s.requests[t]
    && (t in s.grants <==> t in s'.grants)
    && (t in s.grants ==> s'.grants[t] == s.grants[t])
  }

  lemma CountIsLive(s: State)
    requires forall t: Transfer {:trigger EntryOk(s, t)} :: EntryOk(s, t)
    ensures PendingOrActive(s.requests, s.grants) == |LiveSet(s)|
  {
    var pending, active := PendingSet(s.requests), ActiveSet(s.grants);
    forall t: Transfer
      ensures t in LiveSet(s) <==> t in pending || t in active
      ensures !(t in pending && t in active)
    {
      assert EntryOk(s, t);
    }
    assert pending !! active;
    assert LiveSet(s) == pending + active;
  }

  lemma SubmitKeepsInv(s: State, r: Request, now: Millis)
    requires Inv(s) && Submit(s, r, now).Ok?
    ensures Inv(Submit(s, r, now).value)
    ensures LiveSet(Submit(s, r, now).value) == LiveSet(s) + {r.transfer}
  {
    CountIsLive(s);
    var s' := Submit(s, r, now).value;
    forall t: Transfer ensures EntryOk(s', t) && (Live(s', t) <==> Live(s, t) || t == r.transfer) {
      assert EntryOk(s, t);
    }
    assert LiveSet(s') == LiveSet(s) + {r.transfer};
  }

  /** A step that makes nothing live keeps the capacity bound. */
  lemma ShrinkingKeepsInv(s: State, s': State)
    requires Inv(s) && s'.capacity == s.capacity && s'.brokerGeneration > 0
    requires forall t: Transfer {:trigger EntryOk(s', t)} :: EntryOk(s', t)
    requires forall t: Transfer {:trigger Live(s', t)} :: Live(s', t) ==> Live(s, t)
    ensures Inv(s')
  {
    assert LiveSet(s') <= LiveSet(s);
    SubsetIsSmaller(LiveSet(s'), LiveSet(s));
  }

  lemma DecideKeepsInv(s: State, t: Transfer, allow: bool, generation: nat, now: Millis)
    requires Inv(s)
    ensures Inv(Decide(s, t, allow, generation, now).0)
  {
    var s' := Decide(s, t, allow, generation, now).0;
    forall u: Transfer ensures EntryOk(s', u) && (Live(s', u) ==> Live(s, u)) {
      assert EntryOk(s, u);
    }
    ShrinkingKeepsInv(s, s');
  }

  lemma CloseKeepsInv(s: State, t: Transfer, final: GrantState)
    requires Inv(s) && final != Active && Close(s, t, final).Ok?
    ensures Inv(Close(s, t, final).value)
  {
    var s' := Close(s, t, final).value;
    forall u: Transfer ensures EntryOk(s', u) && (Live(s', u) ==> Live(s, u)) {
      assert EntryOk(s, u);
    }
    ShrinkingKeepsInv(s, s');
  }

  /**
   A sweep ends exactly the live transfers meeting its condition, each in the state its kind of sweep
   calls for, and leaves the request and the grant of every other transfer, live or ended, as they were.
   */
  lemma SweepEffect(s: State, c: Condition, t: Transfer)
    requires EntryOk(s, t)
    ensures var s' := Sweep(s, c).0;
      && EntryOk(s', t)
      && (Live(s', t) <==> Live(s, t) && !Meets(c, s.requests[t]))
      && (t in s.requests <==> t in s'.requests)
      && (t in s.requests && !Hit(s, c, t) ==> SameEntry(s, s', t))
      && (Hit(s, c, t) && t in s.grants ==>
            SameEntry(s.(grants := s.grants[t := s.grants[t].(state := FinalState(c))]), s', t))
      && (Hit(s, c, t) && t !in s.grants ==> SameEntry(SetDecision(s, t, Decision.Revoked), s', t))
  {
  }

  lemma SweepKeepsInv(s: State, c: Condition)
    requires Inv(s)
    ensures Inv(Sweep(s, c).0)
  {
    var s' := Sweep(s, c).0;
    forall u: Transfer ensures EntryOk(s', u) && (Live(s', u) ==> Live(s, u)) {
      assert EntryOk(s, u);
      SweepEffect(s, c, u);
    }
    ShrinkingKeepsInv(s, s');
  }

  lemma RestartKeepsInv(s: State, generation: nat)
    requires Inv(s)
    ensures Inv(BrokerRestarted(s, generation).0)
  {
    if generation > s.brokerGeneration {
      var s' := BrokerRestarted(s, generation).0;
      var swept := Sweep(s, Everything).0;
      forall u: Transfer ensures EntryOk(s', u) && (Live(s', u) ==> Live(s, u)) {
        assert EntryOk(s, u);
        SweepEffect(s, Everything, u);
      }
      ShrinkingKeepsInv(s, s');
    }
  }

  // ---------------------------------------------------------------- runs

  datatype Op =
    | OpSubmit(request: Request, now: Millis)
    | OpDecide(transfer: Transfer, allow: bool, sourceGeneration: nat, now: Millis)
    | OpComplete(transfer: Transfer)
    | OpExecutorFailed(transfer: Transfer)
    | OpSweep(condition: Condition)
    | OpBrokerRestarted(generation: nat)

  function OrElse(r: Result<State, Error>, s: State): State {
    if r.Ok? then r.value else s
  }

  /** The new state, and the transfers the call says it ended: by name, or in the list it returns. */
  function Step(s: State, op: Op): (State, seq<Transfer>) {
    match op
    case OpSubmit(r, now) => (OrElse(Submit(s, r, now), s), [])
    case OpDecide(t, allow, generation, now) => (Decide(s, t, allow, generation, now).0, [])
    case OpComplete(t) => var r := Close(s, t, Completed); (OrElse(r, s), if r.Ok? then [t] else [])
    case OpExecutorFailed(t) => var r := Close(s, t, GrantState.Revoked); (OrElse(r, s), if r.Ok? then [t] else [])
    case OpSweep(c) => Sweep(s, c)
    case OpBrokerRestarted(generation) =>
      var (s', r) := BrokerRestarted(s, generation); (s', if r.Ok? then r.value else [])
  }

  function Run(s: State, ops: seq<Op>): (State, seq<Transfer>)
    decreases |ops|
  {
    if ops == [] then (s, [])
    else
      var (s1, ended1) := Step(s, ops[0]);
      var (s2, ended2) := Run(s1, ops[1..]);
      (s2, ended1 + ended2)
  }

  lemma StepKeepsInv(s: State, op: Op)
    requires Inv(s)
    ensures Inv(Step(s, op).0)
  {
    hide Inv;
    match op
    case OpSubmit(r, now) =>
      if Submit(s, r, now).Ok? {
        SubmitKeepsInv(s, r, now);
      }
    case OpDecide(t, allow, generation, now) =>
      DecideKeepsInv(s, t, allow, generation, now);
    case OpComplete(t) =>
      if Close(s, t, Completed).Ok? {
        CloseKeepsInv(s, t, Completed);
      }
    case OpExecutorFailed(t) =>
      if Close(s, t, GrantState.Revoked).Ok? {
        CloseKeepsInv(s, t, GrantState.Revoked);
      }
    case OpSweep(c) =>
      SweepKeepsInv(s, c);
    case OpBrokerRestarted(generation) =>
      RestartKeepsInv(s, generation);
  }

  /** Every run: grants mirror allowed requests, active grants are current, and capacity is respected. */
  lemma {:induction false} RunKeepsInv(s: State, ops: seq<Op>)
    requires Inv(s)
    ensures Inv(Run(s, ops).0)
    decreases |ops|
  {
    if ops != [] {
      StepKeepsInv(s, ops[0]);
      RunKeepsInv(Step(s, ops[0]).0, ops[1..]);
    }
  }

  lemma StepFreezesEnded(s: State, op: Op, t: Transfer)
    requires EntryOk(s, t) && Ended(s, t)
    ensures SameEntry(s, Step(s, op).0, t)
  {
  }

  /** Ended is for good: neither the request nor its grant ever changes again. */
  lemma {:induction false} RunFreezesEnded(s: State, ops: seq<Op>, t: Transfer)
    requires Inv(s) && Ended(s, t)
    ensures SameEntry(s, Run(s, ops).0, t)
    decreases |ops|
  {
    if ops != [] {
      assert EntryOk(s, t);
      StepFreezesEnded(s, ops[0], t);
      StepKeepsInv(s, ops[0]);
      RunFreezesEnded(Step(s, ops[0]).0, ops[1..], t);
    }
  }

  /** What a call reports as ended was live before it and is ended after it, each transfer once. */
  lemma StepReportsEndings(s: State, op: Op)
    requires Inv(s)
    ensures var (s', ended) := Step(s, op);
      && Distinct(ended)
      && (forall t :: t in ended ==> Live(s, t) && Ended(s', t))
      && (op.OpSweep? || op.OpBrokerRestarted? ==>
            forall t: Transfer :: t in s.requests ==> (t in ended <==> Live(s, t) && Ended(s', t)))
  {
    hide Inv;
    var (s', ended) := Step(s, op);
    if op.OpSweep? || op.OpBrokerRestarted? {
      IncreasingIsDistinct(ended);
    }
    forall t | t in s.requests
      ensures t in ended ==> Live(s, t) && Ended(s', t)
      ensures op.OpSweep? || op.OpBrokerRestarted? ==> (t in ended <==> Live(s, t) && Ended(s', t))
    {
      EntryHolds(s, t);
    }
    forall t | t in ended ensures t in s.requests {
      EntryHolds(s, t);
    }
  }

  lemma EntryHolds(s: State, t: Transfer)
    requires Inv(s)
    ensures EntryOk(s, t)
  {
  }

  /** Over a whole run no transfer is reported as ended twice, whichever calls report it. */
  lemma {:induction false} RunReportsOnce(s: State, ops: seq<Op>)
    requires Inv(s)
    ensures var (s', ended) := Run(s, ops);
      Distinct(ended) && forall t :: t in ended ==> Ended(s', t) && !Ended(s, t)
    decreases |ops|
  {
    if ops != [] {
      var (s1, ended1) := Step(s, ops[0]);
      StepReportsEndings(s, ops[0]);
      StepKeepsInv(s, ops[0]);
      RunReportsOnce(s1, ops[1..]);
      var (s2, ended2) := Run(s1, ops[1..]);
      forall t | t in ended1 ensures t !in ended2 && Ended(s2, t) {
        RunFreezesEnded(s1, ops[1..], t);
      }
      forall t | t in ended2 ensures !Ended(s, t) {
        if Ended(s, t) {
          EntryHolds(s, t);
          StepFreezesEnded(s, ops[0], t);
        }
      }
      DistinctParts(ended1, ended2);
    }
  }

  /** A decision names the transfer and ends it: denied, too late, or stale. */
  predicate DecisionEnds(s: State, op: Op, t: Transfer) {
    op.OpDecide? && op.transfer == t && Live(s, t) && Ended(Step(s, op).0, t)
  }

  /** Some decision of the run names the transfer and ends it. */
  predicate EndedByDecision(s: State, ops: seq<Op>, t: Transfer)
    decreases |ops|
  {
    ops != [] && (DecisionEnds(s, ops[0], t) || EndedByDecision(Step(s, ops[0]).0, ops[1..], t))
  }

  lemma StepEndingsIff(s: State, op: Op, t: Transfer)
    requires Inv(s)
    ensures var (s', ended) := Step(s, op);
      && (!Ended(s, t) && Ended(s', t) <==> t in ended || DecisionEnds(s, op, t))
      && !(t in ended && DecisionEnds(s, op, t))
      && (Ended(s, t) ==> Ended(s', t))
  {
    hide Inv;
    EntryHolds(s, t);
    StepReportsEndings(s, op);
    if Ended(s, t) {
      StepFreezesEnded(s, op, t);
    }
  }

  /**
   A transfer ends in a run exactly when the run reports it or a decision of the run names and ends it,
   and never both: no ending goes unreported, and none is told twice.
   */
  lemma {:induction false} RunEndingsIff(s: State, ops: seq<Op>, t: Transfer)
    requires Inv(s)
    ensures var (s', ended) := Run(s, ops);
      && (!Ended(s, t) && Ended(s', t) <==> t in ended || EndedByDecision(s, ops, t))
      && !(t in ended && EndedByDecision(s, ops, t))
      && (Ended(s, t) ==> Ended(s', t))
    decreases |ops|
  {
    hide Inv, Step, Ended, DecisionEnds;
    if ops != [] {
      StepEndingsIff(s, ops[0], t);
      StepKeepsInv(s, ops[0]);
      RunEndingsIff(Step(s, ops[0]).0, ops[1..], t);
    }
  }

  /** A sweep reports exactly the live transfers that meet its condition, and leaves no such transfer live. */
  lemma SweepClears(s: State, c: Condition)
    requires Inv(s)
    ensures var (s', reported) := Sweep(s, c);
      && (forall t :: t in reported <==> Live(s, t) && Meets(c, s.requests[t]))
      && (forall t :: Live(s', t) <==> Live(s, t) && t !in reported)
      && (forall t :: Live(s', t) ==> !Meets(c, s'.requests[t]))
  {
    var (s', reported) := Sweep(s, c);
    forall t: Transfer
      ensures Live(s', t) <==> Live(s, t) && t !in reported
      ensures Live(s', t) ==> !Meets(c, s'.requests[t])
    {
      EntryHolds(s, t);
      SweepEffect(s, c, t);
    }
  }

  // ---------------------------------------------------------------- the object

  class PortalRequestGrantLifecycle {
    var brokerGeneration: nat
    const capacity: nat
    var requests: map<Transfer, Request>
    var grants: map<Transfer, Grant>

    function Abs(): State
      reads this
    {
      State(brokerGeneration, capacity, requests, grants)
    }

    ghost predicate Valid()
      reads this
    {
      Inv(Abs())
    }

    constructor Initialized(brokerGeneration: nat, capacity: nat)
      requires brokerGeneration != 0 && capacity != 0
      ensures Valid() && Abs() == State(brokerGeneration, capacity, map[], map[])
    {
      this.brokerGeneration, this.capacity := brokerGeneration, capacity;
      requests, grants := map[], map[];
      new;
      assert LiveSet(Abs()) == {};
    }

    static method WithCapacity(brokerGeneration: nat, capacity: nat)
      returns (result: Result<PortalRequestGrantLifecycle, Error>)
      ensures result.Ok? <==> brokerGeneration != 0 && capacity != 0
      ensures result.Err? ==> result.error == InvalidBrokerGeneration
      ensures result.Ok? ==>
        && fresh(result.value) && result.value.Valid()
        && result.value.Abs() == State(brokerGeneration, capacity, map[], map[])
    {
      if brokerGeneration == 0 || capacity == 0 {
        return Err(InvalidBrokerGeneration);
      }
      var lifecycle := new PortalRequestGrantLifecycle.Initialized(brokerGeneration, capacity);
      return Ok(lifecycle);
    }

    method SubmitRequest(r: Request, now: Millis) returns (result: Result<Unit, Error>)
      requires Valid()
      modifies this
      ensures Valid()
      ensures var spec := Submit(old(Abs()), r, now);
        && Abs() == OrElse(spec, old(Abs()))
        && (result.Ok? <==> spec.Ok?) && (result.Err? ==> result.error == spec.error)
    {
      hide Inv, PendingOrActive;
      if !ValidRequest(r) {
        return Err(InvalidRequest);
      }
      if r.deadline <= now {
        return Err(DeadlineElapsed);
      }
      if r.transfer in requests {
        return Err(DuplicateTransfer);
      }
      if PendingOrActive(requests, grants) >= capacity {
        return Err(CapacityExceeded);
      }
      SubmitKeepsInv(Abs(), r, now);
      requests := requests[r.transfer := r];
      return Ok(Unit.Unit);
    }

    method DecideRequest(t: Transfer, allow: bool, sourceGeneration: nat, now: Millis)
      returns (result: Result<Option<Grant>, Error>)
      requires Valid()
      modifies this
      ensures Valid()
      ensures (Abs(), result) == Decide(old(Abs()), t, allow, sourceGeneration, now)
    {
      hide Inv;
      DecideKeepsInv(Abs(), t, allow, sourceGeneration, now);
      if t !in requests {
        return Err(UnknownTransfer);
      }
      var r := requests[t];
      if r.decision != Pending {
        return Err(NotPending);
      }
      if r.deadline <= now {
        requests := requests[t := r.(decision := Decision.Revoked)];
        return Err(DeadlineElapsed);
      }
      if r.generation != sourceGeneration {
        requests := requests[t := r.(decision := Decision.Revoked)];
        return Err(StaleSourceGeneration);
      }
      if !allow {
        requests := requests[t := r.(decision := Denied)];
        return Ok(None);
      }
      requests := requests[t := r.(decision := Allowed)];
      grants := grants[t := Grant(t, r.source, r.target, r.kind, sourceGeneration, brokerGeneration, r.deadline, Active)];
      return Ok(Some(grants[t]));
    }

    /** `final` is Completed for `complete` and Revoked for `executor_failed`. */
    method CloseGrant(t: Transfer, final: GrantState) returns (result: Result<Unit, Error>)
      requires Valid() && (final == Completed || final == GrantState.Revoked)
      modifies this
      ensures Valid()
      ensures var spec := Close(old(Abs()), t, final);
        && Abs() == OrElse(spec, old(Abs()))
        && (result.Ok? <==> spec.Ok?) && (result.Err? ==> result.error == spec.error)
    {
      hide Inv;
      if t !in grants {
        return Err(UnknownTransfer);
      }
      if grants[t].state != Active {
        return Err(GrantNotActive);
      }
      CloseKeepsInv(Abs(), t, final);
      grants := grants[t := grants[t].(state := final)];
      return Ok(Unit.Unit);
    }

    /** The loop body of a sweep: ends the transfer if it is live and meets the condition. */
    method Visit(t: Transfer, c: Condition) returns (changed: bool)
      requires t in requests
      modifies this`requests, this`grants
      ensures changed == Hit(old(Abs()), c, t)
      ensures requests ==
        if changed && t !in old(grants) then old(requests)[t := old(requests)[t].(decision := Decision.Revoked)]
        else old(requests)
      ensures grants ==
        if changed && t in old(grants) then old(grants)[t := old(grants)[t].(state := FinalState(c))]
        else old(grants)
    {
      if !Meets(c, requests[t]) {
        return false;
      }
      if t in grants {
        if grants[t].state == Active {
          grants := grants[t := grants[t].(state := FinalState(c))];
          return true;
        }
        return false;
      }
      if requests[t].decision == Pending {
        requests := requests[t := requests[t].(decision := Decision.Revoked)];
        return true;
      }
      return false;
    }

    method SweepRequests(c: Condition) returns (ended: seq<Transfer>)
      requires Valid()
      modifies this
      ensures Valid()
      ensures (Abs(), ended) == Sweep(old(Abs()), c)
    {
      hide Inv, SweptRequests, SweptGrants, Hit, Listed, Visited;
      ghost var before := Abs();
      SweepKeepsInv(before, c);
      ended := [];
      var transfers := Ascending(requests.Keys);
      SweepStart(before, c, transfers);
      var i := 0;
      while i < |transfers|
        invariant 0 <= i <= |transfers| && brokerGeneration == before.brokerGeneration
        invariant requests == SweptRequests(before, c, Visited(transfers, i))
        invariant grants == SweptGrants(before, c, Visited(transfers, i))
        invariant Listed(ended, before, c, transfers, i)
      {
        var t := transfers[i];
        ListGrows(ended, before, c, transfers, i);
        VisitOne(before, c, Visited(transfers, i), t);
        assert Hit(Abs(), c, t) == Hit(before, c, t) by {
          HitByEntry(Abs(), before, c, t);
        }
        var changed := Visit(t, c);
        ended := if changed then ended + [t] else ended;
        i := i + 1;
      }
      SweepDone(ended, before, c, transfers);
    }

    method RestartBroker(generation: nat) returns (result: Result<seq<Transfer>, Error>)
      requires Valid()
      modifies this
      ensures Valid()
      ensures (Abs(), result) == BrokerRestarted(old(Abs()), generation)
    {
      hide Inv, Sweep;
      RestartKeepsInv(Abs(), generation);
      if generation <= brokerGeneration {
        return Err(InvalidBrokerGeneration);
      }
      var revoked := SweepRequests(Everything);
      brokerGeneration := generation;
      return Ok(revoked);
    }
  }

  ghost function Visited(transfers: seq<Transfer>, i: nat): set<Transfer>
    requires i <= |transfers|
  {
    set t | t in transfers[..i]
  }

  /** `ended` lists, ascending, the transfers among the first `i` that the sweep ends. */
  ghost predicate Listed(ended: seq<Transfer>, s: State, c: Condition, transfers: seq<Transfer>, i: nat)
    requires i <= |transfers|
  {
    Increasing(ended) && forall x: Transfer :: x in ended <==> x in Visited(transfers, i) && Hit(s, c, x)
  }

  lemma SweepStart(s: State, c: Condition, transfers: seq<Transfer>)
    ensures SweptRequests(s, c, Visited(transfers, 0)) == s.requests
    ensures SweptGrants(s, c, Visited(transfers, 0)) == s.grants
    ensures Listed([], s, c, transfers, 0)
  {
    assert Visited(transfers, 0) == {};
  }

  lemma ListGrows(ended: seq<Transfer>, s: State, c: Condition, transfers: seq<Transfer>, i: nat)
    requires i < |transfers| && Increasing(transfers) && Listed(ended, s, c, transfers, i)
    ensures var t := transfers[i];
      && t !in Visited(transfers, i)
      && Visited(transfers, i + 1) == Visited(transfers, i) + {t}
      && Listed(if Hit(s, c, t) then ended + [t] else ended, s, c, transfers, i + 1)
  {
    assert transfers[..i + 1] == transfers[..i] + [transfers[i]];
    forall k | 0 <= k < |ended| ensures ended[k] < transfers[i] {
      assert ended[k] in ended;
    }
  }

  lemma SweepDone(ended: seq<Transfer>, s: State, c: Condition, transfers: seq<Transfer>)
    requires forall t: Transfer :: t in transfers <==> t in s.requests
    requires Listed(ended, s, c, transfers, |transfers|)
    ensures Visited(transfers, |transfers|) == s.requests.Keys
    ensures ended == Ascending(HitSet(s, c))
  {
    assert transfers[..|transfers|] == transfers;
    IncreasingIsUnique(ended, Ascending(HitSet(s, c)));
  }

  lemma HitByEntry(s: State, s': State, c: Condition, t: Transfer)
    requires t in s.requests && t in s'.requests && s.requests[t] == s'.requests[t]
    requires t in s.grants <==> t in s'.grants
    requires t in s.grants ==> s.grants[t] == s'.grants[t]
    ensures Hit(s, c, t) == Hit(s', c, t)
  {
  }

  /** What the sweep finds at the next transfer, and what visiting it amounts to. */
  lemma VisitOne(s: State, c: Condition, seen: set<Transfer>, t: Transfer)
    requires t in s.requests && t !in seen
    ensures t in SweptRequests(s, c, seen) && SweptRequests(s, c, seen)[t] == s.requests[t]
    ensures t in SweptGrants(s, c, seen) <==> t in s.grants
    ensures t in s.grants ==> SweptGrants(s, c, seen)[t] == s.grants[t]
    ensures SweptRequests(s, c, seen + {t}) ==
      if Hit(s, c, t) && t !in s.grants then
        SweptRequests(s, c, seen)[t := s.requests[t].(decision := Decision.Revoked)]
      else SweptRequests(s, c, seen)
    ensures SweptGrants(s, c, seen + {t}) ==
      if Hit(s, c, t) && t in s.grants then
        SweptGrants(s, c, seen)[t := s.grants[t].(state := FinalState(c))]
      else SweptGrants(s, c, seen)
  {
  }
}
