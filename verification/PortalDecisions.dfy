/**
 What the portal's lifecycle answers and what it keeps: a request is taken exactly when it fits, a decision
 grants exactly when it allows in time, a closed grant is in the state its caller reported, and over any
 run a transfer has a grant if and only if some timely, current decision of the run allowed it.
 */
module PortalDecisions {
  import opened Basics
  import opened PortalLifecycle

  // ---------------------------------------------------------------- requests

  /** Both ends are real and differ, and the request is a fresh one with a generation and a deadline. */
  predicate WellFormed(r: Request) {
    && r.transfer != 0 && r.source != 0 && r.target != 0 && r.source != r.target
    && r.decision == Pending && r.generation != 0 && r.deadline != 0
  }

  /** A request is taken exactly when it is well formed, in time, new, and fewer than `capacity` are live. */
  lemma SubmitAnswers(s: State, r: Request, now: Millis)
    requires Inv(s)
    ensures var x := Submit(s, r, now);
      var timely := WellFormed(r) && now < r.deadline;
      && (x == Err(InvalidRequest) <==> !WellFormed(r))
      && (x == Err(DeadlineElapsed) <==> WellFormed(r) && r.deadline <= now)
      && (x == Err(DuplicateTransfer) <==> timely && r.transfer in s.requests)
      && (x == Err(CapacityExceeded) <==> timely && r.transfer !in s.requests && |LiveSet(s)| >= s.capacity)
      && (x.Ok? <==> timely && r.transfer !in s.requests && |LiveSet(s)| < s.capacity)
      && (x.Ok? ==>
            && x.value.requests == s.requests[r.transfer := r] && x.value.grants == s.grants
            && x.value.brokerGeneration == s.brokerGeneration && x.value.capacity == s.capacity)
  {
    CountIsLive(s);
  }

  // ---------------------------------------------------------------- decisions

  /** The transfer awaits a decision. */
  predicate Awaits(s: State, t: Transfer) {
    t in s.requests && s.requests[t].decision == Pending
  }

  /** The decision comes in time and knows the source's generation. */
  predicate InTime(r: Request, sourceGeneration: nat, now: Millis) {
    now < r.deadline && r.generation == sourceGeneration
  }

  /** The grant that an allowed request gives: its own ends, kind and deadline, active under this broker. */
  ghost predicate IsGrantOf(g: Grant, r: Request, brokerGeneration: nat) {
    && g.transfer == r.transfer && g.source == r.source && g.target == r.target && g.kind == r.kind
    && g.deadline == r.deadline && g.sourceGeneration == r.generation
    && g.brokerGeneration == brokerGeneration && g.state == Active
  }

  /** The same request with another decision. */
  ghost predicate Redecided(r': Request, r: Request, d: Decision) {
    && r'.decision == d
    && r'.transfer == r.transfer && r'.source == r.source && r'.target == r.target && r'.kind == r.kind
    && r'.generation == r.generation && r'.deadline == r.deadline
  }

  /**
   In time, allowing returns and stores a grant of the request and denying stores none; a late or stale
   decision revokes the request whichever it was; nothing else in the lifecycle changes.
   */
  lemma DecideAnswers(s: State, t: Transfer, allow: bool, sourceGeneration: nat, now: Millis)
    requires Inv(s) && Awaits(s, t)
    ensures var (s', x) := Decide(s, t, allow, sourceGeneration, now);
      var r := s.requests[t];
      && t in s'.requests && s'.requests == s.requests[t := s'.requests[t]]
      && s'.brokerGeneration == s.brokerGeneration && s'.capacity == s.capacity
      && (r.deadline <= now ==>
            x == Err(DeadlineElapsed) && Redecided(s'.requests[t], r, Decision.Revoked) && s'.grants == s.grants)
      && (now < r.deadline && r.generation != sourceGeneration ==>
            x == Err(StaleSourceGeneration) && Redecided(s'.requests[t], r, Decision.Revoked) && s'.grants == s.grants)
      && (InTime(r, sourceGeneration, now) && !allow ==>
            x == Ok(None) && Redecided(s'.requests[t], r, Denied) && s'.grants == s.grants)
      && (InTime(r, sourceGeneration, now) && allow ==>
            && x.Ok? && x.value.Some? && IsGrantOf(x.value.value, r, s.brokerGeneration)
            && Redecided(s'.requests[t], r, Allowed)
            && s'.grants == s.grants[t := x.value.value])
  {
    EntryHolds(s, t);
  }

  /** Deciding twice, or deciding the unknown, is an error and changes nothing. */
  lemma DecideRefuses(s: State, t: Transfer, allow: bool, sourceGeneration: nat, now: Millis)
    requires !Awaits(s, t)
    ensures Decide(s, t, allow, sourceGeneration, now) == (s, Err(if t in s.requests then NotPending else UnknownTransfer))
  {
  }

  // ---------------------------------------------------------------- closing and restarting

  /** Only an active grant is closed, and then it is in exactly the state its caller reported. */
  lemma CloseAnswers(s: State, t: Transfer, final: GrantState)
    ensures var x := Close(s, t, final);
      && (x == Err(UnknownTransfer) <==> t !in s.grants)
      && (x == Err(GrantNotActive) <==> t in s.grants && s.grants[t].state != Active)
      && (x.Ok? <==> t in s.grants && s.grants[t].state == Active)
      && (x.Ok? ==>
            && x.value.requests == s.requests
            && t in x.value.grants && x.value.grants == s.grants[t := x.value.grants[t]]
            && x.value.grants[t].state == final
            && x.value.grants[t] == s.grants[t].(state := x.value.grants[t].state))
  {
  }

  /** A restart with a newer generation ends everything live and reports it; any other is refused. */
  lemma RestartAnswers(s: State, generation: nat)
    requires Inv(s)
    ensures var (s', x) := BrokerRestarted(s, generation);
      && (x == Err(InvalidBrokerGeneration) <==> generation <= s.brokerGeneration)
      && (x.Err? ==> s' == s)
      && (x.Ok? ==>
            && s'.brokerGeneration == generation && s'.capacity == s.capacity
            && (forall t :: t in x.value <==> t in LiveSet(s))
            && LiveSet(s') == {})
  {
    if generation > s.brokerGeneration {
      SweepClears(s, Everything);
      forall t: Transfer ensures !Live(BrokerRestarted(s, generation).0, t) {
        EntryHolds(s, t);
        SweepEffect(s, Everything, t);
        assert Live(BrokerRestarted(s, generation).0, t) <==> Live(Sweep(s, Everything).0, t);
      }
    }
  }

  // ---------------------------------------------------------------- grants over runs

  /** The step is a decision that allows the transfer, in time and for the current source. */
  predicate AllowsInTime(s: State, op: Op, t: Transfer) {
    && op.OpDecide? && op.transfer == t && op.allow
    && Awaits(s, t) && InTime(s.requests[t], op.sourceGeneration, op.now)
  }

  predicate AllowedInRun(s: State, ops: seq<Op>, t: Transfer)
    decreases |ops|
  {
    ops != [] && (AllowsInTime(s, ops[0], t) || AllowedInRun(Step(s, ops[0]).0, ops[1..], t))
  }

  lemma StepGrantsIff(s: State, op: Op, t: Transfer)
    requires Inv(s)
    ensures t in Step(s, op).0.grants <==> t in s.grants || AllowsInTime(s, op, t)
  {
    hide Inv;
    match op
    case OpDecide(u, allow, generation, now) =>
      if Awaits(s, u) {
        DecideAnswers(s, u, allow, generation, now);
      } else {
        DecideRefuses(s, u, allow, generation, now);
      }
    case _ =>
  }

  /** Grants come only from timely, current decisions that allow, and stay. */
  lemma {:induction false} RunGrantsIff(s: State, ops: seq<Op>, t: Transfer)
    requires Inv(s)
    ensures t in Run(s, ops).0.grants <==> t in s.grants || AllowedInRun(s, ops, t)
    decreases |ops|
  {
    hide Inv, Step, AllowsInTime;
    if ops != [] {
      StepGrantsIff(s, ops[0], t);
      StepKeepsInv(s, ops[0]);
      RunGrantsIff(Step(s, ops[0]).0, ops[1..], t);
    }
  }

  // ---------------------------------------------------------------- how transfers end

  /** The step reports the executor's success with an active grant. */
  predicate CompletesGrant(s: State, op: Op, t: Transfer) {
    op.OpComplete? && op.transfer == t && t in s.grants && s.grants[t].state == Active
  }

  /** The step revokes the grant: the executor failed, its source or target went, or the broker restarted. */
  predicate RevokesGrant(s: State, op: Op, t: Transfer)
    requires t in s.requests
  {
    || (op.OpExecutorFailed? && op.transfer == t)
    || (op.OpSweep? && !op.condition.Elapsed? && Meets(op.condition, s.requests[t]))
    || (op.OpBrokerRestarted? && op.generation > s.brokerGeneration)
  }

  predicate ExpiresGrant(s: State, op: Op, t: Transfer)
    requires t in s.requests
  {
    op.OpSweep? && op.condition.Elapsed? && s.requests[t].deadline <= op.condition.now
  }

  /** An active grant is completed, expired or revoked by a step exactly when the step is of that kind. */
  lemma StepEndsGrantAs(s: State, op: Op, t: Transfer)
    requires Inv(s) && t in s.grants && s.grants[t].state == Active
    ensures var s' := Step(s, op).0;
      && t in s.requests && t in s'.grants
      && (s'.grants[t].state == Completed <==> CompletesGrant(s, op, t))
      && (s'.grants[t].state == Expired <==> ExpiresGrant(s, op, t))
      && (s'.grants[t].state == GrantState.Revoked <==> RevokesGrant(s, op, t))
  {
    hide Inv, Submit, Sweep;
    EntryHolds(s, t);
    match op
    case OpSubmit(r, now) =>
      SubmitKeepsGrants(s, r, now);
    case OpDecide(u, allow, generation, now) =>
    case OpComplete(u) =>
    case OpExecutorFailed(u) =>
    case OpSweep(c) =>
      SweptGrantIs(s, c, t);
    case OpBrokerRestarted(generation) =>
      SweptGrantIs(s, Everything, t);
  }

  lemma SubmitKeepsGrants(s: State, r: Request, now: Millis)
    ensures OrElse(Submit(s, r, now), s).grants == s.grants
  {
  }

  lemma SweptGrantIs(s: State, c: Condition, t: Transfer)
    requires EntryOk(s, t) && t in s.grants && s.grants[t].state == Active
    ensures var s' := Sweep(s, c).0;
      && t in s'.grants
      && s'.grants[t].state ==
           (if !Meets(c, s.requests[t]) then Active else if c.Elapsed? then Expired else GrantState.Revoked)
  {
  }

  /** What each sweep looks for: elapsed deadlines, other generations of one source, either end disconnected. */
  lemma SweepConditions(r: Request, now: Millis, ns: Namespace, generation: nat)
    ensures Meets(Elapsed(now), r) <==> r.deadline <= now
    ensures Meets(SourceChanged(ns, generation), r) <==> r.source == ns && r.generation != generation
    ensures Meets(Disconnected(ns), r) <==> ns == r.source || ns == r.target
  {
  }
}
