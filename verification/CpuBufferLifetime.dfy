/**
 Lifetimes of CPU buffers: each surface has at most one pending and one committed buffer handle, and a
 handle is reported for release when neither needs it any more.
 */
module CpuBufferLifetime {
  import opened Basics

  type Surface = nat
  type Handle = nat

  /** `previous` is the handle that was committed when this one was submitted. */
  datatype Pending = Pending(handle: Handle, previous: Option<Handle>)

  datatype State = State(committed: map<Surface, Handle>, pending: map<Surface, Pending>)

  function CommittedAt(s: State, surface: Surface): Option<Handle> {
    if surface in s.committed then Some(s.committed[surface]) else None
  }

  /** Returns the pending handle it replaces. */
  function Submit(s: State, surface: Surface, handle: Handle): (State, Option<Handle>) {
    (s.(pending := s.pending[surface := Pending(handle, CommittedAt(s, surface))]),
     if surface in s.pending then Some(s.pending[surface].handle) else None)
  }

  /** Commits the pending handle if it is the one that flipped; the handle it displaces is released. */
  function Retire(s: State, surface: Surface, handle: Handle): (State, Option<Handle>) {
    if surface !in s.pending || s.pending[surface].handle != handle then (s, None)
    else
      var previous := s.pending[surface].previous;
      (State(s.committed[surface := handle], s.pending - {surface}),
       if previous.Some? && previous.value != handle then previous else None)
  }

  function Reject(s: State, surface: Surface, handle: Handle): (State, Option<Handle>) {
    if surface !in s.pending || s.pending[surface].handle != handle then (s, None)
    else (s.(pending := s.pending - {surface}), Some(handle))
  }

  function PendingHandles(s: State): set<Handle> {
    set x | x in s.pending :: s.pending[x].handle
  }

  function CommittedHandles(s: State): set<Handle> {
    set x | x in s.committed :: s.committed[x]
  }

  /** The handles some surface still needs. */
  function Held(s: State): set<Handle> {
    PendingHandles(s) + CommittedHandles(s)
  }

  /** Releases every held handle once, in order. */
  function Disconnect(s: State): (State, seq<Handle>) {
    (State(map[], map[]), Ascending(Held(s)))
  }

  // ---------------------------------------------------------------- ownership

  /** The surface needs the handle, as its pending one, its committed one, or both. */
  predicate HeldAt(s: State, x: Surface, h: Handle) {
    (x in s.pending && s.pending[x].handle == h) || (x in s.committed && s.committed[x] == h)
  }

  lemma HeldIsHeldSomewhere(s: State, h: Handle)
    ensures h in Held(s) <==> exists x :: HeldAt(s, x, h)
  {
    if h in Held(s) {
      if x :| x in s.pending && s.pending[x].handle == h {
        assert HeldAt(s, x, h);
      } else {
        var x :| x in s.committed && s.committed[x] == h;
        assert HeldAt(s, x, h);
      }
    }
  }

  /** What was pending remembers is what is committed. */
  ghost predicate Inv(s: State) {
    forall x :: x in s.pending ==> s.pending[x].previous == CommittedAt(s, x)
  }

  function Listed(released: Option<Handle>): set<Handle> {
    if released.Some? then {released.value} else {}
  }

  /** What is held after a call, with what it released, is what was held before and what it brought in. */
  ghost predicate Accounts(s: State, s': State, released: Option<Handle>, entered: set<Handle>) {
    Held(s') + Listed(released) == Held(s) + entered
  }

  lemma AccountsByHolder(s: State, s': State, released: Option<Handle>, entered: set<Handle>)
    requires forall h: Handle ::
      (exists x :: HeldAt(s', x, h)) || h in Listed(released) <==> (exists x :: HeldAt(s, x, h)) || h in entered
    ensures Accounts(s, s', released, entered)
  {
    forall h: Handle ensures h in Held(s') + Listed(released) <==> h in Held(s) + entered {
      HeldIsHeldSomewhere(s, h);
      HeldIsHeldSomewhere(s', h);
    }
  }

  /** Another surface needs the handle. */
  predicate HeldElsewhere(s: State, surface: Surface, h: Handle) {
    exists x :: x in s.pending.Keys + s.committed.Keys && x != surface && HeldAt(s, x, h)
  }

  lemma HeldHereOrElsewhere(s: State, surface: Surface, h: Handle)
    ensures h in Held(s) <==> HeldAt(s, surface, h) || HeldElsewhere(s, surface, h)
  {
    HeldIsHeldSomewhere(s, h);
    if x :| HeldAt(s, x, h) {
      assert x in s.pending.Keys + s.committed.Keys;
    }
  }

  /** A call about one surface leaves what the others need alone. */
  lemma ElsewhereKept(s: State, s': State, surface: Surface, h: Handle)
    requires forall x :: x != surface ==> (HeldAt(s', x, h) <==> HeldAt(s, x, h))
    ensures HeldElsewhere(s', surface, h) <==> HeldElsewhere(s, surface, h)
  {
    if HeldElsewhere(s, surface, h) {
      var x :| x != surface && HeldAt(s, x, h);
      assert HeldAt(s', x, h) && x in s'.pending.Keys + s'.committed.Keys;
    }
    if HeldElsewhere(s', surface, h) {
      var x :| x != surface && HeldAt(s', x, h);
      assert HeldAt(s, x, h) && x in s.pending.Keys + s.committed.Keys;
    }
  }

  // ---------------------------------------------------------------- when a release is premature

  /** The pending handle a submission replaces is the new one, is committed as well, or is needed elsewhere. */
  predicate ReplacesHeld(s: State, surface: Surface, handle: Handle) {
    && surface in s.pending
    && var replaced := s.pending[surface].handle;
    || replaced == handle
    || CommittedAt(s, surface) == Some(replaced)
    || HeldElsewhere(s, surface, replaced)
  }

  /** The committed handle that a flip displaces is needed elsewhere. */
  predicate DisplacesHeld(s: State, surface: Surface, handle: Handle) {
    && surface in s.pending && s.pending[surface].handle == handle
    && surface in s.committed && s.committed[surface] != handle
    && HeldElsewhere(s, surface, s.committed[surface])
  }

  /** The rejected handle is committed as well, or is needed elsewhere. */
  predicate RejectsHeld(s: State, surface: Surface, handle: Handle) {
    && surface in s.pending && s.pending[surface].handle == handle
    && (CommittedAt(s, surface) == Some(handle) || HeldElsewhere(s, surface, handle))
  }

  lemma SubmitAccounts(s: State, surface: Surface, handle: Handle)
    ensures var (s', released) := Submit(s, surface, handle);
      Accounts(s, s', released, {handle})
  {
    var (s', released) := Submit(s, surface, handle);
    var entered := {handle};
    assert HeldAt(s', surface, handle);
    forall h: Handle
      ensures (exists x :: HeldAt(s', x, h)) || h in Listed(released) <==> (exists x :: HeldAt(s, x, h)) || h in entered
    {
      if x :| HeldAt(s, x, h) {
        assert HeldAt(s', x, h) || (x == surface && h in Listed(released));
      }
      if x :| HeldAt(s', x, h) {
        assert HeldAt(s, x, h) || h == handle;
      }
      if h in Listed(released) {
        assert HeldAt(s, surface, h);
      }
    }
    AccountsByHolder(s, s', released, entered);
  }

  /**
   A submission releases a handle that is still needed exactly when the pending handle it replaces is the
   same, is committed as well, or is needed by another surface.
   */
  lemma SubmitIsSoundIff(s: State, surface: Surface, handle: Handle)
    requires Inv(s)
    ensures var (s', released) := Submit(s, surface, handle);
      && Inv(s')
      && (Held(s') !! Listed(released) <==> !ReplacesHeld(s, surface, handle))
      && Accounts(s, s', released, {handle})
  {
    SubmitAccounts(s, surface, handle);
    var (s', released) := Submit(s, surface, handle);
    if released.Some? {
      HeldHereOrElsewhere(s', surface, released.value);
      ElsewhereKept(s, s', surface, released.value);
    }
  }

  /**
   A retirement releases a handle that is still needed exactly when another surface needs the handle it
   displaces; presenting the committed handle again displaces none. A mismatched one changes nothing.
   */
  lemma RetireIsSoundIff(s: State, surface: Surface, handle: Handle)
    requires Inv(s)
    ensures var (s', released) := Retire(s, surface, handle);
      && Inv(s')
      && (Held(s') !! Listed(released) <==> !DisplacesHeld(s, surface, handle))
      && Accounts(s, s', released, {})
      && (s' == s <==> surface !in s.pending || s.pending[surface].handle != handle)
  {
    var (s', released) := Retire(s, surface, handle);
    if surface in s.pending && s.pending[surface].handle == handle {
      forall x, h ensures HeldAt(s', x, h) || (x == surface && h in Listed(released)) <==> HeldAt(s, x, h) {
      }
      forall h: Handle
        ensures (exists x :: HeldAt(s', x, h)) || h in Listed(released) <==> (exists x :: HeldAt(s, x, h)) || h in {}
      {
        if h in Listed(released) {
          assert HeldAt(s, surface, h);
        }
      }
      AccountsByHolder(s, s', released, {});
      if released.Some? {
        HeldHereOrElsewhere(s', surface, released.value);
        ElsewhereKept(s, s', surface, released.value);
      }
    }
  }

  /**
   A rejection releases a handle that is still needed exactly when that handle is committed as well or
   another surface needs it. A mismatched one changes nothing.
   */
  lemma RejectIsSoundIff(s: State, surface: Surface, handle: Handle)
    requires Inv(s)
    ensures var (s', released) := Reject(s, surface, handle);
      && Inv(s')
      && (Held(s') !! Listed(released) <==> !RejectsHeld(s, surface, handle))
      && Accounts(s, s', released, {})
      && (s' == s <==> surface !in s.pending || s.pending[surface].handle != handle)
  {
    var (s', released) := Reject(s, surface, handle);
    if surface in s.pending && s.pending[surface].handle == handle {
      assert HeldAt(s, surface, handle);
      forall x, h ensures HeldAt(s', x, h) || (x == surface && h == handle) <==> HeldAt(s, x, h) {
      }
      forall h: Handle
        ensures (exists x :: HeldAt(s', x, h)) || h in Listed(released) <==> (exists x :: HeldAt(s, x, h)) || h in {}
      {
      }
      AccountsByHolder(s, s', released, {});
      HeldHereOrElsewhere(s', surface, handle);
      ElsewhereKept(s, s', surface, handle);
    }
  }

  /** No handle is needed by two surfaces. */
  ghost predicate Unshared(s: State) {
    forall x, y, h :: HeldAt(s, x, h) && HeldAt(s, y, h) ==> x == y
  }

  /** Only the submission of a handle that another surface needs makes handles shared. */
  lemma SubmitKeepsUnsharedIff(s: State, surface: Surface, handle: Handle)
    requires Unshared(s)
    ensures Unshared(Submit(s, surface, handle).0) <==> !HeldElsewhere(s, surface, handle)
  {
    var s' := Submit(s, surface, handle).0;
    assert HeldAt(s', surface, handle);
    if HeldElsewhere(s, surface, handle) {
      var x :| x != surface && HeldAt(s, x, handle);
      assert HeldAt(s', x, handle);
    } else {
      forall x, y, h | HeldAt(s', x, h) && HeldAt(s', y, h) ensures x == y {
        assert HeldAt(s, x, h) ==> x in s.pending.Keys + s.committed.Keys;
        assert HeldAt(s, y, h) ==> y in s.pending.Keys + s.committed.Keys;
        assert (x == surface && h == handle) || HeldAt(s, x, h);
        assert (y == surface && h == handle) || HeldAt(s, y, h);
      }
    }
  }

  /** While handles are unshared no retirement is premature. */
  lemma UnsharedRetireIsSound(s: State, surface: Surface, handle: Handle)
    requires Unshared(s)
    ensures !DisplacesHeld(s, surface, handle)
    ensures Unshared(Retire(s, surface, handle).0) && Unshared(Reject(s, surface, handle).0)
  {
    if surface in s.committed {
      assert HeldAt(s, surface, s.committed[surface]);
    }
    var retired, rejected := Retire(s, surface, handle).0, Reject(s, surface, handle).0;
    assert forall x, h :: HeldAt(retired, x, h) ==> HeldAt(s, x, h);
    assert forall x, h :: HeldAt(rejected, x, h) ==> HeldAt(s, x, h);
  }

  /** Submitting the pending handle again reports it released while it is still pending. */
  lemma ResubmissionReleasesHeldExample()
    ensures var (s1, _) := Submit(State(map[], map[]), 1, 7);
      var (s2, released) := Submit(s1, 1, 7);
      released == Some(7) && 7 in Held(s2)
  {
    var (s1, _) := Submit(State(map[], map[]), 1, 7);
    var (s2, _) := Submit(s1, 1, 7);
    assert s2.pending[1].handle == 7;
  }

  /** Presenting the committed handle again is in order: the flip releases nothing and restores the state. */
  lemma CommittedAgainExample()
    ensures var shown := State(map[1 := 7], map[]);
      var (s1, replaced) := Submit(shown, 1, 7);
      var (s2, released) := Retire(s1, 1, 7);
      replaced.None? && released.None? && s2 == shown
  {
  }

  /** But rejecting it reports it released while it is still committed. */
  lemma RejectionReleasesCommittedExample()
    ensures var shown := State(map[1 := 7], map[]);
      var (s1, _) := Submit(shown, 1, 7);
      var (s2, released) := Reject(s1, 1, 7);
      released == Some(7) && 7 in Held(s2)
  {
    var s2 := Reject(Submit(State(map[1 := 7], map[]), 1, 7).0, 1, 7).0;
    assert s2.committed[1] == 7;
  }

  // ---------------------------------------------------------------- runs

  datatype Op =
    | OpSubmit(surface: Surface, handle: Handle)
    | OpRetire(surface: Surface, handle: Handle)
    | OpReject(surface: Surface, handle: Handle)

  /** The handles the registry took on, each time it did not hold them yet, and all release reports so far. */
  datatype Ledger = Ledger(taken: multiset<Handle>, released: multiset<Handle>)

  function Step(s: State, op: Op): (State, Option<Handle>) {
    match op
    case OpSubmit(surface, handle) => Submit(s, surface, handle)
    case OpRetire(surface, handle) => Retire(s, surface, handle)
    case OpReject(surface, handle) => Reject(s, surface, handle)
  }

  function Entered(s: State, op: Op): set<Handle> {
    if op.OpSubmit? && op.handle !in Held(s) then {op.handle} else {}
  }

  function Account(s: State, l: Ledger, op: Op, released: Option<Handle>): Ledger {
    Ledger(l.taken + multiset(Entered(s, op)), l.released + multiset(Listed(released)))
  }

  function Run(s: State, l: Ledger, ops: seq<Op>): (State, Ledger)
    decreases |ops|
  {
    if ops == [] then (s, l)
    else
      var (s', released) := Step(s, ops[0]);
      Run(s', Account(s, l, ops[0], released), ops[1..])
  }

  /** The calls that release a handle too early, told from the state before the call. */
  predicate ReleasesHeld(s: State, op: Op) {
    match op
    case OpSubmit(surface, handle) => ReplacesHeld(s, surface, handle)
    case OpRetire(surface, handle) => DisplacesHeld(s, surface, handle)
    case OpReject(surface, handle) => RejectsHeld(s, surface, handle)
  }

  /** How many calls of the run release a handle too early. */
  function PrematureCalls(s: State, ops: seq<Op>): nat
    decreases |ops|
  {
    if ops == [] then 0
    else (if ReleasesHeld(s, ops[0]) then 1 else 0) + PrematureCalls(Step(s, ops[0]).0, ops[1..])
  }

  /** At no step of the run is a handle released that is still held. */
  predicate ReleasesAreFinal(s: State, ops: seq<Op>)
    decreases |ops|
  {
    ops == [] ||
    (Held(Step(s, ops[0]).0) !! Listed(Step(s, ops[0]).1) && ReleasesAreFinal(Step(s, ops[0]).0, ops[1..]))
  }

  /** Handles were taken on as often as they were released, plus once if they are still held. */
  ghost predicate Balanced(s: State, l: Ledger) {
    l.taken == l.released + multiset(Held(s))
  }

  lemma StepIsSoundIff(s: State, op: Op)
    requires Inv(s)
    ensures Inv(Step(s, op).0)
    ensures Held(Step(s, op).0) !! Listed(Step(s, op).1) <==> !ReleasesHeld(s, op)
    ensures Accounts(s, Step(s, op).0, Step(s, op).1, Entered(s, op))
  {
    hide Inv, Submit, Retire, Reject, Held, ReplacesHeld, DisplacesHeld, RejectsHeld;
    match op {
      case OpSubmit(surface, handle) => SubmitIsSoundIff(s, surface, handle);
      case OpRetire(surface, handle) => RetireIsSoundIff(s, surface, handle);
      case OpReject(surface, handle) => RejectIsSoundIff(s, surface, handle);
    }
  }

  lemma StepBalances(s: State, l: Ledger, op: Op)
    requires Inv(s) && Balanced(s, l) && !ReleasesHeld(s, op)
    ensures Balanced(Step(s, op).0, Account(s, l, op, Step(s, op).1))
  {
    hide Inv, Step, Held, ReleasesHeld;
    StepIsSoundIff(s, op);
    var (s', released) := Step(s, op);
    DisjointUnion(Held(s'), Listed(released));
    DisjointUnion(Held(s), Entered(s, op));
  }

  lemma DisjointUnion(a: set<Handle>, b: set<Handle>)
    requires a !! b
    ensures multiset(a + b) == multiset(a) + multiset(b)
  {
  }

  /** What a ledger shows too much: more releases and held handles than were taken on. */
  ghost function Surplus(s: State, l: Ledger): int {
    |l.released| + |Held(s)| - |l.taken|
  }

  /** A premature release counts one handle twice, as released and as held; every other step keeps count. */
  lemma StepSurplus(s: State, l: Ledger, op: Op)
    requires Inv(s)
    ensures Surplus(Step(s, op).0, Account(s, l, op, Step(s, op).1)) == Surplus(s, l) + (if ReleasesHeld(s, op) then 1 else 0)
  {
    hide Inv, Step, Held, ReleasesHeld;
    StepIsSoundIff(s, op);
    var (s', released) := Step(s, op);
    UnionSize(Held(s'), Listed(released));
    UnionSize(Held(s), Entered(s, op));
    var l' := Account(s, l, op, released);
    assert |l'.taken| == |l.taken| + |Entered(s, op)|;
    assert |l'.released| == |l.released| + |Listed(released)|;
  }

  lemma UnionSize(a: set<Handle>, b: set<Handle>)
    requires |b| <= 1
    ensures |a + b| == |a| + |b| - (if a !! b then 0 else 1)
  {
    if a !! b {
      DisjointUnion(a, b);
    } else {
      var h :| h in a && h in b;
      assert b == {h} by {
        assert |b - {h}| == 0;
      }
      assert a + b == a;
    }
  }

  lemma {:induction false} RunSurplus(s: State, l: Ledger, ops: seq<Op>)
    requires Inv(s)
    ensures var (s', l') := Run(s, l, ops);
      Inv(s') && Surplus(s', l') == Surplus(s, l) + PrematureCalls(s, ops)
    decreases |ops|
  {
    hide Inv, Step, Account, ReleasesHeld, Surplus;
    if ops != [] {
      StepIsSoundIff(s, ops[0]);
      StepSurplus(s, l, ops[0]);
      var (s', released) := Step(s, ops[0]);
      RunSurplus(s', Account(s, l, ops[0], released), ops[1..]);
    }
  }

  lemma {:induction false} CarefulRunBalances(s: State, l: Ledger, ops: seq<Op>)
    requires Inv(s) && Balanced(s, l) && PrematureCalls(s, ops) == 0
    ensures var (s', l') := Run(s, l, ops); Inv(s') && Balanced(s', l')
    decreases |ops|
  {
    hide Inv, Balanced, Step, Account, ReleasesHeld;
    if ops != [] {
      StepIsSoundIff(s, ops[0]);
      StepBalances(s, l, ops[0]);
      var (s', released) := Step(s, ops[0]);
      CarefulRunBalances(s', Account(s, l, ops[0], released), ops[1..]);
    }
  }

  /**
   Conservation, for every run: each handle was taken on as often as it was released, plus once if it is
   still held, if and only if no call of the run was premature.
   */
  lemma RunConservesIff(s: State, l: Ledger, ops: seq<Op>)
    requires Inv(s) && Balanced(s, l)
    ensures var (s', l') := Run(s, l, ops);
      Inv(s') && (Balanced(s', l') <==> PrematureCalls(s, ops) == 0)
  {
    hide Inv, Run;
    RunSurplus(s, l, ops);
    BalancedHasNoSurplus(s, l);
    if PrematureCalls(s, ops) == 0 {
      CarefulRunBalances(s, l, ops);
    }
    var (s', l') := Run(s, l, ops);
    if Balanced(s', l') {
      BalancedHasNoSurplus(s', l');
    }
  }

  lemma BalancedHasNoSurplus(s: State, l: Ledger)
    requires Balanced(s, l)
    ensures Surplus(s, l) == 0
  {
    assert |l.taken| == |l.released + multiset(Held(s))|;
  }

  /** A run releases nothing that is still held exactly when none of its calls is a premature one. */
  lemma {:induction false} RunIsSoundIff(s: State, ops: seq<Op>)
    requires Inv(s)
    ensures ReleasesAreFinal(s, ops) <==> PrematureCalls(s, ops) == 0
    decreases |ops|
  {
    hide Inv, Step, ReleasesHeld, Held;
    if ops != [] {
      StepIsSoundIff(s, ops[0]);
      RunIsSoundIff(Step(s, ops[0]).0, ops[1..]);
    }
  }

  /**
   After any run from the start, the disconnect leaves every handle released exactly as often as it was
   taken on if and only if no call of the run was premature.
   */
  lemma DisconnectReleasesEverythingIff(ops: seq<Op>)
    ensures var start := State(map[], map[]);
      var (s, l) := Run(start, Ledger(multiset{}, multiset{}), ops);
      var (empty, released) := Disconnect(s);
      && empty == start
      && (l.released + multiset(released) == l.taken <==> PrematureCalls(start, ops) == 0)
  {
    hide Run, PrematureCalls;
    var start := State(map[], map[]);
    assert Held(start) == {};
    RunConservesIff(start, Ledger(multiset{}, multiset{}), ops);
  }

  /** Two surfaces hold one buffer; replacing it on the first reports it while the second still needs it. */
  lemma SharedHandleExample()
    ensures var s1 := Submit(State(map[], map[]), 1, 7).0;
      var s2 := Submit(s1, 2, 7).0;
      var s3 := Retire(s2, 1, 7).0;
      var s4 := Submit(s3, 1, 8).0;
      var (s5, released) := Retire(s4, 1, 8);
      released == Some(7) && 7 in Held(s5) && DisplacesHeld(s4, 1, 8)
  {
    var s4 := State(map[1 := 7], map[2 := Pending(7, None), 1 := Pending(8, Some(7))]);
    var (s5, released) := Retire(s4, 1, 8);
    assert HeldAt(s4, 2, 7) && 2 in s4.pending.Keys + s4.committed.Keys;
    assert s5.pending[2].handle == 7;
    assert Submit(Retire(Submit(Submit(State(map[], map[]), 1, 7).0, 2, 7).0, 1, 7).0, 1, 8).0 == s4;
  }

  // ---------------------------------------------------------------- collecting what is held

  /** The values of an ordered map, in the order of its keys. */
  function ValuesFrom(m: map<Surface, Handle>, keys: seq<Surface>): (r: seq<Handle>)
    requires forall k :: k in keys ==> k in m
    ensures forall h :: h in r <==> exists k :: k in keys && m[k] == h
  {
    if keys == [] then [] else [m[keys[0]]] + ValuesFrom(m, keys[1..])
  }

  predicate IsSorted(r: seq<Handle>) {
    forall i, j :: 0 <= i < j < |r| ==> r[i] <= r[j]
  }

  function SortedInsert(h: Handle, r: seq<Handle>): (q: seq<Handle>)
    requires IsSorted(r)
    ensures IsSorted(q)
    ensures forall x :: x in q <==> x in r || x == h
  {
    if r == [] then [h]
    else if h <= r[0] then [h] + r
    else
      var rest := SortedInsert(h, r[1..]);
      assert forall i :: 0 <= i < |rest| ==> rest[i] in rest;
      assert r == [r[0]] + r[1..];
      [r[0]] + rest
  }

  function Sorted(r: seq<Handle>): (q: seq<Handle>)
    ensures IsSorted(q)
    ensures forall x :: x in q <==> x in r
  {
    if r == [] then []
    else
      assert r == [r[0]] + r[1..];
      SortedInsert(r[0], Sorted(r[1..]))
  }

  /** Drops each element that equals the one kept just before it. */
  function Dedup(r: seq<Handle>): (q: seq<Handle>)
    ensures forall x :: x in q <==> x in r
    ensures IsSorted(r) ==> Increasing(q)
    ensures r != [] ==> q != [] && q[0] == r[0]
  {
    if |r| <= 1 then r
    else
      var rest := Dedup(r[1..]);
      assert r == [r[0]] + r[1..];
      if r[0] == r[1] then rest else [r[0]] + rest
  }

  function PendingMap(s: State): map<Surface, Handle> {
    map x | x in s.pending :: s.pending[x].handle
  }

  /** Pending handles, then committed ones: each held handle at least once. */
  function Chained(s: State): (r: seq<Handle>)
    ensures forall h :: h in r <==> h in Held(s)
  {
    ValuesFrom(PendingMap(s), Ascending(s.pending.Keys)) + ValuesFrom(s.committed, Ascending(s.committed.Keys))
  }

  /** Sorting and dropping repetitions lists every held handle once, in order. */
  lemma CollectedOnce(s: State)
    ensures Dedup(Sorted(Chained(s))) == Ascending(Held(s))
  {
    IncreasingIsUnique(Dedup(Sorted(Chained(s))), Ascending(Held(s)));
  }

  // ---------------------------------------------------------------- the object

  class LiveCpuBufferLifetimeRegistry {
    var committed: map<Surface, Handle>
    var pending: map<Surface, Pending>

    function Abs(): State
      reads this
    {
      State(committed, pending)
    }

    constructor ()
      ensures Abs() == State(map[], map[])
    {
      committed, pending := map[], map[];
    }

    method SubmitBuffer(surface: Surface, handle: Handle) returns (released: Option<Handle>)
      modifies this
      ensures (Abs(), released) == Submit(old(Abs()), surface, handle)
    {
      released := if surface in pending then Some(pending[surface].handle) else None;
      pending := pending[surface := Pending(handle, CommittedAt(Abs(), surface))];
    }

    method RetirePageFlip(surface: Surface, handle: Handle) returns (released: Option<Handle>)
      modifies this
      ensures (Abs(), released) == Retire(old(Abs()), surface, handle)
    {
      if surface !in pending || pending[surface].handle != handle {
        return None;
      }
      var previous := pending[surface].previous;
      pending := pending - {surface};
      committed := committed[surface := handle];
      return if previous.Some? && previous.value != handle then previous else None;
    }

    method RejectBuffer(surface: Surface, handle: Handle) returns (released: Option<Handle>)
      modifies this
      ensures (Abs(), released) == Reject(old(Abs()), surface, handle)
    {
      if surface !in pending || pending[surface].handle != handle {
        return None;
      }
      pending := pending - {surface};
      return Some(handle);
    }

    method DisconnectAll() returns (released: seq<Handle>)
      modifies this
      ensures (Abs(), released) == Disconnect(old(Abs()))
    {
      CollectedOnce(Abs());
      var handles := Chained(Abs());
      handles := Sorted(handles);
      released := Dedup(handles);
      pending, committed := map[], map[];
    }
  }
}
