/**
 Grabs of the X authority (GrabKey, GrabButton, GrabPointer, GrabKeyboard, AllowEvents and GrabServer,
 section 9 of the X Window System Protocol, Version 11): which passive patterns conflict, which grab a
 press activates, when input stays frozen, and what the cleanup of a client leaves behind.
 */
module InputGrabs {
  import opened Basics

  type Namespace = nat
  type Owner = nat
  type Detail = x: int | 0 <= x < 256
  type Modifiers = x: int | 0 <= x < 0x1_0000

  const ANY_DETAIL: Detail := 0
  const ANY_MODIFIER: Modifiers := 0x8000

  datatype Error = AlreadyGrabbed | AccessConflict | InvalidMode

  datatype ActiveGrab = ActiveGrab(
    owner: Owner, window: nat, ownerEvents: bool, pointerMode: nat, keyboardMode: nat, eventMask: nat)

  datatype PassiveGrab = PassiveGrab(
    owner: Owner,
    window: nat,
    detail: Detail,
    modifiers: Modifiers,
    ownerEvents: bool,
    pointerMode: nat,
    keyboardMode: nat,
    eventMask: nat)

  datatype Authority = Authority(
    pointer: Option<ActiveGrab>,
    keyboard: Option<ActiveGrab>,
    buttons: seq<PassiveGrab>,
    keys: seq<PassiveGrab>,
    serverOwner: Option<Owner>,
    pointerFrozen: bool,
    keyboardFrozen: bool,
    pointerImplicit: bool,
    pointerPassiveDetail: Option<Detail>,
    keyboardPassiveDetail: Option<Detail>)

  datatype Selection = Selection(namespace: Namespace, owner: Owner, window: nat, device: nat)

  datatype State = State(namespaces: map<Namespace, Authority>, selections: map<Selection, seq<nat>>)

  const Idle := Authority(None, None, [], [], None, false, false, false, None, None)

  /** The authority of a namespace; one that has no entry is idle. */
  function At(s: State, ns: Namespace): Authority {
    if ns in s.namespaces then s.namespaces[ns] else Idle
  }

  // ---------------------------------------------------------------- patterns

  predicate PatternsOverlap(a: PassiveGrab, b: PassiveGrab) {
    && (a.detail == ANY_DETAIL || b.detail == ANY_DETAIL || a.detail == b.detail)
    && (a.modifiers == ANY_MODIFIER || b.modifiers == ANY_MODIFIER || a.modifiers == b.modifiers)
    && a.window == b.window
  }

  /** The grab's pattern matches a press of `detail` with `modifiers` held. */
  predicate Matches(g: PassiveGrab, detail: Detail, modifiers: Modifiers) {
    && (g.detail == ANY_DETAIL || g.detail == detail)
    && (g.modifiers == ANY_MODIFIER || g.modifiers == modifiers)
  }

  /** A press that can happen: a definite key or button, and a definite set of modifiers. */
  predicate IsPress(detail: Detail, modifiers: Modifiers) {
    detail != ANY_DETAIL && modifiers != ANY_MODIFIER
  }

  /** Two patterns on one window overlap exactly when some press matches both. */
  lemma OverlapIffCommonPress(a: PassiveGrab, b: PassiveGrab)
    requires a.window == b.window
    ensures PatternsOverlap(a, b) <==>
      exists detail, modifiers :: IsPress(detail, modifiers) && Matches(a, detail, modifiers) && Matches(b, detail, modifiers)
  {
    if PatternsOverlap(a, b) {
      var detail: Detail := if a.detail != ANY_DETAIL then a.detail else if b.detail != ANY_DETAIL then b.detail else 1;
      var modifiers: Modifiers :=
        if a.modifiers != ANY_MODIFIER then a.modifiers else if b.modifiers != ANY_MODIFIER then b.modifiers else 0;
      assert IsPress(detail, modifiers) && Matches(a, detail, modifiers) && Matches(b, detail, modifiers);
    }
  }

  predicate SamePattern(a: PassiveGrab, b: PassiveGrab) {
    a.owner == b.owner && a.window == b.window && a.detail == b.detail && a.modifiers == b.modifiers
  }

  // ---------------------------------------------------------------- lists of grabs

  /** What an operation drops from a list of grabs. */
  datatype Drop =
    | EverythingOf(owner: Owner)
    | TheSamePattern(grab: PassiveGrab)
    | Ungrabbed(client: Owner, window: nat, detail: Detail, modifiers: Modifiers)

  predicate Drops(d: Drop, g: PassiveGrab) {
    match d
    case EverythingOf(owner) => g.owner == owner
    case TheSamePattern(grab) => SamePattern(g, grab)
    case Ungrabbed(client, window, detail, modifiers) =>
      && g.owner == client && g.window == window
      && (detail == ANY_DETAIL || g.detail == detail)
      && (modifiers == ANY_MODIFIER || g.modifiers == modifiers)
  }

  /** The grabs that are not dropped, in order. */
  function Without(grabs: seq<PassiveGrab>, d: Drop): (r: seq<PassiveGrab>)
    ensures forall g :: g in r <==> g in grabs && !Drops(d, g)
  {
    if grabs == [] then []
    else
      var rest := Without(grabs[1..], d);
      if Drops(d, grabs[0]) then rest else [grabs[0]] + rest
  }

  predicate Conflicts(grabs: seq<PassiveGrab>, grab: PassiveGrab) {
    exists g :: g in grabs && g.owner != grab.owner && PatternsOverlap(g, grab)
  }

  function InsertPassive(grabs: seq<PassiveGrab>, grab: PassiveGrab): Result<seq<PassiveGrab>, Error> {
    if Conflicts(grabs, grab) then Err(AccessConflict)
    else Ok(Without(grabs, TheSamePattern(grab)) + [grab])
  }

  function RemovePassive(grabs: seq<PassiveGrab>, owner: Owner, window: nat, detail: Detail,
                         modifiers: Modifiers): seq<PassiveGrab> {
    Without(grabs, Ungrabbed(owner, window, detail, modifiers))
  }

  /** No two grabs of different owners overlap, and no owner has a pattern twice. */
  ghost predicate Compatible(grabs: seq<PassiveGrab>) {
    forall i, j :: 0 <= i < j < |grabs| ==>
      && (grabs[i].owner != grabs[j].owner ==> !PatternsOverlap(grabs[i], grabs[j]))
      && !SamePattern(grabs[i], grabs[j])
  }

  lemma {:induction false} WithoutStaysCompatible(grabs: seq<PassiveGrab>, d: Drop)
    requires Compatible(grabs)
    ensures Compatible(Without(grabs, d))
  {
    if grabs != [] {
      var rest := Without(grabs[1..], d);
      WithoutStaysCompatible(grabs[1..], d);
      if !Drops(d, grabs[0]) {
        forall j | 0 <= j < |rest|
          ensures grabs[0].owner != rest[j].owner ==> !PatternsOverlap(grabs[0], rest[j])
          ensures !SamePattern(grabs[0], rest[j])
        {
          assert rest[j] in rest;
          var k :| 0 <= k < |grabs[1..]| && grabs[1..][k] == rest[j];
          assert grabs[k + 1] == rest[j];
        }
      }
    }
  }

  lemma InsertStaysCompatible(grabs: seq<PassiveGrab>, grab: PassiveGrab)
    requires Compatible(grabs) && InsertPassive(grabs, grab).Ok?
    ensures Compatible(InsertPassive(grabs, grab).value)
  {
    var kept := Without(grabs, TheSamePattern(grab));
    WithoutStaysCompatible(grabs, TheSamePattern(grab));
    forall i | 0 <= i < |kept|
      ensures kept[i].owner != grab.owner ==> !PatternsOverlap(kept[i], grab)
      ensures !SamePattern(kept[i], grab)
    {
      assert kept[i] in kept;
    }
  }

  /** In a compatible list, all grabs of one window that a press matches belong to one owner. */
  lemma PressHasOneOwner(grabs: seq<PassiveGrab>, a: PassiveGrab, b: PassiveGrab, detail: Detail, modifiers: Modifiers)
    requires Compatible(grabs) && a in grabs && b in grabs && a.window == b.window
    requires IsPress(detail, modifiers) && Matches(a, detail, modifiers) && Matches(b, detail, modifiers)
    ensures a.owner == b.owner
  {
    OverlapIffCommonPress(a, b);
    OverlapIffCommonPress(b, a);
    var i :| 0 <= i < |grabs| && grabs[i] == a;
    var j :| 0 <= j < |grabs| && grabs[j] == b;
  }

  // ---------------------------------------------------------------- operations

  function ModesValid(pointerMode: nat, keyboardMode: nat): bool {
    pointerMode <= 1 && keyboardMode <= 1
  }

  function Put(s: State, ns: Namespace, a: Authority): State {
    s.(namespaces := s.namespaces[ns := a])
  }

  /** A grab with valid modes creates the namespace's entry even when it then conflicts. */
  function GrabButton(s: State, ns: Namespace, grab: PassiveGrab): (State, Result<Unit, Error>) {
    if !ModesValid(grab.pointerMode, grab.keyboardMode) then (s, Err(InvalidMode))
    else
      var r := InsertPassive(At(s, ns).buttons, grab);
      if r.Err? then (Put(s, ns, At(s, ns)), Err(r.error))
      else (Put(s, ns, At(s, ns).(buttons := r.value)), Ok(Unit.Unit))
  }

  function GrabKey(s: State, ns: Namespace, grab: PassiveGrab): (State, Result<Unit, Error>) {
    if !ModesValid(grab.pointerMode, grab.keyboardMode) then (s, Err(InvalidMode))
    else
      var r := InsertPassive(At(s, ns).keys, grab);
      if r.Err? then (Put(s, ns, At(s, ns)), Err(r.error))
      else (Put(s, ns, At(s, ns).(keys := r.value)), Ok(Unit.Unit))
  }

  function UngrabButton(s: State, ns: Namespace, owner: Owner, window: nat, detail: Detail, modifiers: Modifiers): State {
    if ns !in s.namespaces then s
    else Put(s, ns, At(s, ns).(buttons := RemovePassive(At(s, ns).buttons, owner, window, detail, modifiers)))
  }

  function UngrabKey(s: State, ns: Namespace, owner: Owner, window: nat, detail: Detail, modifiers: Modifiers): State {
    if ns !in s.namespaces then s
    else Put(s, ns, At(s, ns).(keys := RemovePassive(At(s, ns).keys, owner, window, detail, modifiers)))
  }

  function ActiveFrom(g: PassiveGrab): ActiveGrab {
    ActiveGrab(g.owner, g.window, g.ownerEvents, g.pointerMode, g.keyboardMode, g.eventMask)
  }

  function FirstMatch(grabs: seq<PassiveGrab>, detail: Detail, modifiers: Modifiers): Option<PassiveGrab> {
    if grabs == [] then None
    else if Matches(grabs[0], detail, modifiers) then Some(grabs[0])
    else FirstMatch(grabs[1..], detail, modifiers)
  }

  function ActivateKey(s: State, ns: Namespace, key: Detail, modifiers: Modifiers): (State, Option<ActiveGrab>) {
    if ns !in s.namespaces then (s, None)
    else
      var a := s.namespaces[ns];
      var passive := FirstMatch(a.keys, key, modifiers);
      if passive.None? then (s, None)
      else
        var active := ActiveFrom(passive.value);
        (Put(s, ns, a.(
           keyboard := Some(active),
           keyboardPassiveDetail := Some(key),
           keyboardFrozen := active.keyboardMode == 0,
           pointerFrozen := a.pointerFrozen || active.pointerMode == 0)), Some(active))
  }

  /** A press that no passive grab matches starts the implicit grab it comes with. */
  function ActivateButton(s: State, ns: Namespace, button: Detail, modifiers: Modifiers,
                          implicitGrab: ActiveGrab): (State, ActiveGrab) {
    var a := At(s, ns);
    var passive := FirstMatch(a.buttons, button, modifiers);
    var active := if passive.Some? then ActiveFrom(passive.value) else implicitGrab;
    (Put(s, ns, a.(
       pointer := Some(active),
       pointerImplicit := passive.None?,
       pointerPassiveDetail := if passive.Some? then Some(button) else None,
       pointerFrozen := active.pointerMode == 0,
       keyboardFrozen := a.keyboardFrozen || active.keyboardMode == 0)), active)
  }

  /** A press activates a grab exactly when one matches it, and then the first that does. */
  lemma {:induction false} FirstMatchIsFirst(grabs: seq<PassiveGrab>, detail: Detail, modifiers: Modifiers)
    ensures var r := FirstMatch(grabs, detail, modifiers);
      && (r.None? <==> forall g :: g in grabs ==> !Matches(g, detail, modifiers))
      && (r.Some? ==> exists i :: 0 <= i < |grabs| && grabs[i] == r.value && Matches(r.value, detail, modifiers)
                                  && forall j :: 0 <= j < i ==> !Matches(grabs[j], detail, modifiers))
  {
    if grabs != [] && !Matches(grabs[0], detail, modifiers) {
      FirstMatchIsFirst(grabs[1..], detail, modifiers);
      if FirstMatch(grabs[1..], detail, modifiers).Some? {
        var r := FirstMatch(grabs[1..], detail, modifiers).value;
        var i :| 0 <= i < |grabs[1..]| && grabs[1..][i] == r && Matches(r, detail, modifiers)
                 && forall j :: 0 <= j < i ==> !Matches(grabs[1..][j], detail, modifiers);
        forall j | 0 <= j < i + 1 ensures !Matches(grabs[j], detail, modifiers) {
          if j > 0 {
            assert grabs[j] == grabs[1..][j - 1];
          }
        }
        assert grabs[i + 1] == r;
      }
    }
  }

  predicate OwnedBy(g: Option<ActiveGrab>, owner: Owner) {
    g.Some? && g.value.owner == owner
  }

  // ---------------------------------------------------------------- active grabs

  function GrabPointer(s: State, ns: Namespace, grab: ActiveGrab): (State, Result<Unit, Error>) {
    if !ModesValid(grab.pointerMode, grab.keyboardMode) then (s, Err(InvalidMode))
    else
      var a := At(s, ns);
      if a.pointer.Some? && a.pointer.value.owner != grab.owner then (Put(s, ns, a), Err(AlreadyGrabbed))
      else
        (Put(s, ns, a.(
           pointer := Some(grab),
           pointerImplicit := false,
           pointerPassiveDetail := None,
           pointerFrozen := grab.pointerMode == 0,
           keyboardFrozen := a.keyboardFrozen || grab.keyboardMode == 0)), Ok(Unit.Unit))
  }

  function GrabKeyboard(s: State, ns: Namespace, grab: ActiveGrab): (State, Result<Unit, Error>) {
    if !ModesValid(grab.pointerMode, grab.keyboardMode) then (s, Err(InvalidMode))
    else
      var a := At(s, ns);
      if a.keyboard.Some? && a.keyboard.value.owner != grab.owner then (Put(s, ns, a), Err(AlreadyGrabbed))
      else
        (Put(s, ns, a.(
           keyboard := Some(grab),
           keyboardPassiveDetail := None,
           keyboardFrozen := grab.keyboardMode == 0,
           pointerFrozen := a.pointerFrozen || grab.pointerMode == 0)), Ok(Unit.Unit))
  }

  /** Ungrabbing the pointer thaws the keyboard as well, when nobody has grabbed that. */
  function UngrabPointer(s: State, ns: Namespace, owner: Owner): State {
    if ns !in s.namespaces || !OwnedBy(s.namespaces[ns].pointer, owner) then s
    else
      var a := s.namespaces[ns];
      Put(s, ns, a.(
        pointer := None,
        pointerImplicit := false,
        pointerPassiveDetail := None,
        pointerFrozen := false,
        keyboardFrozen := a.keyboardFrozen && a.keyboard.Some?))
  }

  function UngrabKeyboard(s: State, ns: Namespace, owner: Owner): State {
    if ns !in s.namespaces || !OwnedBy(s.namespaces[ns].keyboard, owner) then s
    else
      var a := s.namespaces[ns];
      Put(s, ns, a.(
        keyboard := None,
        keyboardPassiveDetail := None,
        keyboardFrozen := false,
        pointerFrozen := a.pointerFrozen && a.pointer.Some?))
  }

  predicate EndsKeyGrab(a: Authority, key: Detail) {
    a.keyboardPassiveDetail == Some(key)
  }

  predicate EndsButtonGrab(a: Authority, button: Detail) {
    a.pointerImplicit || a.pointerPassiveDetail == Some(button)
  }

  /** Releasing the key that activated a grab ends the grab; the pointer stays as it is. */
  function ReleaseKey(s: State, ns: Namespace, key: Detail): State {
    if ns !in s.namespaces || !EndsKeyGrab(s.namespaces[ns], key) then s
    else Put(s, ns, s.namespaces[ns].(keyboard := None, keyboardPassiveDetail := None, keyboardFrozen := false))
  }

  function ReleaseButton(s: State, ns: Namespace, button: Detail): State {
    if ns !in s.namespaces || !EndsButtonGrab(s.namespaces[ns], button) then s
    else
      Put(s, ns, s.namespaces[ns].(
        pointer := None, pointerImplicit := false, pointerPassiveDetail := None, pointerFrozen := false))
  }

  function GrabServer(s: State, ns: Namespace, owner: Owner): (State, Result<Unit, Error>) {
    var a := At(s, ns);
    if a.serverOwner.Some? && a.serverOwner.value != owner then (Put(s, ns, a), Err(AlreadyGrabbed))
    else (Put(s, ns, a.(serverOwner := Some(owner))), Ok(Unit.Unit))
  }

  function UngrabServer(s: State, ns: Namespace, owner: Owner): State {
    if ns !in s.namespaces || s.namespaces[ns].serverOwner != Some(owner) then s
    else Put(s, ns, s.namespaces[ns].(serverOwner := None))
  }

  /** Modes 0 to 2 thaw the pointer, 3 to 5 the keyboard, 6 and 7 both; only for who has grabbed it. */
  function AllowEvents(s: State, ns: Namespace, owner: Owner, mode: nat): (State, Result<Unit, Error>) {
    if mode > 7 then (s, Err(InvalidMode))
    else if ns !in s.namespaces then (s, Ok(Unit.Unit))
    else
      var a := s.namespaces[ns];
      var thawsPointer := (mode <= 2 || mode >= 6) && OwnedBy(a.pointer, owner);
      var thawsKeyboard := mode >= 3 && OwnedBy(a.keyboard, owner);
      (Put(s, ns, a.(pointerFrozen := a.pointerFrozen && !thawsPointer,
                     keyboardFrozen := a.keyboardFrozen && !thawsKeyboard)), Ok(Unit.Unit))
  }

  /** Event masks per device: a mask without a set bit removes the selection. */
  function SelectEvents(selections: map<Selection, seq<nat>>, ns: Namespace, owner: Owner, window: nat,
                        masks: seq<(nat, seq<nat>)>): map<Selection, seq<nat>>
    decreases |masks|
  {
    if masks == [] then selections
    else
      var (device, mask) := masks[0];
      var k := Selection(ns, owner, window, device);
      var selected := if forall i :: 0 <= i < |mask| ==> mask[i] == 0 then selections - {k} else selections[k := mask];
      SelectEvents(selected, ns, owner, window, masks[1..])
  }

  /** One namespace without the owner's grabs. */
  function CleanAuthority(a: Authority, owner: Owner): Authority {
    var a1 := if OwnedBy(a.pointer, owner) then
                a.(pointer := None, pointerFrozen := false, pointerImplicit := false, pointerPassiveDetail := None)
              else a;
    var a2 := if OwnedBy(a1.keyboard, owner) then
                a1.(keyboard := None, keyboardFrozen := false, keyboardPassiveDetail := None)
              else a1;
    var a3 := a2.(buttons := Without(a2.buttons, EverythingOf(owner)),
                  keys := Without(a2.keys, EverythingOf(owner)),
                  serverOwner := if a2.serverOwner == Some(owner) then None else a2.serverOwner);
    if a3.pointer.None? && a3.keyboard.None? then a3.(pointerFrozen := false, keyboardFrozen := false) else a3
  }

  predicate InUse(a: Authority) {
    a.pointer.Some? || a.keyboard.Some? || a.buttons != [] || a.keys != [] || a.serverOwner.Some?
  }

  /** Drops the owner everywhere, and with it the namespaces nobody uses any more. */
  function CleanupOwner(s: State, owner: Owner): State {
    State(
      map ns | ns in s.namespaces && InUse(CleanAuthority(s.namespaces[ns], owner)) :: CleanAuthority(s.namespaces[ns], owner),
      map k | k in s.selections && k.owner != owner :: s.selections[k])
  }

  /** Nothing of the owner is left in the namespace. */
  ghost predicate NoTrace(a: Authority, owner: Owner) {
    && !OwnedBy(a.pointer, owner) && !OwnedBy(a.keyboard, owner) && a.serverOwner != Some(owner)
    && (forall g :: g in a.buttons + a.keys ==> g.owner != owner)
  }

  lemma CleanAuthorityIsExact(a: Authority, owner: Owner)
    ensures var b := CleanAuthority(a, owner);
      && NoTrace(b, owner)
      && b.buttons == Without(a.buttons, EverythingOf(owner))
      && b.keys == Without(a.keys, EverythingOf(owner))
      && b.pointer == (if OwnedBy(a.pointer, owner) then None else a.pointer)
      && b.keyboard == (if OwnedBy(a.keyboard, owner) then None else a.keyboard)
      && b.serverOwner == (if a.serverOwner == Some(owner) then None else a.serverOwner)
      && (b.pointer.Some? && b.keyboard.Some? ==> b.pointerFrozen == a.pointerFrozen && b.keyboardFrozen == a.keyboardFrozen)
      && (b.pointer.Some? ==> b.pointerImplicit == a.pointerImplicit && b.pointerPassiveDetail == a.pointerPassiveDetail)
      && (b.keyboard.Some? ==> b.keyboardPassiveDetail == a.keyboardPassiveDetail)
  {
  }

  /**
   After a cleanup nothing of the owner is left anywhere, every grab and selection of the others is as
   it was, in the same order, and exactly the namespaces still in use keep an entry.
   */
  lemma CleanupIsExact(s: State, owner: Owner, ns: Namespace)
    ensures var after := CleanupOwner(s, owner);
      var (a, b) := (At(s, ns), At(after, ns));
      && NoTrace(b, owner)
      && b.buttons == Without(a.buttons, EverythingOf(owner))
      && b.keys == Without(a.keys, EverythingOf(owner))
      && b.pointer == (if OwnedBy(a.pointer, owner) then None else a.pointer)
      && b.keyboard == (if OwnedBy(a.keyboard, owner) then None else a.keyboard)
      && b.serverOwner == (if a.serverOwner == Some(owner) then None else a.serverOwner)
      && (ns in after.namespaces <==> ns in s.namespaces && InUse(b))
    ensures CleanupOwner(s, owner).selections == map k | k in s.selections && k.owner != owner :: s.selections[k]
  {
    hide CleanAuthority;
    CleanAuthorityIsExact(At(s, ns), owner);
  }

  // ---------------------------------------------------------------- runs

  datatype Op =
    | OpGrabButton(ns: Namespace, grab: PassiveGrab)
    | OpGrabKey(ns: Namespace, grab: PassiveGrab)
    | OpUngrabButton(ns: Namespace, owner: Owner, window: nat, detail: Detail, modifiers: Modifiers)
    | OpUngrabKey(ns: Namespace, owner: Owner, window: nat, detail: Detail, modifiers: Modifiers)
    | OpActivateKey(ns: Namespace, detail: Detail, modifiers: Modifiers)
    | OpActivateButton(ns: Namespace, detail: Detail, modifiers: Modifiers, implicitGrab: ActiveGrab)
    | OpReleaseKey(ns: Namespace, detail: Detail)
    | OpReleaseButton(ns: Namespace, detail: Detail)
    | OpGrabPointer(ns: Namespace, active: ActiveGrab)
    | OpGrabKeyboard(ns: Namespace, active: ActiveGrab)
    | OpUngrabPointer(ns: Namespace, owner: Owner)
    | OpUngrabKeyboard(ns: Namespace, owner: Owner)
    | OpGrabServer(ns: Namespace, owner: Owner)
    | OpUngrabServer(ns: Namespace, owner: Owner)
    | OpAllowEvents(ns: Namespace, owner: Owner, mode: nat)
    | OpSelectEvents(ns: Namespace, owner: Owner, window: nat, masks: seq<(nat, seq<nat>)>)
    | OpCleanup(owner: Owner)

  function Step(s: State, op: Op): State {
    match op
    case OpGrabButton(ns, grab) => GrabButton(s, ns, grab).0
    case OpGrabKey(ns, grab) => GrabKey(s, ns, grab).0
    case OpUngrabButton(ns, owner, window, detail, modifiers) => UngrabButton(s, ns, owner, window, detail, modifiers)
    case OpUngrabKey(ns, owner, window, detail, modifiers) => UngrabKey(s, ns, owner, window, detail, modifiers)
    case OpActivateKey(ns, detail, modifiers) => ActivateKey(s, ns, detail, modifiers).0
    case OpActivateButton(ns, detail, modifiers, implicitGrab) => ActivateButton(s, ns, detail, modifiers, implicitGrab).0
    case OpReleaseKey(ns, detail) => ReleaseKey(s, ns, detail)
    case OpReleaseButton(ns, detail) => ReleaseButton(s, ns, detail)
    case OpGrabPointer(ns, active) => GrabPointer(s, ns, active).0
    case OpGrabKeyboard(ns, active) => GrabKeyboard(s, ns, active).0
    case OpUngrabPointer(ns, owner) => UngrabPointer(s, ns, owner)
    case OpUngrabKeyboard(ns, owner) => UngrabKeyboard(s, ns, owner)
    case OpGrabServer(ns, owner) => GrabServer(s, ns, owner).0
    case OpUngrabServer(ns, owner) => UngrabServer(s, ns, owner)
    case OpAllowEvents(ns, owner, mode) => AllowEvents(s, ns, owner, mode).0
    case OpSelectEvents(ns, owner, window, masks) => s.(selections := SelectEvents(s.selections, ns, owner, window, masks))
    case OpCleanup(owner) => CleanupOwner(s, owner)
  }

  function Run(s: State, ops: seq<Op>): State
    decreases |ops|
  {
    if ops == [] then s else Run(Step(s, ops[0]), ops[1..])
  }

  ghost predicate Inv(s: State) {
    forall ns: Namespace {:trigger At(s, ns)} :: Compatible(At(s, ns).buttons) && Compatible(At(s, ns).keys)
  }

  predicate ChangesPassiveGrabs(op: Op) {
    op.OpGrabButton? || op.OpGrabKey? || op.OpUngrabButton? || op.OpUngrabKey? || op.OpCleanup?
  }

  /** The other operations leave the lists of passive grabs alone. */
  lemma PassiveGrabsKept(s: State, op: Op, ns: Namespace)
    requires !ChangesPassiveGrabs(op)
    ensures At(Step(s, op), ns).buttons == At(s, ns).buttons && At(Step(s, op), ns).keys == At(s, ns).keys
  {
    hide FirstMatch, ModesValid, OwnedBy, SelectEvents;
  }

  lemma StepKeepsInv(s: State, op: Op)
    requires Inv(s)
    ensures Inv(Step(s, op))
  {
    hide Compatible, Step;
    var s' := Step(s, op);
    forall ns: Namespace ensures Compatible(At(s', ns).buttons) && Compatible(At(s', ns).keys) {
      if ChangesPassiveGrabs(op) {
        PassiveStepKeeps(s, op, ns);
      } else {
        PassiveGrabsKept(s, op, ns);
      }
    }
  }

  lemma PassiveStepKeeps(s: State, op: Op, ns: Namespace)
    requires Compatible(At(s, ns).buttons) && Compatible(At(s, ns).keys) && ChangesPassiveGrabs(op)
    ensures Compatible(At(Step(s, op), ns).buttons) && Compatible(At(Step(s, op), ns).keys)
  {
    hide Compatible, CleanAuthority, ModesValid;
    var a := At(s, ns);
    match op
    case OpGrabButton(_, grab) =>
      if InsertPassive(a.buttons, grab).Ok? {
        InsertStaysCompatible(a.buttons, grab);
      }
    case OpGrabKey(_, grab) =>
      if InsertPassive(a.keys, grab).Ok? {
        InsertStaysCompatible(a.keys, grab);
      }
    case OpUngrabButton(_, owner, window, detail, modifiers) =>
      WithoutStaysCompatible(a.buttons, Ungrabbed(owner, window, detail, modifiers));
    case OpUngrabKey(_, owner, window, detail, modifiers) =>
      WithoutStaysCompatible(a.keys, Ungrabbed(owner, window, detail, modifiers));
    case OpCleanup(owner) =>
      CleanupIsExact(s, owner, ns);
      WithoutStaysCompatible(a.buttons, EverythingOf(owner));
      WithoutStaysCompatible(a.keys, EverythingOf(owner));
  }

  /** In every reachable state, passive grabs of different owners never overlap. */
  lemma {:induction false} RunKeepsInv(s: State, ops: seq<Op>)
    requires Inv(s)
    ensures Inv(Run(s, ops))
    decreases |ops|
  {
    hide Inv, Step;
    if ops != [] {
      StepKeepsInv(s, ops[0]);
      RunKeepsInv(Step(s, ops[0]), ops[1..]);
    }
  }

  /** So, from the start, whatever happened: the grabs of one window that a press matches have one owner. */
  lemma EveryPressHasOneOwner(ops: seq<Op>, ns: Namespace, a: PassiveGrab, b: PassiveGrab, detail: Detail, modifiers: Modifiers)
    requires IsPress(detail, modifiers) && a.window == b.window
    requires Matches(a, detail, modifiers) && Matches(b, detail, modifiers)
    requires var authority := At(Run(State(map[], map[]), ops), ns);
      (a in authority.keys && b in authority.keys) || (a in authority.buttons && b in authority.buttons)
    ensures a.owner == b.owner
  {
    var start := State(map[], map[]);
    RunKeepsInv(start, ops);
    var authority := At(Run(start, ops), ns);
    if a in authority.keys && b in authority.keys {
      PressHasOneOwner(authority.keys, a, b, detail, modifiers);
    } else {
      PressHasOneOwner(authority.buttons, a, b, detail, modifiers);
    }
  }

  // ---------------------------------------------------------------- frozen input

  /** Input is frozen only while somebody has grabbed the pointer or the keyboard, who can thaw it. */
  predicate Thawable(a: Authority) {
    a.pointerFrozen || a.keyboardFrozen ==> a.pointer.Some? || a.keyboard.Some?
  }

  ghost predicate AllThawable(s: State) {
    forall ns: Namespace {:trigger At(s, ns)} :: Thawable(At(s, ns))
  }

  /** The release ends the one active grab while the other device is frozen. */
  predicate Strands(s: State, op: Op) {
    match op
    case OpReleaseKey(ns, key) =>
      var a := At(s, ns); EndsKeyGrab(a, key) && a.pointer.None? && a.pointerFrozen
    case OpReleaseButton(ns, button) =>
      var a := At(s, ns); EndsButtonGrab(a, button) && a.keyboard.None? && a.keyboardFrozen
    case _ => false
  }

  /** What a step does to one namespace: `op` is about `ns`, or leaves it alone. */
  predicate Concerns(op: Op, ns: Namespace) {
    op.OpCleanup? || (!op.OpSelectEvents? && op.ns == ns)
  }

  lemma OthersKept(s: State, op: Op, ns: Namespace)
    requires !Concerns(op, ns)
    ensures At(Step(s, op), ns) == At(s, ns)
  {
    hide FirstMatch, ModesValid, OwnedBy, SelectEvents, InsertPassive, RemovePassive;
  }

  lemma NamespaceThawableIff(s: State, op: Op, ns: Namespace)
    requires Thawable(At(s, ns)) && Concerns(op, ns)
    ensures Thawable(At(Step(s, op), ns)) <==> !Strands(s, op)
  {
    hide FirstMatch, ModesValid, InsertPassive, RemovePassive, Without;
  }

  /** From a state with nothing stranded, exactly the releases that strand frozen input lead to one that has. */
  lemma StepKeepsThawableIff(s: State, op: Op)
    requires AllThawable(s)
    ensures AllThawable(Step(s, op)) <==> !Strands(s, op)
  {
    hide Step, Strands, Thawable;
    forall ns: Namespace ensures Thawable(At(Step(s, op), ns)) <==> !(Concerns(op, ns) && Strands(s, op)) {
      assert Thawable(At(s, ns));
      if Concerns(op, ns) {
        NamespaceThawableIff(s, op, ns);
      } else {
        OthersKept(s, op, ns);
      }
    }
    if Strands(s, op) {
      StrandsSomewhere(s, op);
    }
  }

  lemma StrandsSomewhere(s: State, op: Op)
    requires Strands(s, op)
    ensures exists ns :: Concerns(op, ns)
  {
    assert Concerns(op, op.ns);
  }

  /** After every step of the run, frozen input is somebody's to thaw. */
  ghost predicate StaysThawable(s: State, ops: seq<Op>)
    decreases |ops|
  {
    ops == [] || (AllThawable(Step(s, ops[0])) && StaysThawable(Step(s, ops[0]), ops[1..]))
  }

  predicate NeverStrands(s: State, ops: seq<Op>)
    decreases |ops|
  {
    ops == [] || (!Strands(s, ops[0]) && NeverStrands(Step(s, ops[0]), ops[1..]))
  }

  /** A run never leaves input frozen without a grab if and only if none of its releases strands it. */
  lemma {:induction false} RunKeepsThawableIff(s: State, ops: seq<Op>)
    requires AllThawable(s)
    ensures StaysThawable(s, ops) <==> NeverStrands(s, ops)
    decreases |ops|
  {
    hide AllThawable, Step, Strands;
    if ops != [] {
      StepKeepsThawableIff(s, ops[0]);
      if !Strands(s, ops[0]) {
        RunKeepsThawableIff(Step(s, ops[0]), ops[1..]);
      }
    }
  }

  /** Once nobody has grabbed anything, allowing events thaws nothing, whoever asks. */
  lemma StrandedStaysFrozen(s: State, ns: Namespace, owner: Owner, mode: nat)
    requires At(s, ns).pointer.None? && At(s, ns).keyboard.None?
    ensures At(AllowEvents(s, ns, owner, mode).0, ns) == At(s, ns)
  {
  }

  /** A key grab that freezes the pointer but not the keyboard: pressed and released. */
  const StrandingOps := [
    OpGrabKey(1, PassiveGrab(3, 9, 38, 0, false, 0, 1, 0)),
    OpActivateKey(1, 38, 0),
    OpReleaseKey(1, 38)]

  lemma StrandedPointerExample()
    ensures var end := Run(State(map[], map[]), StrandingOps);
      && !NeverStrands(State(map[], map[]), StrandingOps)
      && At(end, 1).pointerFrozen && At(end, 1).pointer.None? && At(end, 1).keyboard.None?
  {
    var start := State(map[], map[]);
    var passive := PassiveGrab(3, 9, 38, 0, false, 0, 1, 0);
    var s1 := State(map[1 := Idle.(keys := [passive])], map[]);
    var s2 := State(map[1 := Idle.(
      keys := [passive],
      keyboard := Some(ActiveFrom(passive)),
      keyboardPassiveDetail := Some(38),
      pointerFrozen := true)], map[]);
    var s3 := State(map[1 := Idle.(keys := [passive], pointerFrozen := true)], map[]);
    assert Without([], TheSamePattern(passive)) + [passive] == [passive];
    assert InsertPassive([], passive) == Ok([passive]);
    assert Step(start, StrandingOps[0]) == s1 by {
      assert start.namespaces[1 := s1.namespaces[1]] == s1.namespaces;
    }
    assert FirstMatch([passive], 38, 0) == Some(passive);
    assert Step(s1, StrandingOps[1]) == s2 by {
      assert s1.namespaces[1 := s2.namespaces[1]] == s2.namespaces;
    }
    assert Step(s2, StrandingOps[2]) == s3 by {
      assert s2.namespaces[1 := s3.namespaces[1]] == s3.namespaces;
    }
    assert Strands(s2, StrandingOps[2]);
    ThreeSteps(start, StrandingOps);
  }

  lemma ThreeSteps(s: State, ops: seq<Op>)
    requires |ops| == 3
    ensures var s1 := Step(s, ops[0]);
      var s2 := Step(s1, ops[1]);
      && Run(s, ops) == Step(s2, ops[2])
      && (NeverStrands(s, ops) <==> !Strands(s, ops[0]) && !Strands(s1, ops[1]) && !Strands(s2, ops[2]))
  {
    hide Step, Strands;
    var s1 := Step(s, ops[0]);
    var s2 := Step(s1, ops[1]);
    FirstStep(s, ops);
    FirstStep(s1, ops[1..]);
    FirstStep(s2, ops[2..]);
    assert ops[1..][1..] == ops[2..] && ops[2..][1..] == [];
  }

  lemma FirstStep(s: State, ops: seq<Op>)
    requires ops != []
    ensures Run(s, ops) == Run(Step(s, ops[0]), ops[1..])
    ensures NeverStrands(s, ops) <==> !Strands(s, ops[0]) && NeverStrands(Step(s, ops[0]), ops[1..])
  {
    hide Step, Strands;
  }

  // ---------------------------------------------------------------- the object

  class XInputAuthorityState {
    var namespaces: map<Namespace, Authority>
    var selections: map<Selection, seq<nat>>

    function Abs(): State
      reads this
    {
      State(namespaces, selections)
    }

    ghost predicate Valid()
      reads this
    {
      Inv(Abs())
    }

    constructor ()
      ensures Valid() && Abs() == State(map[], map[])
    {
      namespaces, selections := map[], map[];
    }

    /** Creates the namespace's entry on first use. */
    method Enter(ns: Namespace)
      modifies this`namespaces
      ensures namespaces == old(namespaces)[ns := At(old(Abs()), ns)]
    {
      if ns !in namespaces {
        namespaces := namespaces[ns := Idle];
      }
    }

    method GrabButtonFor(ns: Namespace, grab: PassiveGrab) returns (r: Result<Unit, Error>)
      requires Valid()
      modifies this
      ensures Valid() && (Abs(), r) == GrabButton(old(Abs()), ns, grab)
    {
      hide Inv;
      StepKeepsInv(Abs(), OpGrabButton(ns, grab));
      if !ModesValid(grab.pointerMode, grab.keyboardMode) {
        return Err(InvalidMode);
      }
      Enter(ns);
      var inserted := InsertPassive(namespaces[ns].buttons, grab);
      if inserted.Err? {
        return Err(inserted.error);
      }
      namespaces := namespaces[ns := namespaces[ns].(buttons := inserted.value)];
      assert Abs() == GrabButton(old(Abs()), ns, grab).0;
      return Ok(Unit.Unit);
    }

    method GrabKeyFor(ns: Namespace, grab: PassiveGrab) returns (r: Result<Unit, Error>)
      requires Valid()
      modifies this
      ensures Valid() && (Abs(), r) == GrabKey(old(Abs()), ns, grab)
    {
      hide Inv;
      StepKeepsInv(Abs(), OpGrabKey(ns, grab));
      if !ModesValid(grab.pointerMode, grab.keyboardMode) {
        return Err(InvalidMode);
      }
      Enter(ns);
      var inserted := InsertPassive(namespaces[ns].keys, grab);
      if inserted.Err? {
        return Err(inserted.error);
      }
      namespaces := namespaces[ns := namespaces[ns].(keys := inserted.value)];
      assert Abs() == GrabKey(old(Abs()), ns, grab).0;
      return Ok(Unit.Unit);
    }

    method UngrabButtonFor(ns: Namespace, owner: Owner, window: nat, detail: Detail, modifiers: Modifiers)
      requires Valid()
      modifies this
      ensures Valid() && Abs() == UngrabButton(old(Abs()), ns, owner, window, detail, modifiers)
    {
      hide Inv;
      StepKeepsInv(Abs(), OpUngrabButton(ns, owner, window, detail, modifiers));
      if ns in namespaces {
        var kept := RemovePassive(namespaces[ns].buttons, owner, window, detail, modifiers);
        namespaces := namespaces[ns := namespaces[ns].(buttons := kept)];
      }
      assert Abs() == UngrabButton(old(Abs()), ns, owner, window, detail, modifiers);
    }

    method UngrabKeyFor(ns: Namespace, owner: Owner, window: nat, detail: Detail, modifiers: Modifiers)
      requires Valid()
      modifies this
      ensures Valid() && Abs() == UngrabKey(old(Abs()), ns, owner, window, detail, modifiers)
    {
      hide Inv;
      StepKeepsInv(Abs(), OpUngrabKey(ns, owner, window, detail, modifiers));
      if ns in namespaces {
        var kept := RemovePassive(namespaces[ns].keys, owner, window, detail, modifiers);
        namespaces := namespaces[ns := namespaces[ns].(keys := kept)];
      }
      assert Abs() == UngrabKey(old(Abs()), ns, owner, window, detail, modifiers);
    }

    method PressKey(ns: Namespace, key: Detail, modifiers: Modifiers) returns (active: Option<ActiveGrab>)
      requires Valid()
      modifies this
      ensures Valid() && (Abs(), active) == ActivateKey(old(Abs()), ns, key, modifiers)
    {
      hide Inv;
      StepKeepsInv(Abs(), OpActivateKey(ns, key, modifiers));
      if ns !in namespaces {
        return None;
      }
      var passive := FirstMatch(namespaces[ns].keys, key, modifiers);
      if passive.None? {
        return None;
      }
      var grab := ActiveFrom(passive.value);
      namespaces := namespaces[ns := namespaces[ns].(
        keyboard := Some(grab),
        keyboardPassiveDetail := Some(key),
        keyboardFrozen := grab.keyboardMode == 0,
        pointerFrozen := namespaces[ns].pointerFrozen || grab.pointerMode == 0)];
      return Some(grab);
    }

    method PressButton(ns: Namespace, button: Detail, modifiers: Modifiers, implicitGrab: ActiveGrab) returns (active: ActiveGrab)
      requires Valid()
      modifies this
      ensures Valid() && (Abs(), active) == ActivateButton(old(Abs()), ns, button, modifiers, implicitGrab)
    {
      hide Inv;
      StepKeepsInv(Abs(), OpActivateButton(ns, button, modifiers, implicitGrab));
      Enter(ns);
      var passive := FirstMatch(namespaces[ns].buttons, button, modifiers);
      active := if passive.Some? then ActiveFrom(passive.value) else implicitGrab;
      namespaces := namespaces[ns := namespaces[ns].(
        pointer := Some(active),
        pointerImplicit := passive.None?,
        pointerPassiveDetail := if passive.Some? then Some(button) else None,
        pointerFrozen := active.pointerMode == 0,
        keyboardFrozen := namespaces[ns].keyboardFrozen || active.keyboardMode == 0)];
      assert Abs() == ActivateButton(old(Abs()), ns, button, modifiers, implicitGrab).0;
    }

    method ReleaseKeyOf(ns: Namespace, key: Detail)
      requires Valid()
      modifies this
      ensures Valid() && Abs() == ReleaseKey(old(Abs()), ns, key)
    {
      hide Inv;
      StepKeepsInv(Abs(), OpReleaseKey(ns, key));
      if ns in namespaces && namespaces[ns].keyboardPassiveDetail == Some(key) {
        namespaces := namespaces[ns := namespaces[ns].(
          keyboard := None, keyboardPassiveDetail := None, keyboardFrozen := false)];
      }
    }

    method ReleaseButtonOf(ns: Namespace, button: Detail)
      requires Valid()
      modifies this
      ensures Valid() && Abs() == ReleaseButton(old(Abs()), ns, button)
    {
      hide Inv;
      StepKeepsInv(Abs(), OpReleaseButton(ns, button));
      if ns in namespaces && (namespaces[ns].pointerImplicit || namespaces[ns].pointerPassiveDetail == Some(button)) {
        namespaces := namespaces[ns := namespaces[ns].(
          pointer := None, pointerImplicit := false, pointerPassiveDetail := None, pointerFrozen := false)];
      }
    }

    method GrabPointerFor(ns: Namespace, grab: ActiveGrab) returns (r: Result<Unit, Error>)
      requires Valid()
      modifies this
      ensures Valid() && (Abs(), r) == GrabPointer(old(Abs()), ns, grab)
    {
      hide Inv;
      StepKeepsInv(Abs(), OpGrabPointer(ns, grab));
      if !ModesValid(grab.pointerMode, grab.keyboardMode) {
        return Err(InvalidMode);
      }
      Enter(ns);
      if namespaces[ns].pointer.Some? && namespaces[ns].pointer.value.owner != grab.owner {
        return Err(AlreadyGrabbed);
      }
      namespaces := namespaces[ns := namespaces[ns].(
        pointer := Some(grab),
        pointerImplicit := false,
        pointerPassiveDetail := None,
        pointerFrozen := grab.pointerMode == 0,
        keyboardFrozen := namespaces[ns].keyboardFrozen || grab.keyboardMode == 0)];
      assert Abs() == GrabPointer(old(Abs()), ns, grab).0;
      return Ok(Unit.Unit);
    }

    method GrabKeyboardFor(ns: Namespace, grab: ActiveGrab) returns (r: Result<Unit, Error>)
      requires Valid()
      modifies this
      ensures Valid() && (Abs(), r) == GrabKeyboard(old(Abs()), ns, grab)
    {
      hide Inv;
      StepKeepsInv(Abs(), OpGrabKeyboard(ns, grab));
      if !ModesValid(grab.pointerMode, grab.keyboardMode) {
        return Err(InvalidMode);
      }
      Enter(ns);
      if namespaces[ns].keyboard.Some? && namespaces[ns].keyboard.value.owner != grab.owner {
        return Err(AlreadyGrabbed);
      }
      namespaces := namespaces[ns := namespaces[ns].(
        keyboard := Some(grab),
        keyboardPassiveDetail := None,
        keyboardFrozen := grab.keyboardMode == 0,
        pointerFrozen := namespaces[ns].pointerFrozen || grab.pointerMode == 0)];
      assert Abs() == GrabKeyboard(old(Abs()), ns, grab).0;
      return Ok(Unit.Unit);
    }

    method UngrabPointerFor(ns: Namespace, owner: Owner)
      requires Valid()
      modifies this
      ensures Valid() && Abs() == UngrabPointer(old(Abs()), ns, owner)
    {
      hide Inv;
      StepKeepsInv(Abs(), OpUngrabPointer(ns, owner));
      if ns in namespaces && OwnedBy(namespaces[ns].pointer, owner) {
        var a := namespaces[ns].(pointer := None, pointerImplicit := false, pointerPassiveDetail := None, pointerFrozen := false);
        if a.keyboard.None? {
          a := a.(keyboardFrozen := false);
        }
        namespaces := namespaces[ns := a];
      }
    }

    method UngrabKeyboardFor(ns: Namespace, owner: Owner)
      requires Valid()
      modifies this
      ensures Valid() && Abs() == UngrabKeyboard(old(Abs()), ns, owner)
    {
      hide Inv;
      StepKeepsInv(Abs(), OpUngrabKeyboard(ns, owner));
      if ns in namespaces && OwnedBy(namespaces[ns].keyboard, owner) {
        var a := namespaces[ns].(keyboard := None, keyboardPassiveDetail := None, keyboardFrozen := false);
        if a.pointer.None? {
          a := a.(pointerFrozen := false);
        }
        namespaces := namespaces[ns := a];
      }
    }

    method GrabServerFor(ns: Namespace, owner: Owner) returns (r: Result<Unit, Error>)
      requires Valid()
      modifies this
      ensures Valid() && (Abs(), r) == GrabServer(old(Abs()), ns, owner)
    {
      hide Inv;
      StepKeepsInv(Abs(), OpGrabServer(ns, owner));
      Enter(ns);
      if namespaces[ns].serverOwner.Some? && namespaces[ns].serverOwner.value != owner {
        return Err(AlreadyGrabbed);
      }
      namespaces := namespaces[ns := namespaces[ns].(serverOwner := Some(owner))];
      assert Abs() == GrabServer(old(Abs()), ns, owner).0;
      return Ok(Unit.Unit);
    }

    method UngrabServerFor(ns: Namespace, owner: Owner)
      requires Valid()
      modifies this
      ensures Valid() && Abs() == UngrabServer(old(Abs()), ns, owner)
    {
      hide Inv;
      StepKeepsInv(Abs(), OpUngrabServer(ns, owner));
      if ns in namespaces && namespaces[ns].serverOwner == Some(owner) {
        namespaces := namespaces[ns := namespaces[ns].(serverOwner := None)];
      }
    }

    method AllowEventsFor(ns: Namespace, owner: Owner, mode: nat) returns (r: Result<Unit, Error>)
      requires Valid()
      modifies this
      ensures Valid() && (Abs(), r) == AllowEvents(old(Abs()), ns, owner, mode)
    {
      hide Inv;
      StepKeepsInv(Abs(), OpAllowEvents(ns, owner, mode));
      if mode > 7 {
        return Err(InvalidMode);
      }
      if ns !in namespaces {
        return Ok(Unit.Unit);
      }
      var ownsPointer := OwnedBy(namespaces[ns].pointer, owner);
      var ownsKeyboard := OwnedBy(namespaces[ns].keyboard, owner);
      var a := namespaces[ns];
      if mode <= 2 {
        if ownsPointer {
          a := a.(pointerFrozen := false);
        }
      } else if mode <= 5 {
        if ownsKeyboard {
          a := a.(keyboardFrozen := false);
        }
      } else {
        if ownsPointer {
          a := a.(pointerFrozen := false);
        }
        if ownsKeyboard {
          a := a.(keyboardFrozen := false);
        }
      }
      namespaces := namespaces[ns := a];
      return Ok(Unit.Unit);
    }

    method SelectEventsFor(ns: Namespace, owner: Owner, window: nat, masks: seq<(nat, seq<nat>)>)
      requires Valid()
      modifies this
      ensures Valid() && namespaces == old(namespaces)
      ensures selections == SelectEvents(old(selections), ns, owner, window, masks)
    {
      hide Inv;
      StepKeepsInv(Abs(), OpSelectEvents(ns, owner, window, masks));
      var i := 0;
      while i < |masks|
        invariant 0 <= i <= |masks| && namespaces == old(namespaces)
        invariant SelectEvents(selections, ns, owner, window, masks[i..]) ==
                  SelectEvents(old(selections), ns, owner, window, masks)
      {
        var (device, mask) := masks[i];
        assert masks[i..][1..] == masks[i + 1..];
        var k := Selection(ns, owner, window, device);
        if forall j :: 0 <= j < |mask| ==> mask[j] == 0 {
          selections := selections - {k};
        } else {
          selections := selections[k := mask];
        }
        i := i + 1;
      }
    }

    method Cleanup(owner: Owner)
      requires Valid()
      modifies this
      ensures Valid() && Abs() == CleanupOwner(old(Abs()), owner)
    {
      hide Inv, CleanAuthority, InUse, PartlyCleaned;
      StepKeepsInv(Abs(), OpCleanup(owner));
      selections := map k | k in selections && k.owner != owner :: selections[k];
      ghost var before := namespaces;
      var rest := namespaces.Keys;
      NothingCleaned(before, owner);
      while rest != {}
        invariant rest <= namespaces.Keys
        invariant PartlyCleaned(before, namespaces, rest, owner)
        invariant selections == CleanupOwner(old(Abs()), owner).selections
        decreases |rest|
      {
        var ns :| ns in rest;
        var cleaned := CleanAuthority(namespaces[ns], owner);
        OneMoreCleaned(before, namespaces, rest, owner, ns);
        namespaces := if InUse(cleaned) then namespaces[ns := cleaned] else namespaces - {ns};
        rest := rest - {ns};
      }
      AllCleaned(before, namespaces, selections, old(Abs()), owner);
    }
  }

  /** `now` is `before` with every namespace outside `rest` cleaned, or dropped when nobody uses it any more. */
  ghost predicate PartlyCleaned(before: map<Namespace, Authority>, now: map<Namespace, Authority>,
                                rest: set<Namespace>, owner: Owner) {
    && rest <= before.Keys
    && now.Keys <= before.Keys
    && (forall ns :: ns in rest ==> ns in now && now[ns] == before[ns])
    && (forall ns :: ns in before && ns !in rest ==>
          && (ns in now <==> InUse(CleanAuthority(before[ns], owner)))
          && (ns in now ==> now[ns] == CleanAuthority(before[ns], owner)))
  }

  lemma NothingCleaned(before: map<Namespace, Authority>, owner: Owner)
    ensures PartlyCleaned(before, before, before.Keys, owner)
  {
  }

  lemma OneMoreCleaned(before: map<Namespace, Authority>, now: map<Namespace, Authority>, rest: set<Namespace>,
                       owner: Owner, ns: Namespace)
    requires PartlyCleaned(before, now, rest, owner) && ns in rest
    ensures ns in now
    ensures var cleaned := CleanAuthority(now[ns], owner);
      var next := if InUse(cleaned) then now[ns := cleaned] else now - {ns};
      rest - {ns} <= next.Keys && PartlyCleaned(before, next, rest - {ns}, owner)
  {
    hide CleanAuthority, InUse;
  }

  lemma AllCleaned(before: map<Namespace, Authority>, now: map<Namespace, Authority>, selections: map<Selection,
                   seq<nat>>, s: State, owner: Owner)
    requires s.namespaces == before && PartlyCleaned(before, now, {}, owner)
    requires selections == CleanupOwner(s, owner).selections
    ensures State(now, selections) == CleanupOwner(s, owner)
  {
    hide CleanAuthority, InUse;
    assert now == CleanupOwner(s, owner).namespaces;
  }
}
