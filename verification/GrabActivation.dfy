/**
 What presses, releases and grab requests come to: which grab becomes active, whom it belongs to, what
 it freezes, who can thaw it, and which passive grabs and event selections are kept, in which order.
 */
module GrabActivation {
  import opened Basics
  import opened InputGrabs

  // ---------------------------------------------------------------- presses

  /** The grab asks for the press, by its detail or any, and by its modifiers or any. */
  predicate AsksFor(g: PassiveGrab, detail: Detail, modifiers: Modifiers) {
    (g.detail == 0 || g.detail == detail) && (g.modifiers == 0x8000 || g.modifiers == modifiers)
  }

  /** Grab `k` is the earliest in the list that asks for the press. */
  ghost predicate IsEarliest(grabs: seq<PassiveGrab>, k: nat, detail: Detail, modifiers: Modifiers) {
    && k < |grabs| && AsksFor(grabs[k], detail, modifiers)
    && forall j :: 0 <= j < k ==> !AsksFor(grabs[j], detail, modifiers)
  }

  /** The active grab is the passive one's owner, window, modes and mask. */
  predicate ComesFrom(active: ActiveGrab, g: PassiveGrab) {
    && active.owner == g.owner && active.window == g.window && active.ownerEvents == g.ownerEvents
    && active.pointerMode == g.pointerMode && active.keyboardMode == g.keyboardMode && active.eventMask == g.eventMask
  }

  lemma {:induction false} FirstMatchIsEarliest(grabs: seq<PassiveGrab>, detail: Detail, modifiers: Modifiers)
    ensures var found := FirstMatch(grabs, detail, modifiers);
      && (found.None? <==> forall g :: g in grabs ==> !AsksFor(g, detail, modifiers))
      && (forall k: nat :: IsEarliest(grabs, k, detail, modifiers) ==> found == Some(grabs[k]))
      && (found.Some? ==> exists k: nat :: IsEarliest(grabs, k, detail, modifiers))
  {
    FirstMatchIsFirst(grabs, detail, modifiers);
    var found := FirstMatch(grabs, detail, modifiers);
    assert forall g :: AsksFor(g, detail, modifiers) <==> Matches(g, detail, modifiers);
    assert forall k: nat :: k < |grabs| ==> grabs[k] in grabs;
    if found.Some? {
      var i :| 0 <= i < |grabs| && grabs[i] == found.value && Matches(found.value, detail, modifiers)
               && forall j :: 0 <= j < i ==> !Matches(grabs[j], detail, modifiers);
      assert IsEarliest(grabs, i, detail, modifiers);
      forall k: nat | IsEarliest(grabs, k, detail, modifiers) ensures k == i {
        assert AsksFor(grabs[i], detail, modifiers);
      }
    }
  }

  /** Only the named namespace is touched, and of it only the active grabs. */
  ghost predicate OnlyActive(s: State, s': State, ns: Namespace) {
    && s'.selections == s.selections
    && (forall other :: other != ns ==> At(s', other) == At(s, other))
    && At(s', ns).buttons == At(s, ns).buttons && At(s', ns).keys == At(s, ns).keys
    && At(s', ns).serverOwner == At(s, ns).serverOwner
  }

  /** The keyboard's grab and how it came about. */
  predicate SameKeyboardGrab(a: Authority, b: Authority) {
    b.keyboard == a.keyboard && b.keyboardPassiveDetail == a.keyboardPassiveDetail
  }

  predicate SamePointerGrab(a: Authority, b: Authority) {
    && b.pointer == a.pointer && b.pointerImplicit == a.pointerImplicit
    && b.pointerPassiveDetail == a.pointerPassiveDetail
  }

  /**
   A button press activates the earliest passive grab that asks for it, and the implicit grab only when none
   does; the active grab holds the pointer, and its modes say what is frozen.
   */
  lemma ButtonPressAnswers(s: State, ns: Namespace, button: Detail, modifiers: Modifiers, implicitGrab: ActiveGrab)
    ensures var (s', active) := ActivateButton(s, ns, button, modifiers, implicitGrab);
      var (a, b) := (At(s, ns), At(s', ns));
      var passive := exists g :: g in a.buttons && AsksFor(g, button, modifiers);
      && (forall k: nat :: IsEarliest(a.buttons, k, button, modifiers) ==> ComesFrom(active, a.buttons[k]))
      && (!passive ==> active == implicitGrab)
      && b.pointer == Some(active)
      && (b.pointerImplicit <==> !passive)
      && b.pointerPassiveDetail == (if passive then Some(button) else None)
      && (b.pointerFrozen <==> active.pointerMode == 0)
      && (b.keyboardFrozen <==> a.keyboardFrozen || active.keyboardMode == 0)
      && SameKeyboardGrab(a, b) && OnlyActive(s, s', ns)
  {
    FirstMatchIsEarliest(At(s, ns).buttons, button, modifiers);
  }

  /** A key press activates the earliest passive grab that asks for it, and does nothing when none does. */
  lemma KeyPressAnswers(s: State, ns: Namespace, key: Detail, modifiers: Modifiers)
    ensures var (s', active) := ActivateKey(s, ns, key, modifiers);
      var (a, b) := (At(s, ns), At(s', ns));
      && (active.Some? <==> exists g :: g in a.keys && AsksFor(g, key, modifiers))
      && (forall k: nat :: IsEarliest(a.keys, k, key, modifiers) ==> active.Some? && ComesFrom(active.value, a.keys[k]))
      && (active.None? ==> s' == s)
      && (active.Some? ==>
            && b.keyboard == active && b.keyboardPassiveDetail == Some(key)
            && (b.keyboardFrozen <==> active.value.keyboardMode == 0)
            && (b.pointerFrozen <==> a.pointerFrozen || active.value.pointerMode == 0)
            && SamePointerGrab(a, b) && OnlyActive(s, s', ns))
  {
    FirstMatchIsEarliest(At(s, ns).keys, key, modifiers);
  }

  // ---------------------------------------------------------------- releases

  /** A release ends the grab that its press activated, an implicit grab at any button, and thaws its device only. */
  lemma ReleaseAnswers(s: State, ns: Namespace, detail: Detail)
    ensures var s' := ReleaseKey(s, ns, detail);
      var (a, b) := (At(s, ns), At(s', ns));
      var ends := a.keyboardPassiveDetail == Some(detail);
      && (!ends ==> s' == s)
      && (ends ==>
            && b.keyboard.None? && b.keyboardPassiveDetail.None? && !b.keyboardFrozen
            && b.pointerFrozen == a.pointerFrozen && SamePointerGrab(a, b) && OnlyActive(s, s', ns))
    ensures var s' := ReleaseButton(s, ns, detail);
      var (a, b) := (At(s, ns), At(s', ns));
      var ends := a.pointerImplicit || a.pointerPassiveDetail == Some(detail);
      && (!ends ==> s' == s)
      && (ends ==>
            && b.pointer.None? && b.pointerPassiveDetail.None? && !b.pointerImplicit && !b.pointerFrozen
            && b.keyboardFrozen == a.keyboardFrozen && SameKeyboardGrab(a, b) && OnlyActive(s, s', ns))
  {
  }

  /** A press and its release leave no grab of that device, whichever grab the press activated. */
  lemma PressThenReleaseUngrabs(s: State, ns: Namespace, button: Detail, modifiers: Modifiers, implicitGrab: ActiveGrab)
    ensures var pressed := ActivateButton(s, ns, button, modifiers, implicitGrab).0;
      var released := ReleaseButton(pressed, ns, button);
      At(released, ns).pointer.None? && !At(released, ns).pointerFrozen
  {
    ButtonPressAnswers(s, ns, button, modifiers, implicitGrab);
    ReleaseAnswers(ActivateButton(s, ns, button, modifiers, implicitGrab).0, ns, button);
  }

  // ---------------------------------------------------------------- grabbing on request

  /** Modes are 0, which freezes, or 1. */
  predicate ModesInRange(pointerMode: nat, keyboardMode: nat) {
    pointerMode < 2 && keyboardMode < 2
  }

  /** The pointer is granted unless somebody else holds it, whatever activated that one's grab. */
  lemma GrabPointerAnswers(s: State, ns: Namespace, grab: ActiveGrab)
    ensures var (s', x) := GrabPointer(s, ns, grab);
      var (a, b) := (At(s, ns), At(s', ns));
      var valid := ModesInRange(grab.pointerMode, grab.keyboardMode);
      var taken := a.pointer.Some? && a.pointer.value.owner != grab.owner;
      && (x == Err(InvalidMode) <==> !valid)
      && (x == Err(AlreadyGrabbed) <==> valid && taken)
      && (x.Ok? <==> valid && !taken)
      && (x.Err? ==> b == a && OnlyActive(s, s', ns))
      && (x.Ok? ==>
            && b.pointer == Some(grab) && !b.pointerImplicit && b.pointerPassiveDetail.None?
            && (b.pointerFrozen <==> grab.pointerMode == 0)
            && (b.keyboardFrozen <==> a.keyboardFrozen || grab.keyboardMode == 0)
            && SameKeyboardGrab(a, b) && OnlyActive(s, s', ns))
  {
  }

  lemma GrabKeyboardAnswers(s: State, ns: Namespace, grab: ActiveGrab)
    ensures var (s', x) := GrabKeyboard(s, ns, grab);
      var (a, b) := (At(s, ns), At(s', ns));
      var valid := ModesInRange(grab.pointerMode, grab.keyboardMode);
      var taken := a.keyboard.Some? && a.keyboard.value.owner != grab.owner;
      && (x == Err(InvalidMode) <==> !valid)
      && (x == Err(AlreadyGrabbed) <==> valid && taken)
      && (x.Ok? <==> valid && !taken)
      && (x.Err? ==> b == a && OnlyActive(s, s', ns))
      && (x.Ok? ==>
            && b.keyboard == Some(grab) && b.keyboardPassiveDetail.None?
            && (b.keyboardFrozen <==> grab.keyboardMode == 0)
            && (b.pointerFrozen <==> a.pointerFrozen || grab.pointerMode == 0)
            && SamePointerGrab(a, b) && OnlyActive(s, s', ns))
  {
  }

  /** Only the holder ungrabs; then that device is thawed, and the other one too if nobody holds it. */
  lemma UngrabAnswers(s: State, ns: Namespace, owner: Owner)
    ensures var s' := UngrabPointer(s, ns, owner);
      var (a, b) := (At(s, ns), At(s', ns));
      var holds := a.pointer.Some? && a.pointer.value.owner == owner;
      && (!holds ==> s' == s)
      && (holds ==>
            && b.pointer.None? && !b.pointerImplicit && b.pointerPassiveDetail.None? && !b.pointerFrozen
            && (b.keyboardFrozen <==> a.keyboardFrozen && a.keyboard.Some?)
            && SameKeyboardGrab(a, b) && OnlyActive(s, s', ns))
    ensures var s' := UngrabKeyboard(s, ns, owner);
      var (a, b) := (At(s, ns), At(s', ns));
      var holds := a.keyboard.Some? && a.keyboard.value.owner == owner;
      && (!holds ==> s' == s)
      && (holds ==>
            && b.keyboard.None? && b.keyboardPassiveDetail.None? && !b.keyboardFrozen
            && (b.pointerFrozen <==> a.pointerFrozen && a.pointer.Some?)
            && SamePointerGrab(a, b) && OnlyActive(s, s', ns))
  {
  }

  /** One client at a time holds the server, and only that one gives it back. */
  lemma ServerAnswers(s: State, ns: Namespace, owner: Owner)
    ensures var (s', x) := GrabServer(s, ns, owner);
      var (a, b) := (At(s, ns), At(s', ns));
      && (x == Err(AlreadyGrabbed) <==> a.serverOwner.Some? && a.serverOwner.value != owner)
      && (x.Err? ==> x.error == AlreadyGrabbed && b == a)
      && (x.Ok? ==> b == a.(serverOwner := Some(owner)))
      && (forall other :: other != ns ==> At(s', other) == At(s, other)) && s'.selections == s.selections
    ensures var s' := UngrabServer(s, ns, owner);
      && At(s', ns) == At(s, ns).(
           serverOwner := if At(s, ns).serverOwner == Some(owner) then None else At(s, ns).serverOwner)
      && (forall other :: other != ns ==> At(s', other) == At(s, other)) && s'.selections == s.selections
  {
  }

  // ---------------------------------------------------------------- thawing

  /** Modes 0, 1 and 2 are about the pointer, 3, 4 and 5 about the keyboard, 6 and 7 about both. */
  lemma AllowEventsAnswers(s: State, ns: Namespace, owner: Owner, mode: nat)
    ensures var (s', x) := AllowEvents(s, ns, owner, mode);
      var (a, b) := (At(s, ns), At(s', ns));
      var holdsPointer := a.pointer.Some? && a.pointer.value.owner == owner;
      var holdsKeyboard := a.keyboard.Some? && a.keyboard.value.owner == owner;
      && (x == Err(InvalidMode) <==> mode > 7) && (x.Err? ==> s' == s)
      && (mode in {0, 1, 2} ==>
            && (b.pointerFrozen <==> a.pointerFrozen && !holdsPointer)
            && (b.keyboardFrozen <==> a.keyboardFrozen))
      && (mode in {3, 4, 5} ==>
            && (b.pointerFrozen <==> a.pointerFrozen)
            && (b.keyboardFrozen <==> a.keyboardFrozen && !holdsKeyboard))
      && (mode in {6, 7} ==>
            && (b.pointerFrozen <==> a.pointerFrozen && !holdsPointer)
            && (b.keyboardFrozen <==> a.keyboardFrozen && !holdsKeyboard))
      && SamePointerGrab(a, b) && SameKeyboardGrab(a, b) && OnlyActive(s, s', ns)
  {
  }

  // ---------------------------------------------------------------- passive grabs

  /** Dropping works on each grab alone and keeps the order of the rest. */
  lemma {:induction false} WithoutOfConcat(a: seq<PassiveGrab>, b: seq<PassiveGrab>, d: Drop)
    ensures Without(a + b, d) == Without(a, d) + Without(b, d)
  {
    hide Drops;
    if a == [] {
      assert a + b == b;
    } else {
      assert (a + b)[0] == a[0] && (a + b)[1..] == a[1..] + b;
      WithoutOfConcat(a[1..], b, d);
      if !Drops(d, a[0]) {
        assert Without(a, d) == [a[0]] + Without(a[1..], d);
        assert Without(a + b, d) == [a[0]] + (Without(a[1..], d) + Without(b, d));
      }
    }
  }

  /** The ungrab request is about this grab: its client and window, and its detail and modifiers or any. */
  predicate Ungrabs(g: PassiveGrab, owner: Owner, window: nat, detail: Detail, modifiers: Modifiers) {
    && g.owner == owner && g.window == window
    && (detail == 0 || g.detail == detail) && (modifiers == 0x8000 || g.modifiers == modifiers)
  }

  lemma UngrabOfOne(g: PassiveGrab, owner: Owner, window: nat, detail: Detail, modifiers: Modifiers)
    ensures RemovePassive([g], owner, window, detail, modifiers) ==
      if Ungrabs(g, owner, window, detail, modifiers) then [] else [g]
  {
    var d := Ungrabbed(owner, window, detail, modifiers);
    assert [g][1..] == [] && Without([], d) == [];
    assert Without([g], d) == if Drops(d, g) then [] else [g];
  }

  /** The grabs of the list that the request is not about, in order. */
  function Kept(grabs: seq<PassiveGrab>, owner: Owner, window: nat, detail: Detail, modifiers: Modifiers): seq<PassiveGrab> {
    if grabs == [] then []
    else
      var last := grabs[|grabs| - 1];
      Kept(grabs[..|grabs| - 1], owner, window, detail, modifiers)
      + (if Ungrabs(last, owner, window, detail, modifiers) then [] else [last])
  }

  lemma {:induction false} UngrabKeepsTheRest(grabs: seq<PassiveGrab>, owner: Owner, window: nat, detail: Detail,
                                              modifiers: Modifiers)
    ensures RemovePassive(grabs, owner, window, detail, modifiers) == Kept(grabs, owner, window, detail, modifiers)
  {
    if grabs != [] {
      var n := |grabs| - 1;
      assert grabs == grabs[..n] + [grabs[n]];
      WithoutOfConcat(grabs[..n], [grabs[n]], Ungrabbed(owner, window, detail, modifiers));
      UngrabOfOne(grabs[n], owner, window, detail, modifiers);
      UngrabKeepsTheRest(grabs[..n], owner, window, detail, modifiers);
    }
  }

  /** A grab request is refused exactly for bad modes or a conflict with another owner's grab of the window. */
  lemma GrabButtonAnswers(s: State, ns: Namespace, grab: PassiveGrab)
    ensures var (s', x) := GrabButton(s, ns, grab);
      var (a, b) := (At(s, ns), At(s', ns));
      var valid := ModesInRange(grab.pointerMode, grab.keyboardMode);
      var conflict := exists g :: g in a.buttons && g.owner != grab.owner && PatternsOverlap(g, grab);
      && (x == Err(InvalidMode) <==> !valid)
      && (x == Err(AccessConflict) <==> valid && conflict)
      && (x.Ok? <==> valid && !conflict)
      && (x.Err? ==> b == a)
      && (x.Ok? ==> |b.buttons| > 0 && b.buttons[|b.buttons| - 1] == grab)
      && (x.Ok? ==> forall g :: g in b.buttons <==> g == grab || (g in a.buttons && !SamePattern(g, grab)))
      && b == a.(buttons := b.buttons)
      && (forall other :: other != ns ==> At(s', other) == At(s, other)) && s'.selections == s.selections
  {
  }

  lemma GrabKeyAnswers(s: State, ns: Namespace, grab: PassiveGrab)
    ensures var (s', x) := GrabKey(s, ns, grab);
      var (a, b) := (At(s, ns), At(s', ns));
      var valid := ModesInRange(grab.pointerMode, grab.keyboardMode);
      var conflict := exists g :: g in a.keys && g.owner != grab.owner && PatternsOverlap(g, grab);
      && (x == Err(InvalidMode) <==> !valid)
      && (x == Err(AccessConflict) <==> valid && conflict)
      && (x.Ok? <==> valid && !conflict)
      && (x.Err? ==> b == a)
      && (x.Ok? ==> |b.keys| > 0 && b.keys[|b.keys| - 1] == grab)
      && (x.Ok? ==> forall g :: g in b.keys <==> g == grab || (g in a.keys && !SamePattern(g, grab)))
      && b == a.(keys := b.keys)
      && (forall other :: other != ns ==> At(s', other) == At(s, other)) && s'.selections == s.selections
  {
  }

  /**
   From grab to press: in any state kept by the operations, a press that an accepted button grab asks for is
   given to that grab's owner, unless a grab on another window asks for it as well.
   */
  lemma GrabbedPressGoesToOwner(s: State, ns: Namespace, grab: PassiveGrab, button: Detail, modifiers: Modifiers,
                                implicitGrab: ActiveGrab)
    requires Inv(s) && GrabButton(s, ns, grab).1.Ok?
    requires IsPress(button, modifiers) && AsksFor(grab, button, modifiers)
    requires forall g :: g in At(s, ns).buttons && AsksFor(g, button, modifiers) ==> g.window == grab.window
    ensures ActivateButton(GrabButton(s, ns, grab).0, ns, button, modifiers, implicitGrab).1.owner == grab.owner
  {
    hide Inv, ActivateButton, GrabButton;
    StepKeepsInv(s, OpGrabButton(ns, grab));
    var s' := GrabButton(s, ns, grab).0;
    GrabButtonAnswers(s, ns, grab);
    ButtonPressAnswers(s', ns, button, modifiers, implicitGrab);
    var grabs := At(s', ns).buttons;
    assert grab in grabs;
    FirstMatchIsEarliest(grabs, button, modifiers);
    var k: nat :| IsEarliest(grabs, k, button, modifiers);
    assert grabs[k] in grabs;
    GrabsAreCompatible(s', ns);
    PressHasOneOwner(grabs, grabs[k], grab, button, modifiers);
  }

  lemma GrabsAreCompatible(s: State, ns: Namespace)
    requires Inv(s)
    ensures Compatible(At(s, ns).buttons) && Compatible(At(s, ns).keys)
  {
  }

  // ---------------------------------------------------------------- event selections

  predicate AllZero(mask: seq<nat>) {
    forall i :: 0 <= i < |mask| ==> mask[i] == 0
  }

  /** The last mask given for the device, if any is. */
  function LastFor(masks: seq<(nat, seq<nat>)>, device: nat): Option<seq<nat>> {
    if masks == [] then None
    else
      var last := masks[|masks| - 1];
      if last.0 == device then Some(last.1) else LastFor(masks[..|masks| - 1], device)
  }

  /** What a client selects on a window for a device is the last mask it gave, or nothing if that has no bit. */
  lemma {:induction false} SelectionIsLast(selections: map<Selection, seq<nat>>, ns: Namespace, owner: Owner, window: nat,
                                           masks: seq<(nat, seq<nat>)>, k: Selection)
    ensures var after := SelectEvents(selections, ns, owner, window, masks);
      var asked := LastFor(masks, k.device);
      var own := k.namespace == ns && k.owner == owner && k.window == window;
      && (own && asked.Some? && AllZero(asked.value) ==> k !in after)
      && (own && asked.Some? && !AllZero(asked.value) ==> k in after && after[k] == asked.value)
      && (!own || asked.None? ==> (k in after <==> k in selections) && (k in after ==> after[k] == selections[k]))
    decreases |masks|
  {
    if masks != [] {
      var n := |masks| - 1;
      var (device, mask) := masks[n];
      SelectionIsLast(selections, ns, owner, window, masks[..n], k);
      SelectLast(selections, ns, owner, window, masks);
    }
  }

  lemma {:induction false} SelectLast(selections: map<Selection, seq<nat>>, ns: Namespace, owner: Owner, window: nat,
                                      masks: seq<(nat, seq<nat>)>)
    requires masks != []
    ensures var n := |masks| - 1;
      SelectEvents(selections, ns, owner, window, masks) ==
      SelectEvents(SelectEvents(selections, ns, owner, window, masks[..n]), ns, owner, window, [masks[n]])
    decreases |masks|
  {
    var n := |masks| - 1;
    if n == 0 {
      assert masks == [masks[0]];
    } else {
      var (device, mask) := masks[0];
      var k := Selection(ns, owner, window, device);
      var selected := if forall i :: 0 <= i < |mask| ==> mask[i] == 0 then selections - {k} else selections[k := mask];
      SelectLast(selected, ns, owner, window, masks[1..]);
      assert masks[1..][..n - 1] == masks[..n][1..];
      assert masks[1..][n - 1] == masks[n];
    }
  }
}
