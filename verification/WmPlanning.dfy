/**
 What planning a window manager's response comes to, told from the response itself: which responses are
 accepted, what each output shows after the response's activations, where surfaces and focuses are, and
 what the layout and the session are asked for.
 */
module WmPlanning {
  import opened Basics
  import opened WmPolicyModel

  // ---------------------------------------------------------------- what a response asks for

  function Configured(cs: seq<Command>): seq<SizeRequest> {
    if cs == [] then []
    else if cs[0].ConfigureSurface? then [cs[0].request] + Configured(cs[1..])
    else Configured(cs[1..])
  }

  function Rendered(cs: seq<Command>): seq<Placement> {
    if cs == [] then []
    else if cs[0].RenderSurface? then [cs[0].placement] + Rendered(cs[1..])
    else Rendered(cs[1..])
  }

  function Moved(cs: seq<Command>): seq<(Surface, Workspace)> {
    if cs == [] then []
    else if cs[0].AssignWorkspace? then [(cs[0].surface, cs[0].workspace)] + Moved(cs[1..])
    else Moved(cs[1..])
  }

  function Activated(cs: seq<Command>): seq<(Output, Workspace)> {
    if cs == [] then []
    else if cs[0].ActivateWorkspace? then [(cs[0].output, cs[0].workspace)] + Activated(cs[1..])
    else Activated(cs[1..])
  }

  function Focused(cs: seq<Command>): seq<Surface> {
    if cs == [] then []
    else if cs[0].FocusSurface? then [cs[0].focus] + Focused(cs[1..])
    else Focused(cs[1..])
  }

  function Requested(cs: seq<Command>): seq<ActionRequest> {
    if cs == [] then []
    else if cs[0].RequestSessionAction? then [ActionRequest(cs[0].action, cs[0].target)] + Requested(cs[1..])
    else Requested(cs[1..])
  }

  function FirstOf<T>(xs: seq<T>): Option<T> {
    if xs == [] then None else Some(xs[0])
  }

  // ---------------------------------------------------------------- activations as swaps

  /** Which workspace each output shows. */
  function Shown(outputs: map<Output, OutputState>): map<Output, Workspace> {
    map o | o in outputs :: outputs[o].workspace
  }

  /** `output` shows `workspace`, and whoever showed that shows what `output` did. */
  function Swap(shown: map<Output, Workspace>, output: Output, workspace: Workspace): map<Output, Workspace>
    requires output in shown
  {
    map o | o in shown ::
      if o == output then workspace else if shown[o] == workspace then shown[output] else shown[o]
  }

  /** The swaps in order; an unknown output has none. */
  function SwapAll(shown: map<Output, Workspace>, swaps: seq<(Output, Workspace)>): (r: map<Output, Workspace>)
    ensures r.Keys == shown.Keys
    decreases |swaps|
  {
    if swaps == [] then shown
    else SwapAll(if swaps[0].0 in shown then Swap(shown, swaps[0].0, swaps[0].1) else shown, swaps[1..])
  }

  lemma ActivateIsSwap(outputs: map<Output, OutputState>, output: Output, workspace: Workspace)
    requires Injective(outputs) && output in outputs
    ensures var r := Activate(outputs, output, workspace);
      && r.Ok? && r.value.Keys == outputs.Keys
      && Shown(r.value) == Swap(Shown(outputs), output, workspace)
      && forall o :: o in outputs ==> r.value[o].bounds == outputs[o].bounds && r.value[o].focus == outputs[o].focus
  {
    ActivateSwaps(outputs, output, workspace);
  }

  // ---------------------------------------------------------------- acceptance of one command

  /** Everything the command names is known, and a session action is one that was offered. */
  predicate Known(s: State, c: Command, advertised: seq<SessionAction>) {
    match c
    case ConfigureSurface(request) => request.surface in s.surfaces
    case RenderSurface(placement) => placement.surface in s.surfaces
    case AssignWorkspace(surface, workspace) => surface in s.surfaces && workspace in s.workspaces
    case ActivateWorkspace(output, workspace) => output in s.outputs && workspace in s.workspaces
    case FocusSurface(surface) => surface in s.surfaces
    case RequestSessionAction(action, target) =>
      && action in advertised
      && (target.Some? ==> target.value in s.surfaces && action == CloseFocused)
  }

  /** No earlier command did the same to the same surface or output. */
  predicate FirstOfKind(p: Progress, c: Command) {
    match c
    case ConfigureSurface(request) => request.surface !in p.configuredSurfaces
    case RenderSurface(placement) => placement.surface !in p.renderedSurfaces
    case AssignWorkspace(surface, _) => surface !in p.assignedSurfaces
    case ActivateWorkspace(output, _) => output !in p.activatedOutputs
    case FocusSurface(_) => p.focus.None?
    case RequestSessionAction(_, _) => p.sessionAction.None?
  }

  lemma ApplyAcceptsIff(p: Progress, c: Command, advertised: seq<SessionAction>)
    requires Inv(p.candidate)
    ensures Apply(p, c, advertised).Ok? <==> Known(p.candidate, c, advertised) && FirstOfKind(p, c)
  {
    if c.ActivateWorkspace? && c.output in p.candidate.outputs {
      ActivateSwaps(p.candidate.outputs, c.output, c.workspace);
    }
  }

  /** A refused command is told whether it names something unknown, repeats another, or asks for what was not offered. */
  lemma ApplyAnswers(p: Progress, c: Command, advertised: seq<SessionAction>)
    requires Inv(p.candidate)
    ensures var x := Apply(p, c, advertised);
      var s := p.candidate;
      && (c.ConfigureSurface? || c.RenderSurface? || c.FocusSurface? ==>
            var surface := if c.ConfigureSurface? then c.request.surface
                           else if c.RenderSurface? then c.placement.surface else c.focus;
            && (x == Err(UnknownSurface) <==> surface !in s.surfaces)
            && (surface in s.surfaces && !FirstOfKind(p, c) <==>
                  x == Err(if c.FocusSurface? then DuplicateFocusCommand else DuplicateSurfaceCommand)))
      && (c.AssignWorkspace? ==>
            && (x == Err(UnknownSurface) <==> c.surface !in s.surfaces)
            && (x == Err(UnknownWorkspace) <==> c.surface in s.surfaces && c.workspace !in s.workspaces)
            && (x == Err(DuplicateSurfaceCommand) <==> Known(s, c, advertised) && !FirstOfKind(p, c)))
      && (c.ActivateWorkspace? ==>
            && (x == Err(UnknownWorkspace) <==> c.workspace !in s.workspaces)
            && (x == Err(DuplicateOutputCommand) <==> c.workspace in s.workspaces && !FirstOfKind(p, c))
            && (x == Err(UnknownOutput) <==> c.workspace in s.workspaces && FirstOfKind(p, c) && c.output !in s.outputs))
      && (c.RequestSessionAction? ==>
            && (x == Err(DuplicateSessionAction) <==> !FirstOfKind(p, c))
            && (x == Err(UnadvertisedSessionAction) <==> FirstOfKind(p, c) && c.action !in advertised)
            && (x == Err(UnknownSurface) <==>
                  FirstOfKind(p, c) && c.action in advertised && c.target.Some? && c.target.value !in s.surfaces)
            && (x == Err(InvalidSessionActionTarget) <==>
                  && FirstOfKind(p, c) && c.action in advertised
                  && c.target.Some? && c.target.value in s.surfaces && c.action != CloseFocused))
  {
    if c.ActivateWorkspace? && c.output in p.candidate.outputs {
      ActivateSwaps(p.candidate.outputs, c.output, c.workspace);
    }
  }

  /** What one accepted command adds. */
  lemma ApplyAdds(p: Progress, c: Command, advertised: seq<SessionAction>)
    requires Inv(p.candidate) && Apply(p, c, advertised).Ok?
    ensures var q := Apply(p, c, advertised).value;
      && q.requestedSizes == p.requestedSizes + Configured([c])
      && q.renderPositions == p.renderPositions + Rendered([c])
      && q.focus == (if c.FocusSurface? then Some(c.focus) else p.focus)
      && q.sessionAction == (if c.RequestSessionAction? then Some(ActionRequest(c.action, c.target)) else p.sessionAction)
      && Shown(q.candidate.outputs) == SwapAll(Shown(p.candidate.outputs), Activated([c]))
      && q.candidate.surfaces ==
           (if c.AssignWorkspace? then p.candidate.surfaces[c.surface := c.workspace] else p.candidate.surfaces)
      && q.configuredSurfaces == p.configuredSurfaces + (if c.ConfigureSurface? then {c.request.surface} else {})
      && q.renderedSurfaces == p.renderedSurfaces + (if c.RenderSurface? then {c.placement.surface} else {})
      && q.assignedSurfaces == p.assignedSurfaces + (if c.AssignWorkspace? then {c.surface} else {})
      && q.activatedOutputs == p.activatedOutputs + (if c.ActivateWorkspace? then {c.output} else {})
      && (forall o :: o in p.candidate.outputs && o in q.candidate.outputs ==>
            q.candidate.outputs[o].focus == p.candidate.outputs[o].focus)
  {
    if c.ActivateWorkspace? {
      ActivateIsSwap(p.candidate.outputs, c.output, c.workspace);
      assert Activated([c]) == [(c.output, c.workspace)];
      assert [(c.output, c.workspace)][1..] == [];
    } else {
      assert Activated([c]) == [];
    }
  }

  // ---------------------------------------------------------------- all commands

  function Moves(surfaces: map<Surface, Workspace>, moves: seq<(Surface, Workspace)>): map<Surface, Workspace>
    decreases |moves|
  {
    if moves == [] then surfaces else Moves(surfaces[moves[0].0 := moves[0].1], moves[1..])
  }

  /** What the commands have moved and switched. */
  lemma {:induction false} ApplyAllMoves(p: Progress, cs: seq<Command>, advertised: seq<SessionAction>)
    requires Inv(p.candidate) && ApplyAll(p, cs, advertised).Ok?
    ensures var q := ApplyAll(p, cs, advertised).value;
      && Shown(q.candidate.outputs) == SwapAll(Shown(p.candidate.outputs), Activated(cs))
      && q.candidate.surfaces == Moves(p.candidate.surfaces, Moved(cs))
      && SameFrame(p.candidate, q.candidate)
      && Inv(q.candidate)
      && (forall o :: o in p.candidate.outputs ==> q.candidate.outputs[o].focus == p.candidate.outputs[o].focus)
    decreases |cs|
  {
    hide Apply, Inv, Shown;
    if cs != [] {
      ApplyAdds(p, cs[0], advertised);
      ApplyKeeps(p, cs[0], advertised);
      var q := Apply(p, cs[0], advertised).value;
      ApplyAllMoves(q, cs[1..], advertised);
      SplitFirstActivation(cs);
      MovesFirst(p.candidate.surfaces, cs);
      SwapAllFirst(Shown(p.candidate.outputs), Activated([cs[0]]), Activated(cs[1..]));
    }
  }

  /** What the commands have asked for. */
  lemma {:induction false} ApplyAllLists(p: Progress, cs: seq<Command>, advertised: seq<SessionAction>)
    requires Inv(p.candidate) && ApplyAll(p, cs, advertised).Ok?
    ensures var q := ApplyAll(p, cs, advertised).value;
      && q.requestedSizes == p.requestedSizes + Configured(cs)
      && q.renderPositions == p.renderPositions + Rendered(cs)
    decreases |cs|
  {
    hide Apply, Inv, Shown, SwapAll;
    if cs != [] {
      ApplyAdds(p, cs[0], advertised);
      ApplyKeeps(p, cs[0], advertised);
      ApplyAllLists(Apply(p, cs[0], advertised).value, cs[1..], advertised);
      SplitFirst(cs);
    }
  }

  lemma {:induction false} ApplyAllAsksOnce(p: Progress, cs: seq<Command>, advertised: seq<SessionAction>)
    requires Inv(p.candidate) && ApplyAll(p, cs, advertised).Ok?
    ensures var q := ApplyAll(p, cs, advertised).value;
      && q.focus == (if p.focus.Some? then p.focus else FirstOf(Focused(cs)))
      && q.sessionAction == (if p.sessionAction.Some? then p.sessionAction else FirstOf(Requested(cs)))
    decreases |cs|
  {
    hide Apply, Inv, Shown, SwapAll, Configured, Rendered;
    if cs != [] {
      ApplyAcceptsIff(p, cs[0], advertised);
      ApplyAdds(p, cs[0], advertised);
      ApplyKeeps(p, cs[0], advertised);
      ApplyAllAsksOnce(Apply(p, cs[0], advertised).value, cs[1..], advertised);
    }
  }

  lemma SplitFirst(cs: seq<Command>)
    requires cs != []
    ensures Configured(cs) == Configured([cs[0]]) + Configured(cs[1..])
    ensures Rendered(cs) == Rendered([cs[0]]) + Rendered(cs[1..])
  {
    AloneFirst(cs[0]);
  }

  lemma SplitFirstActivation(cs: seq<Command>)
    requires cs != []
    ensures Activated(cs) == Activated([cs[0]]) + Activated(cs[1..])
    ensures |Activated([cs[0]])| <= 1
  {
    AloneFirst(cs[0]);
  }

  lemma AloneFirst(c: Command)
    ensures Configured([c]) == if c.ConfigureSurface? then [c.request] else []
    ensures Rendered([c]) == if c.RenderSurface? then [c.placement] else []
    ensures Activated([c]) == if c.ActivateWorkspace? then [(c.output, c.workspace)] else []
  {
    assert [c][1..] == [];
  }

  lemma MovesFirst(surfaces: map<Surface, Workspace>, cs: seq<Command>)
    requires cs != []
    ensures Moves(surfaces, Moved(cs)) ==
      Moves(if cs[0].AssignWorkspace? then surfaces[cs[0].surface := cs[0].workspace] else surfaces, Moved(cs[1..]))
  {
    if cs[0].AssignWorkspace? {
      assert Moved(cs)[1..] == Moved(cs[1..]);
    }
  }

  lemma SwapAllFirst(shown: map<Output, Workspace>, first: seq<(Output, Workspace)>, rest: seq<(Output, Workspace)>)
    requires |first| <= 1
    ensures SwapAll(shown, first + rest) == SwapAll(SwapAll(shown, first), rest)
  {
    if first == [] {
      assert first + rest == rest;
    } else {
      assert (first + rest)[1..] == rest && first[1..] == [];
    }
  }

  /** New to `seen` and different among themselves. */
  ghost predicate Unseen<T>(xs: seq<T>, seen: set<T>) {
    Distinct(xs) && forall x :: x in xs ==> x !in seen
  }

  lemma UnseenFirst<T>(x: T, rest: seq<T>, seen: set<T>)
    ensures Unseen([x] + rest, seen) <==> x !in seen && Unseen(rest, seen + {x})
  {
    var xs := [x] + rest;
    if Unseen(xs, seen) {
      assert xs[0] == x && x in xs;
      forall i, j | 0 <= i < j < |rest| ensures rest[i] != rest[j] {
        assert xs[i + 1] == rest[i] && xs[j + 1] == rest[j];
      }
      forall y | y in rest ensures y !in seen && y != x {
        var i :| 0 <= i < |rest| && rest[i] == y;
        assert xs[i + 1] == y;
      }
    }
    if x !in seen && Unseen(rest, seen + {x}) {
      forall i, j | 0 <= i < j < |xs| ensures xs[i] != xs[j] {
        assert xs[j] == rest[j - 1] && rest[j - 1] in rest;
        assert i > 0 ==> xs[i] == rest[i - 1];
      }
    }
  }

  function RequestedSurfaces(cs: seq<Command>): seq<Surface> {
    if cs == [] then [] else if cs[0].ConfigureSurface? then [cs[0].request.surface] + RequestedSurfaces(cs[1..])
    else RequestedSurfaces(cs[1..])
  }

  function PlacedSurfaces(cs: seq<Command>): seq<Surface> {
    if cs == [] then [] else if cs[0].RenderSurface? then [cs[0].placement.surface] + PlacedSurfaces(cs[1..])
    else PlacedSurfaces(cs[1..])
  }

  function MovedSurfaces(cs: seq<Command>): seq<Surface> {
    if cs == [] then [] else if cs[0].AssignWorkspace? then [cs[0].surface] + MovedSurfaces(cs[1..])
    else MovedSurfaces(cs[1..])
  }

  function ActivatedOutputs(cs: seq<Command>): seq<Output> {
    if cs == [] then [] else if cs[0].ActivateWorkspace? then [cs[0].output] + ActivatedOutputs(cs[1..])
    else ActivatedOutputs(cs[1..])
  }

  /** No surface is configured, placed or moved twice, no output switched twice, at most one focus and one action. */
  ghost predicate NothingTwice(p: Progress, cs: seq<Command>) {
    && Unseen(RequestedSurfaces(cs), p.configuredSurfaces)
    && Unseen(PlacedSurfaces(cs), p.renderedSurfaces)
    && Unseen(MovedSurfaces(cs), p.assignedSurfaces)
    && Unseen(ActivatedOutputs(cs), p.activatedOutputs)
    && |Focused(cs)| <= (if p.focus.None? then 1 else 0)
    && |Requested(cs)| <= (if p.sessionAction.None? then 1 else 0)
  }

  ghost predicate AllKnown(s: State, cs: seq<Command>, advertised: seq<SessionAction>) {
    forall c :: c in cs ==> Known(s, c, advertised)
  }

  lemma NothingTwiceFirst(p: Progress, cs: seq<Command>, advertised: seq<SessionAction>)
    requires cs != [] && Inv(p.candidate) && Apply(p, cs[0], advertised).Ok?
    ensures NothingTwice(p, cs) <==> NothingTwice(Apply(p, cs[0], advertised).value, cs[1..])
  {
    hide Apply, Inv, Shown, SwapAll;
    ApplyAcceptsIff(p, cs[0], advertised);
    ApplyAdds(p, cs[0], advertised);
    var c, rest := cs[0], cs[1..];
    match c
    case ConfigureSurface(request) => UnseenFirst(request.surface, RequestedSurfaces(rest), p.configuredSurfaces);
    case RenderSurface(placement) => UnseenFirst(placement.surface, PlacedSurfaces(rest), p.renderedSurfaces);
    case AssignWorkspace(surface, _) => UnseenFirst(surface, MovedSurfaces(rest), p.assignedSurfaces);
    case ActivateWorkspace(output, _) => UnseenFirst(output, ActivatedOutputs(rest), p.activatedOutputs);
    case FocusSurface(_) =>
    case RequestSessionAction(_, _) =>
  }

  lemma RepeatedFirst(p: Progress, cs: seq<Command>)
    requires cs != [] && NothingTwice(p, cs)
    ensures FirstOfKind(p, cs[0])
  {
    var c, rest := cs[0], cs[1..];
    match c
    case ConfigureSurface(request) => UnseenFirst(request.surface, RequestedSurfaces(rest), p.configuredSurfaces);
    case RenderSurface(placement) => UnseenFirst(placement.surface, PlacedSurfaces(rest), p.renderedSurfaces);
    case AssignWorkspace(surface, _) => UnseenFirst(surface, MovedSurfaces(rest), p.assignedSurfaces);
    case ActivateWorkspace(output, _) => UnseenFirst(output, ActivatedOutputs(rest), p.activatedOutputs);
    case FocusSurface(_) =>
    case RequestSessionAction(_, _) =>
  }

  lemma KnownInFrame(s: State, s': State, c: Command, advertised: seq<SessionAction>)
    requires SameFrame(s, s')
    ensures Known(s, c, advertised) <==> Known(s', c, advertised)
  {
  }

  lemma {:induction false} ApplyAllAcceptsIff(p: Progress, cs: seq<Command>, advertised: seq<SessionAction>)
    requires Inv(p.candidate)
    ensures ApplyAll(p, cs, advertised).Ok? <==> AllKnown(p.candidate, cs, advertised) && NothingTwice(p, cs)
    decreases |cs|
  {
    hide Apply, Inv, Known, NothingTwice, FirstOfKind;
    if cs == [] {
      NothingTwiceEmpty(p);
    } else {
      ApplyAcceptsIff(p, cs[0], advertised);
      assert cs == [cs[0]] + cs[1..];
      if NothingTwice(p, cs) {
        RepeatedFirst(p, cs);
      }
      if Apply(p, cs[0], advertised).Ok? {
        ApplyKeeps(p, cs[0], advertised);
        var q := Apply(p, cs[0], advertised).value;
        NothingTwiceFirst(p, cs, advertised);
        ApplyAllAcceptsIff(q, cs[1..], advertised);
        forall c ensures Known(p.candidate, c, advertised) <==> Known(q.candidate, c, advertised) {
          KnownInFrame(p.candidate, q.candidate, c, advertised);
        }
      }
    }
  }

  lemma NothingTwiceEmpty(p: Progress)
    ensures NothingTwice(p, [])
  {
  }

  // ---------------------------------------------------------------- the plan

  lemma {:induction false} MovesAt(surfaces: map<Surface, Workspace>, cs: seq<Command>, x: Surface)
    requires Distinct(MovedSurfaces(cs))
    ensures x in Moves(surfaces, Moved(cs)) <==> x in surfaces || x in MovedSurfaces(cs)
    ensures x !in MovedSurfaces(cs) && x in surfaces ==> Moves(surfaces, Moved(cs))[x] == surfaces[x]
    ensures forall w :: AssignWorkspace(x, w) in cs ==> x in Moves(surfaces, Moved(cs)) && Moves(surfaces, Moved(cs))[x] == w
    decreases |cs|
  {
    if cs != [] {
      assert cs == [cs[0]] + cs[1..];
      if cs[0].AssignWorkspace? {
        var rest := MovedSurfaces(cs[1..]);
        assert MovedSurfaces(cs) == [cs[0].surface] + rest;
        UnseenFirst(cs[0].surface, rest, {});
        assert Moved(cs) == [(cs[0].surface, cs[0].workspace)] + Moved(cs[1..]);
        MovesAt(surfaces[cs[0].surface := cs[0].workspace], cs[1..], x);
        NamedIsMoved(cs[1..], x);
      } else {
        assert MovedSurfaces(cs) == MovedSurfaces(cs[1..]) && Moved(cs) == Moved(cs[1..]);
        MovesAt(surfaces, cs[1..], x);
      }
    }
  }

  lemma {:induction false} NamedIsMoved(cs: seq<Command>, x: Surface)
    ensures forall w :: AssignWorkspace(x, w) in cs ==> x in MovedSurfaces(cs)
  {
    if cs != [] {
      assert cs == [cs[0]] + cs[1..];
      NamedIsMoved(cs[1..], x);
    }
  }

  /**
   An accepted response: each output shows what the response's activations, applied in order as swaps, put
   there; each moved surface is where its command put it and every other one where it was; layout and
   session are asked for exactly what the commands ask for, in order.
   */
  lemma PlanFollowsResponse(s: State, response: Response, advertised: seq<SessionAction>)
    requires Inv(s) && PlanResponse(s, response, advertised).Ok?
    ensures var plan := PlanResponse(s, response, advertised).value;
      var cs := response.commands;
      && Shown(plan.candidate.outputs) == SwapAll(Shown(s.outputs), Activated(cs))
      && (forall x, w :: AssignWorkspace(x, w) in cs ==> x in plan.candidate.surfaces && plan.candidate.surfaces[x] == w)
      && (forall x :: x in s.surfaces && x !in MovedSurfaces(cs) ==>
            x in plan.candidate.surfaces && plan.candidate.surfaces[x] == s.surfaces[x])
      && plan.transaction == response.transaction
      && plan.layout == Layout(
           response.transaction, Configured(cs), FirstOf(Focused(cs)), Rendered(cs), response.timeoutMsec)
      && plan.sessionAction == FirstOf(Requested(cs))
  {
    hide ApplyAll, Inv, Moves, SwapAll, PlaceFocus;
    ApplyAllMoves(Start(s), response.commands, advertised);
    ApplyAllLists(Start(s), response.commands, advertised);
    ApplyAllAsksOnce(Start(s), response.commands, advertised);
    ApplyAllAcceptsIff(Start(s), response.commands, advertised);
    var p := ApplyAll(Start(s), response.commands, advertised).value;
    FocusingShowsTheSame(p.candidate, p.focus);
    forall x { MovesAt(s.surfaces, response.commands, x); }
  }

  lemma FocusingShowsTheSame(s: State, focus: Option<Surface>)
    requires PlaceFocus(s, focus).Ok?
    ensures var r := ClearHiddenFocus(PlaceFocus(s, focus).value);
      Shown(r.outputs) == Shown(s.outputs) && r.surfaces == s.surfaces
  {
  }

  /**
   A response is accepted exactly when everything it names is known and offered, nothing is done twice, and
   its focus, if it asks for one, is on a workspace that some output shows after its activations.
   */
  lemma PlanAcceptsIff(s: State, response: Response, advertised: seq<SessionAction>)
    requires Inv(s)
    ensures var cs := response.commands;
      PlanResponse(s, response, advertised).Ok? <==>
        && AllKnown(s, cs, advertised)
        && NothingTwice(Start(s), cs)
        && (Focused(cs) != [] ==>
              var surfaces, shown := Moves(s.surfaces, Moved(cs)), SwapAll(Shown(s.outputs), Activated(cs));
              Focused(cs)[0] in surfaces && exists o :: o in shown && shown[o] == surfaces[Focused(cs)[0]])
  {
    hide ApplyAll, Inv, Moves, SwapAll, PlaceFocus, AllKnown, NothingTwice;
    ApplyAllAcceptsIff(Start(s), response.commands, advertised);
    if ApplyAll(Start(s), response.commands, advertised).Ok? {
      ApplyAllMoves(Start(s), response.commands, advertised);
      ApplyAllAsksOnce(Start(s), response.commands, advertised);
      var p := ApplyAll(Start(s), response.commands, advertised).value;
      PlaceFocusIff(p.candidate, p.focus);
    }
  }

  lemma PlaceFocusIff(s: State, focus: Option<Surface>)
    ensures PlaceFocus(s, focus).Ok? <==>
      focus.Some? ==> focus.value in s.surfaces
                      && exists o :: o in Shown(s.outputs) && Shown(s.outputs)[o] == s.surfaces[focus.value]
  {
    if focus.Some? && focus.value in s.surfaces {
      var showing := Showing(s.outputs, s.surfaces[focus.value]);
      assert forall o :: o in showing <==> o in Shown(s.outputs) && Shown(s.outputs)[o] == s.surfaces[focus.value];
    }
  }

  /**
   After an accepted response, an output showing the focused surface's workspace has that focus; any other
   keeps the focus it had exactly while that surface is on the workspace it shows.
   */
  lemma PlanFocuses(s: State, response: Response, advertised: seq<SessionAction>, o: Output)
    requires Inv(s) && PlanResponse(s, response, advertised).Ok? && o in s.outputs
    ensures var plan := PlanResponse(s, response, advertised).value;
      var asked, had := plan.layout.focus, s.outputs[o].focus;
      && o in plan.candidate.outputs
      && var here := plan.candidate.outputs[o].workspace;
      && plan.candidate.outputs[o].focus ==
           if asked.Some? && asked.value in plan.candidate.surfaces && plan.candidate.surfaces[asked.value] == here then asked
           else if had.Some? && had.value in plan.candidate.surfaces && plan.candidate.surfaces[had.value] == here then had
           else None
  {
    hide ApplyAll, Inv;
    ApplyAllMoves(Start(s), response.commands, advertised);
    var p := ApplyAll(Start(s), response.commands, advertised).value;
    FocusPlaced(p.candidate, p.focus, o);
  }

  lemma FocusPlaced(s: State, focus: Option<Surface>, o: Output)
    requires Inv(s) && PlaceFocus(s, focus).Ok? && o in s.outputs
    ensures var r := ClearHiddenFocus(PlaceFocus(s, focus).value);
      && o in r.outputs && r.outputs[o].workspace == s.outputs[o].workspace && r.surfaces == s.surfaces
      && var here, had := s.outputs[o].workspace, s.outputs[o].focus;
      && r.outputs[o].focus ==
           if focus.Some? && focus.value in s.surfaces && s.surfaces[focus.value] == here then focus
           else if had.Some? && had.value in s.surfaces && s.surfaces[had.value] == here then had
           else None
  {
    if focus.Some? {
      var showing := Showing(s.outputs, s.surfaces[focus.value]);
      var placed := OutputForWorkspace(s.outputs, s.surfaces[focus.value]).value;
      assert placed in showing;
      assert s.outputs[o].workspace == s.surfaces[focus.value] ==> o == placed;
    }
  }

  // ---------------------------------------------------------------- new states and registrations

  predicate ValidOutput(o: (Output, Rect)) {
    o.0 != 0 && o.1.width > 0 && o.1.height > 0
  }

  /** The listed outputs, each on the workspace of its place in the list, without a focus. */
  ghost predicate ConfiguredFrom(r: map<Output, OutputState>, outputs: seq<(Output, Rect)>, i: nat) {
    forall j :: i <= j < |outputs| ==>
      outputs[j].0 in r && r[outputs[j].0] == OutputState(outputs[j].1, j + 1, None)
  }

  lemma {:induction false} ConfigureIff(outputs: seq<(Output, Rect)>, count: nat, i: nat, configured: map<Output, OutputState>)
    requires i <= |outputs|
    ensures var x := Configure(outputs, WorkspaceIds(count), i, configured);
      && (x.Ok? <==>
            && (forall j :: i <= j < |outputs| ==> ValidOutput(outputs[j]) && outputs[j].0 !in configured)
            && (forall j, k :: i <= j < k < |outputs| ==> outputs[j].0 != outputs[k].0)
            && (i < |outputs| ==> |outputs| <= count))
      && (x.Ok? ==> ConfiguredFrom(x.value, outputs, i))
      && (x.Ok? ==> forall o :: o in x.value <==> o in configured || exists j :: i <= j < |outputs| && outputs[j].0 == o)
      && (x.Ok? ==> forall o :: o in configured ==> x.value[o] == configured[o])
    decreases |outputs| - i
  {
    if i < |outputs| {
      var (output, bounds) := outputs[i];
      if ValidOutput(outputs[i]) && i < count && output !in configured {
        ConfigureIff(outputs, count, i + 1, configured[output := OutputState(bounds, WorkspaceIds(count)[i], None)]);
      }
    }
  }

  /**
   A state is made exactly from one to `count` valid, different outputs and one to 64 workspaces; then the
   workspaces are numbered from one and each output shows the one of its place in the list.
   */
  lemma NewAnswers(outputs: seq<(Output, Rect)>, count: nat)
    ensures var x := New(outputs, count);
      && (x.Ok? <==>
            && 1 <= count <= 64 && 1 <= |outputs| <= count
            && (forall j :: 0 <= j < |outputs| ==> ValidOutput(outputs[j]))
            && (forall j, k :: 0 <= j < k < |outputs| ==> outputs[j].0 != outputs[k].0))
      && (x.Ok? ==>
            && x.value.surfaces == map[] && x.value.workspaces == WorkspaceIds(count)
            && ConfiguredFrom(x.value.outputs, outputs, 0)
            && (forall o :: o in x.value.outputs <==> exists j :: 0 <= j < |outputs| && outputs[j].0 == o))
  {
    ConfigureIff(outputs, count, 0, map[]);
    if outputs != [] && New(outputs, count).Ok? {
      assert outputs[0].0 in New(outputs, count).value.outputs;
    }
    if outputs != [] && Configure(outputs, WorkspaceIds(count), 0, map[]).Ok? {
      assert outputs[0].0 in Configure(outputs, WorkspaceIds(count), 0, map[]).value;
    }
  }

  /** Registration is for real surfaces and known workspaces, and moves that surface only. */
  lemma RegisterAnswers(s: State, surface: Surface, workspace: Workspace)
    ensures var x := RegisterSurface(s, surface, workspace);
      && (x == Err(UnknownSurface) <==> surface == 0)
      && (x == Err(UnknownWorkspace) <==> surface != 0 && workspace !in s.workspaces)
      && (x.Ok? <==> surface != 0 && workspace in s.workspaces)
      && (x.Ok? ==> x.value == s.(surfaces := s.surfaces[surface := workspace]))
  {
  }

  /** A removed surface is registered nowhere and has no focus; other focuses and surfaces stay. */
  lemma RemoveForgets(s: State, surface: Surface, o: Output)
    requires o in s.outputs
    ensures var r := RemoveSurface(s, surface);
      && surface !in r.surfaces && r.surfaces == s.surfaces - {surface}
      && o in r.outputs && r.outputs[o].workspace == s.outputs[o].workspace && r.outputs[o].bounds == s.outputs[o].bounds
      && r.outputs[o].focus == (if s.outputs[o].focus == Some(surface) then None else s.outputs[o].focus)
  {
  }
}
