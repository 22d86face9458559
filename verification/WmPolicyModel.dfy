/**
 The engine's window-management policy state over values: which workspace each output shows, which
 workspace each surface is on, and the planning of a window manager's response into a candidate state.
 */
module WmPolicyModel {
  import opened Basics

  type Output = nat
  type Workspace = nat
  type Surface = nat

  datatype OutputState = OutputState(bounds: Rect, workspace: Workspace, focus: Option<Surface>)

  datatype State = State(
    workspaces: seq<Workspace>,
    outputs: map<Output, OutputState>,
    surfaces: map<Surface, Workspace>)

  datatype Error =
    | InvalidWorkspaceCount
    | InvalidOutput
    | DuplicateOutput
    | InvalidOutputBounds
    | UnknownOutput
    | UnknownWorkspace
    | UnknownSurface
    | DuplicateSurfaceCommand
    | DuplicateOutputCommand
    | DuplicateFocusCommand
    | DuplicateSessionAction
    | HiddenFocus
    | UnadvertisedSessionAction
    | InvalidSessionActionTarget

  datatype SizeRequest = SizeRequest(surface: Surface, size: Size)

  /** `crop` and the transform travel with a placement untouched; they are not modelled. */
  datatype Placement = Placement(surface: Surface, geometry: Rect, zIndex: int)

  datatype SessionAction = LaunchTerminal | LaunchApplicationMenu | LaunchFirefox | CloseFocused | Logout

  datatype ActionRequest = ActionRequest(action: SessionAction, target: Option<Surface>)

  datatype Command =
    | ConfigureSurface(request: SizeRequest)
    | RenderSurface(placement: Placement)
    | AssignWorkspace(surface: Surface, workspace: Workspace)
    | ActivateWorkspace(output: Output, workspace: Workspace)
    | FocusSurface(focus: Surface)
    | RequestSessionAction(action: SessionAction, target: Option<Surface>)

  datatype Response = Response(transaction: nat, commands: seq<Command>, timeoutMsec: U32)

  datatype Layout = Layout(
    transaction: nat,
    requestedSizes: seq<SizeRequest>,
    focus: Option<Surface>,
    renderPositions: seq<Placement>,
    timeoutMsec: U32)

  datatype Plan = Plan(
    transaction: nat,
    candidate: State,
    layout: Layout,
    affectedOutputs: seq<Output>,
    sessionAction: Option<ActionRequest>)

  // ---------------------------------------------------------------- the state

  const MAX_WORKSPACES: nat := 64

  function WorkspaceIds(count: nat): (ids: seq<Workspace>)
    ensures |ids| == count && forall i :: 0 <= i < count ==> ids[i] == i + 1
  {
    seq(count, i => i + 1)
  }

  /** Adds the outputs from index `i` on, each on the workspace of its index. */
  function Configure(outputs: seq<(Output, Rect)>, workspaces: seq<Workspace>, i: nat, configured: map<Output, OutputState>)
    : Result<map<Output, OutputState>, Error>
    requires i <= |outputs|
    decreases |outputs| - i
  {
    if i == |outputs| then Ok(configured)
    else
      var (output, bounds) := outputs[i];
      if output == 0 then Err(InvalidOutput)
      else if IsEmptyRect(bounds) then Err(InvalidOutputBounds)
      else if i >= |workspaces| then Err(InvalidWorkspaceCount)
      else if output in configured then Err(DuplicateOutput)
      else Configure(outputs, workspaces, i + 1, configured[output := OutputState(bounds, workspaces[i], None)])
  }

  function New(outputs: seq<(Output, Rect)>, workspaceCount: nat): Result<State, Error> {
    if workspaceCount == 0 || workspaceCount > MAX_WORKSPACES then Err(InvalidWorkspaceCount)
    else match Configure(outputs, WorkspaceIds(workspaceCount), 0, map[])
      case Err(e) => Err(e)
      case Ok(configured) =>
        if configured == map[] then Err(InvalidOutput)
        else Ok(State(WorkspaceIds(workspaceCount), configured, map[]))
  }

  function RegisterSurface(s: State, surface: Surface, workspace: Workspace): Result<State, Error> {
    if surface == 0 then Err(UnknownSurface)
    else if workspace !in s.workspaces then Err(UnknownWorkspace)
    else Ok(s.(surfaces := s.surfaces[surface := workspace]))
  }

  function RemoveSurface(s: State, surface: Surface): State {
    s.(surfaces := s.surfaces - {surface},
       outputs := map o | o in s.outputs ::
         if s.outputs[o].focus == Some(surface) then s.outputs[o].(focus := None) else s.outputs[o])
  }

  function Showing(outputs: map<Output, OutputState>, workspace: Workspace): set<Output> {
    set o | o in outputs && outputs[o].workspace == workspace
  }

  /** The first output, in key order, that shows the workspace. */
  function OutputForWorkspace(outputs: map<Output, OutputState>, workspace: Workspace): Option<Output> {
    if Showing(outputs, workspace) == {} then None else Some(Least(Showing(outputs, workspace)))
  }

  function VisibleSurfaces(s: State, output: Output): Result<set<Surface>, Error> {
    if output !in s.outputs then Err(UnknownOutput)
    else Ok(set x | x in s.surfaces && s.surfaces[x] == s.outputs[output].workspace)
  }

  // ---------------------------------------------------------------- planning

  function SetWorkspace(outputs: map<Output, OutputState>, o: Output, workspace: Workspace): map<Output, OutputState>
    requires o in outputs
  {
    outputs[o := outputs[o].(workspace := workspace)]
  }

  /** Shows the workspace on the output; an output that showed it takes over the previous workspace. */
  function Activate(outputs: map<Output, OutputState>, output: Output, workspace: Workspace)
    : Result<map<Output, OutputState>, Error>
  {
    if output !in outputs then Err(UnknownOutput)
    else
      var previous := outputs[output].workspace;
      if previous == workspace then Ok(outputs)
      else
        var other := OutputForWorkspace(outputs, workspace);
        var swapped := if other.Some? then SetWorkspace(outputs, other.value, previous) else outputs;
        Ok(SetWorkspace(swapped, output, workspace))
  }

  function ClearHiddenFocus(s: State): State {
    s.(outputs := map o | o in s.outputs ::
      if s.outputs[o].focus.Some?
         && !(s.outputs[o].focus.value in s.surfaces && s.surfaces[s.outputs[o].focus.value] == s.outputs[o].workspace)
      then s.outputs[o].(focus := None) else s.outputs[o])
  }

  /** What planning has accumulated while it goes through the commands. */
  datatype Progress = Progress(
    candidate: State,
    requestedSizes: seq<SizeRequest>,
    renderPositions: seq<Placement>,
    focus: Option<Surface>,
    sessionAction: Option<ActionRequest>,
    assignedSurfaces: set<Surface>,
    activatedOutputs: set<Output>,
    configuredSurfaces: set<Surface>,
    renderedSurfaces: set<Surface>)

  function Start(s: State): Progress {
    Progress(s, [], [], None, None, {}, {}, {}, {})
  }

  function Apply(p: Progress, c: Command, advertised: seq<SessionAction>): Result<Progress, Error> {
    match c
    case ConfigureSurface(request) =>
      if request.surface !in p.candidate.surfaces then Err(UnknownSurface)
      else if request.surface in p.configuredSurfaces then Err(DuplicateSurfaceCommand)
      else Ok(p.(configuredSurfaces := p.configuredSurfaces + {request.surface}, requestedSizes := p.requestedSizes + [request]))
    case RenderSurface(placement) =>
      if placement.surface !in p.candidate.surfaces then Err(UnknownSurface)
      else if placement.surface in p.renderedSurfaces then Err(DuplicateSurfaceCommand)
      else Ok(p.(renderedSurfaces := p.renderedSurfaces + {placement.surface},
                 renderPositions := p.renderPositions + [placement]))
    case AssignWorkspace(surface, workspace) =>
      if surface !in p.candidate.surfaces then Err(UnknownSurface)
      else if workspace !in p.candidate.workspaces then Err(UnknownWorkspace)
      else if surface in p.assignedSurfaces then Err(DuplicateSurfaceCommand)
      else Ok(p.(assignedSurfaces := p.assignedSurfaces + {surface},
                 candidate := p.candidate.(surfaces := p.candidate.surfaces[surface := workspace])))
    case ActivateWorkspace(output, workspace) =>
      if workspace !in p.candidate.workspaces then Err(UnknownWorkspace)
      else if output in p.activatedOutputs then Err(DuplicateOutputCommand)
      else (match Activate(p.candidate.outputs, output, workspace)
        case Err(e) => Err(e)
        case Ok(outputs) =>
          Ok(p.(activatedOutputs := p.activatedOutputs + {output}, candidate := p.candidate.(outputs := outputs))))
    case FocusSurface(surface) =>
      if surface !in p.candidate.surfaces then Err(UnknownSurface)
      else if p.focus.Some? then Err(DuplicateFocusCommand)
      else Ok(p.(focus := Some(surface)))
    case RequestSessionAction(action, target) =>
      if p.sessionAction.Some? then Err(DuplicateSessionAction)
      else if action !in advertised then Err(UnadvertisedSessionAction)
      else if target.Some? && target.value !in p.candidate.surfaces then Err(UnknownSurface)
      else if action != CloseFocused && target.Some? then Err(InvalidSessionActionTarget)
      else Ok(p.(sessionAction := Some(ActionRequest(action, target))))
  }

  function ApplyAll(p: Progress, commands: seq<Command>, advertised: seq<SessionAction>): Result<Progress, Error>
    decreases |commands|
  {
    if commands == [] then Ok(p)
    else match Apply(p, commands[0], advertised)
      case Err(e) => Err(e)
      case Ok(p') => ApplyAll(p', commands[1..], advertised)
  }

  /** Gives the focus to the output that shows the surface's workspace. */
  function PlaceFocus(s: State, focus: Option<Surface>): Result<State, Error> {
    if focus.None? then Ok(s)
    else if focus.value !in s.surfaces then Err(UnknownSurface)
    else
      var output := OutputForWorkspace(s.outputs, s.surfaces[focus.value]);
      if output.None? then Err(HiddenFocus)
      else Ok(s.(outputs := s.outputs[output.value := s.outputs[output.value].(focus := focus)]))
  }

  function ChangedOutputs(s: State, candidate: State): set<Output> {
    set o | o in candidate.outputs && !(o in s.outputs && s.outputs[o] == candidate.outputs[o])
  }

  function PlanResponse(s: State, response: Response, advertised: seq<SessionAction>): Result<Plan, Error> {
    match ApplyAll(Start(s), response.commands, advertised)
    case Err(e) => Err(e)
    case Ok(p) =>
      match PlaceFocus(p.candidate, p.focus)
      case Err(e) => Err(e)
      case Ok(focused) =>
        var candidate := ClearHiddenFocus(focused);
        Ok(Plan(
          response.transaction,
          candidate,
          Layout(response.transaction, p.requestedSizes, p.focus, p.renderPositions, response.timeoutMsec),
          Ascending(ChangedOutputs(s, candidate)),
          p.sessionAction))
  }

  // ---------------------------------------------------------------- invariants

  /** No two outputs show the same workspace, and every shown or assigned workspace exists. */
  ghost predicate Injective(outputs: map<Output, OutputState>) {
    forall a, b :: a in outputs && b in outputs && outputs[a].workspace == outputs[b].workspace ==> a == b
  }

  ghost predicate Inv(s: State) {
    && Injective(s.outputs)
    && (forall o :: o in s.outputs ==> s.outputs[o].workspace in s.workspaces)
    && (forall x :: x in s.surfaces ==> s.surfaces[x] in s.workspaces)
  }

  /** Every focus is on the workspace its output shows. */
  ghost predicate FocusVisible(s: State) {
    forall o :: o in s.outputs && s.outputs[o].focus.Some? ==>
      (s.outputs[o].focus.value in s.surfaces && s.surfaces[s.outputs[o].focus.value] == s.outputs[o].workspace)
  }

  lemma {:induction false} ConfigureIsInjective(outputs: seq<(Output, Rect)>, workspaces: seq<Workspace>, i: nat,
                                                configured: map<Output, OutputState>)
    requires i <= |outputs| && Distinct(workspaces) && Configure(outputs, workspaces, i, configured).Ok?
    requires Injective(configured)
    requires forall o :: o in configured ==>
      configured[o].focus.None? && exists j :: 0 <= j < i && j < |workspaces| && configured[o].workspace == workspaces[j]
    ensures var r := Configure(outputs, workspaces, i, configured).value;
      && Injective(r)
      && forall o :: o in r ==> r[o].focus.None? && r[o].workspace in workspaces
    decreases |outputs| - i
  {
    if i < |outputs| {
      var (output, bounds) := outputs[i];
      ConfigureIsInjective(outputs, workspaces, i + 1, configured[output := OutputState(bounds, workspaces[i], None)]);
    }
  }

  lemma NewIsInjective(outputs: seq<(Output, Rect)>, workspaceCount: nat)
    requires New(outputs, workspaceCount).Ok?
    ensures Inv(New(outputs, workspaceCount).value) && FocusVisible(New(outputs, workspaceCount).value)
  {
    ConfigureIsInjective(outputs, WorkspaceIds(workspaceCount), 0, map[]);
  }

  /**
   Activation on an injective state: the output shows the workspace, whoever showed it now shows what
   the output showed before, nobody else changes, and the state stays injective.
   */
  lemma ActivateSwaps(outputs: map<Output, OutputState>, output: Output, workspace: Workspace)
    requires Injective(outputs) && output in outputs
    ensures var r := Activate(outputs, output, workspace);
      && r.Ok? && r.value.Keys == outputs.Keys && Injective(r.value)
      && r.value[output].workspace == workspace
      && (forall o :: o in outputs ==>
            && r.value[o].bounds == outputs[o].bounds && r.value[o].focus == outputs[o].focus
            && r.value[o].workspace == SwappedWorkspace(outputs, output, workspace, o))
  {
    var showing := Showing(outputs, workspace);
    if showing != {} {
      assert Least(showing) in showing;
      assert forall o :: o in outputs && outputs[o].workspace == workspace ==> o == Least(showing);
    } else {
      assert forall o :: o in outputs ==> outputs[o].workspace != workspace by {
        forall o | o in outputs ensures outputs[o].workspace != workspace {
          assert o !in showing;
        }
      }
    }
    var r := Activate(outputs, output, workspace).value;
    forall a, b | a in r && b in r && r[a].workspace == r[b].workspace ensures a == b {
      assert r[a].workspace == SwappedWorkspace(outputs, output, workspace, a);
      assert r[b].workspace == SwappedWorkspace(outputs, output, workspace, b);
    }
  }

  /** What `o` shows once `output` shows `workspace`. */
  ghost function SwappedWorkspace(outputs: map<Output, OutputState>, output: Output, workspace: Workspace, o: Output): Workspace
    requires output in outputs && o in outputs
  {
    if o == output then workspace
    else if outputs[o].workspace == workspace then outputs[output].workspace
    else outputs[o].workspace
  }

  // ---------------------------------------------------------------- planning keeps the invariants

  /** The same outputs with the same bounds over the same registered surfaces and workspaces. */
  ghost predicate SameFrame(s: State, s': State) {
    && s'.workspaces == s.workspaces
    && s'.surfaces.Keys == s.surfaces.Keys
    && s'.outputs.Keys == s.outputs.Keys
    && forall o :: o in s.outputs ==> s'.outputs[o].bounds == s.outputs[o].bounds
  }

  lemma ApplyKeeps(p: Progress, c: Command, advertised: seq<SessionAction>)
    requires Inv(p.candidate) && Apply(p, c, advertised).Ok?
    ensures Inv(Apply(p, c, advertised).value.candidate)
    ensures SameFrame(p.candidate, Apply(p, c, advertised).value.candidate)
  {
    if c.ActivateWorkspace? {
      ActivateSwaps(p.candidate.outputs, c.output, c.workspace);
    }
  }

  lemma {:induction false} ApplyAllKeeps(p: Progress, commands: seq<Command>, advertised: seq<SessionAction>)
    requires Inv(p.candidate) && ApplyAll(p, commands, advertised).Ok?
    ensures Inv(ApplyAll(p, commands, advertised).value.candidate)
    ensures SameFrame(p.candidate, ApplyAll(p, commands, advertised).value.candidate)
    decreases |commands|
  {
    hide Apply, Inv;
    if commands != [] {
      ApplyKeeps(p, commands[0], advertised);
      ApplyAllKeeps(Apply(p, commands[0], advertised).value, commands[1..], advertised);
    }
  }

  lemma PlaceFocusKeeps(s: State, focus: Option<Surface>)
    requires Inv(s) && PlaceFocus(s, focus).Ok?
    ensures Inv(PlaceFocus(s, focus).value) && SameFrame(s, PlaceFocus(s, focus).value)
  {
  }

  lemma ClearHiddenFocusKeeps(s: State)
    requires Inv(s)
    ensures Inv(ClearHiddenFocus(s)) && SameFrame(s, ClearHiddenFocus(s)) && FocusVisible(ClearHiddenFocus(s))
  {
  }

  /** Every accepted plan keeps the state injective, shows every focus, and reports exactly the changed outputs. */
  lemma PlanKeeps(s: State, response: Response, advertised: seq<SessionAction>)
    requires Inv(s) && PlanResponse(s, response, advertised).Ok?
    ensures var plan := PlanResponse(s, response, advertised).value;
      && Inv(plan.candidate)
      && SameFrame(s, plan.candidate)
      && FocusVisible(plan.candidate)
      && Increasing(plan.affectedOutputs)
      && (forall o: Output :: o in s.outputs ==> (o in plan.affectedOutputs <==> plan.candidate.outputs[o] != s.outputs[o]))
  {
    hide ApplyAll, PlaceFocus, ClearHiddenFocus, Inv, FocusVisible;
    ApplyAllKeeps(Start(s), response.commands, advertised);
    var p := ApplyAll(Start(s), response.commands, advertised).value;
    PlaceFocusKeeps(p.candidate, p.focus);
    ClearHiddenFocusKeeps(PlaceFocus(p.candidate, p.focus).value);
  }

  /** A requested focus is on the output that shows its surface, and clearing hidden focuses keeps it. */
  lemma FocusTakesEffect(s: State, response: Response, advertised: seq<SessionAction>)
    requires Inv(s) && PlanResponse(s, response, advertised).Ok?
    requires PlanResponse(s, response, advertised).value.layout.focus.Some?
    ensures var plan := PlanResponse(s, response, advertised).value;
      exists o :: o in plan.candidate.outputs && plan.candidate.outputs[o].focus == plan.layout.focus
  {
    hide ApplyAll, Inv;
    var p := ApplyAll(Start(s), response.commands, advertised).value;
    var o := OutputForWorkspace(p.candidate.outputs, p.candidate.surfaces[p.focus.value]).value;
    assert o in Showing(p.candidate.outputs, p.candidate.surfaces[p.focus.value]);
    var plan := PlanResponse(s, response, advertised).value;
    assert plan.candidate.outputs[o].focus == plan.layout.focus;
  }

  /** What different outputs show is disjoint, so no surface has the focus on two outputs. */
  lemma VisibleIsDisjoint(s: State, a: Output, b: Output)
    requires Inv(s) && a in s.outputs && b in s.outputs && a != b
    ensures VisibleSurfaces(s, a).Ok? && VisibleSurfaces(s, b).Ok?
    ensures VisibleSurfaces(s, a).value !! VisibleSurfaces(s, b).value
    ensures FocusVisible(s) && s.outputs[a].focus.Some? ==>
      s.outputs[a].focus.value in VisibleSurfaces(s, a).value && s.outputs[a].focus != s.outputs[b].focus
  {
  }

  // ---------------------------------------------------------------- runs

  datatype Op =
    | OpRegister(surface: Surface, workspace: Workspace)
    | OpRemove(surface: Surface)
    | OpAcceptPlan(response: Response, advertised: seq<SessionAction>)

  function Step(s: State, op: Op): State {
    match op
    case OpRegister(surface, workspace) =>
      var r := RegisterSurface(s, surface, workspace); if r.Ok? then r.value else s
    case OpRemove(surface) => RemoveSurface(s, surface)
    case OpAcceptPlan(response, advertised) =>
      var r := PlanResponse(s, response, advertised); if r.Ok? then r.value.candidate else s
  }

  function Run(s: State, ops: seq<Op>): State
    decreases |ops|
  {
    if ops == [] then s else Run(Step(s, ops[0]), ops[1..])
  }

  lemma {:induction false} RunStaysInjective(s: State, ops: seq<Op>)
    requires Inv(s)
    ensures Inv(Run(s, ops)) && Run(s, ops).outputs.Keys == s.outputs.Keys
    decreases |ops|
  {
    hide PlanResponse;
    if ops != [] {
      if ops[0].OpAcceptPlan? && PlanResponse(s, ops[0].response, ops[0].advertised).Ok? {
        PlanKeeps(s, ops[0].response, ops[0].advertised);
      }
      RunStaysInjective(Step(s, ops[0]), ops[1..]);
    }
  }

  // ---------------------------------------------------------------- focus over runs

  /** The call moves a registered or new surface away from an output that has the focus on it. */
  predicate HidesFocus(s: State, op: Op) {
    && op.OpRegister?
    && RegisterSurface(s, op.surface, op.workspace).Ok?
    && exists o :: o in s.outputs && s.outputs[o].focus == Some(op.surface) && s.outputs[o].workspace != op.workspace
  }

  /** From a state whose focuses are visible, exactly the calls that hide one lead to a hidden focus. */
  lemma StepKeepsFocusVisibleIff(s: State, op: Op)
    requires Inv(s) && FocusVisible(s)
    ensures FocusVisible(Step(s, op)) <==> !HidesFocus(s, op)
  {
    hide PlanResponse;
    match op
    case OpRegister(surface, workspace) =>
      var s' := Step(s, op);
      if HidesFocus(s, op) {
        var o :| o in s.outputs && s.outputs[o].focus == Some(surface) && s.outputs[o].workspace != workspace;
        assert s'.outputs[o].focus == Some(surface);
      }
    case OpRemove(surface) =>
    case OpAcceptPlan(response, advertised) =>
      if PlanResponse(s, response, advertised).Ok? {
        PlanKeeps(s, response, advertised);
      }
  }

  /** After every step of the run every focus is on the workspace its output shows. */
  ghost predicate FocusStaysVisible(s: State, ops: seq<Op>)
    decreases |ops|
  {
    ops == [] || (FocusVisible(Step(s, ops[0])) && FocusStaysVisible(Step(s, ops[0]), ops[1..]))
  }

  predicate NeverHidesFocus(s: State, ops: seq<Op>)
    decreases |ops|
  {
    ops == [] || (!HidesFocus(s, ops[0]) && NeverHidesFocus(Step(s, ops[0]), ops[1..]))
  }

  /** Focuses stay visible through a run if and only if no call of it moves a focused surface away. */
  lemma {:induction false} RunKeepsFocusVisibleIff(s: State, ops: seq<Op>)
    requires Inv(s) && FocusVisible(s)
    ensures FocusStaysVisible(s, ops) <==> NeverHidesFocus(s, ops)
    decreases |ops|
  {
    hide Inv, FocusVisible, Step, HidesFocus;
    if ops != [] {
      StepKeepsFocusVisibleIff(s, ops[0]);
      RunStaysInjective(s, ops[..1]);
      assert Run(s, ops[..1]) == Step(s, ops[0]);
      if !HidesFocus(s, ops[0]) {
        RunKeepsFocusVisibleIff(Step(s, ops[0]), ops[1..]);
      }
    }
  }

  /** One output, two workspaces: a surface is registered and focused, then registered on the other workspace. */
  const HiddenFocusOps := [
    OpRegister(5, 1),
    OpAcceptPlan(Response(1, [FocusSurface(5)], 300), []),
    OpRegister(5, 2)]

  lemma HiddenFocusExample()
    ensures var start := New([(1, Rect(0, 0, 640, 480))], 2);
      && start.Ok?
      && !NeverHidesFocus(start.value, HiddenFocusOps)
      && var end := Run(start.value, HiddenFocusOps);
      1 in end.outputs && end.outputs[1] == OutputState(Rect(0, 0, 640, 480), 1, Some(5)) && end.surfaces == map[5 := 2]
  {
    var bounds := Rect(0, 0, 640, 480);
    var start := State([1, 2], map[1 := OutputState(bounds, 1, None)], map[]);
    NewExample(bounds);
    var registered := start.(surfaces := map[5 := 1]);
    var focused := registered.(outputs := map[1 := OutputState(bounds, 1, Some(5))]);
    assert Step(start, HiddenFocusOps[0]) == registered;
    FocusExample(bounds);
    assert Step(registered, HiddenFocusOps[1]) == focused;
    assert HidesFocus(focused, HiddenFocusOps[2]) by {
      assert 1 in focused.outputs && focused.outputs[1].focus == Some(5) && focused.outputs[1].workspace != 2;
    }
    ThreeSteps(start, HiddenFocusOps);
  }

  lemma NewExample(bounds: Rect)
    requires !IsEmptyRect(bounds)
    ensures New([(1, bounds)], 2) == Ok(State([1, 2], map[1 := OutputState(bounds, 1, None)], map[]))
  {
    var outputs, ids := [(1, bounds)], WorkspaceIds(2);
    assert ids == [1, 2];
    assert Configure(outputs, ids, 1, map[1 := OutputState(bounds, 1, None)]) == Ok(map[1 := OutputState(bounds, 1, None)]);
    assert Configure(outputs, ids, 0, map[]) == Configure(outputs, ids, 1, map[][1 := OutputState(bounds, 1, None)]);
  }

  lemma FocusExample(bounds: Rect)
    ensures var s := State([1, 2], map[1 := OutputState(bounds, 1, None)], map[5 := 1]);
      var plan := PlanResponse(s, Response(1, [FocusSurface(5)], 300), []);
      plan.Ok? && plan.value.candidate == s.(outputs := map[1 := OutputState(bounds, 1, Some(5))])
  {
    var s := State([1, 2], map[1 := OutputState(bounds, 1, None)], map[5 := 1]);
    var commands := [FocusSurface(5)];
    var p := Start(s).(focus := Some(5));
    assert Apply(Start(s), commands[0], []) == Ok(p);
    assert commands[1..] == [];
    assert ApplyAll(Start(s), commands, []) == Ok(p);
    assert 1 in Showing(s.outputs, 1);
    assert Showing(s.outputs, 1) == {1};
    assert OutputForWorkspace(s.outputs, 1) == Some(1);
    var placed := s.(outputs := map[1 := OutputState(bounds, 1, Some(5))]);
    assert s.outputs[1 := OutputState(bounds, 1, Some(5))] == placed.outputs;
    assert PlaceFocus(s, Some(5)) == Ok(placed);
    assert ClearHiddenFocus(placed) == placed;
  }

  lemma ThreeSteps(s: State, ops: seq<Op>)
    requires |ops| == 3
    ensures var s1 := Step(s, ops[0]);
      var s2 := Step(s1, ops[1]);
      && Run(s, ops) == Step(s2, ops[2])
      && (NeverHidesFocus(s, ops) <==>
            !HidesFocus(s, ops[0]) && !HidesFocus(s1, ops[1]) && !HidesFocus(s2, ops[2]))
  {
    hide Step, HidesFocus;
    var s1 := Step(s, ops[0]);
    var s2 := Step(s1, ops[1]);
    FirstStep(s, ops);
    FirstStep(s1, ops[1..]);
    FirstStep(s2, ops[2..]);
    assert ops[1..][1..] == ops[2..] && ops[2..][1..] == [];
  }

  lemma FirstStep(s: State, ops: seq<Op>)
    requires ops != []
    ensures Run(s, ops) == Run(Step(s, ops[0]), ops[1..])
    ensures NeverHidesFocus(s, ops) <==> !HidesFocus(s, ops[0]) && NeverHidesFocus(Step(s, ops[0]), ops[1..])
  {
    hide Step, HidesFocus;
  }
}
