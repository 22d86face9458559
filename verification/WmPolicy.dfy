/** The policy state as an object: updated in place, and cloned by planning into a candidate it works on. */
module WmPolicy {
  import opened Basics
  import opened WmPolicyModel

  class WmWorkspaceState {
    const workspaces: seq<Workspace>
    var outputs: map<Output, OutputState>
    var surfaces: map<Surface, Workspace>

    function Abs(): State
      reads this
    {
      State(workspaces, outputs, surfaces)
    }

    /** A copy of a state's fields. */
    constructor From(s: State)
      ensures Abs() == s
    {
      workspaces, outputs, surfaces := s.workspaces, s.outputs, s.surfaces;
    }

    static method New(outputs: seq<(Output, Rect)>, workspaceCount: nat) returns (r: Result<WmWorkspaceState, Error>)
      ensures var spec := WmPolicyModel.New(outputs, workspaceCount);
        && (r.Ok? <==> spec.Ok?) && (r.Err? ==> r.error == spec.error)
        && (r.Ok? ==> fresh(r.value) && r.value.Abs() == spec.value && Inv(r.value.Abs()) && FocusVisible(r.value.Abs()))
    {
      hide Inv, FocusVisible;
      if workspaceCount == 0 || workspaceCount > MAX_WORKSPACES {
        return Err(InvalidWorkspaceCount);
      }
      var workspaces := WorkspaceIds(workspaceCount);
      var configured: map<Output, OutputState> := map[];
      var index := 0;
      while index < |outputs|
        invariant 0 <= index <= |outputs|
        invariant Configure(outputs, workspaces, index, configured) == Configure(outputs, workspaces, 0, map[])
      {
        var (output, bounds) := outputs[index];
        if output == 0 {
          return Err(InvalidOutput);
        }
        if IsEmptyRect(bounds) {
          return Err(InvalidOutputBounds);
        }
        if index >= |workspaces| {
          return Err(InvalidWorkspaceCount);
        }
        if output in configured {
          return Err(DuplicateOutput);
        }
        configured := configured[output := OutputState(bounds, workspaces[index], None)];
        index := index + 1;
      }
      if configured == map[] {
        return Err(InvalidOutput);
      }
      NewIsInjective(outputs, workspaceCount);
      var state := new WmWorkspaceState.From(State(workspaces, configured, map[]));
      return Ok(state);
    }

    method Register(surface: Surface, workspace: Workspace) returns (r: Result<Unit, Error>)
      modifies this
      ensures var spec := RegisterSurface(old(Abs()), surface, workspace);
        && Abs() == (if spec.Ok? then spec.value else old(Abs()))
        && (r.Ok? <==> spec.Ok?) && (r.Err? ==> r.error == spec.error)
    {
      if surface == 0 {
        return Err(UnknownSurface);
      }
      if workspace !in workspaces {
        return Err(UnknownWorkspace);
      }
      surfaces := surfaces[surface := workspace];
      return Ok(Unit.Unit);
    }

    method Remove(surface: Surface) returns (removed: bool)
      modifies this
      ensures Abs() == RemoveSurface(old(Abs()), surface) && removed == (surface in old(surfaces))
    {
      removed := surface in surfaces;
      surfaces := surfaces - {surface};
      var rest := outputs.Keys;
      while rest != {}
        invariant rest <= old(outputs).Keys && outputs.Keys == old(outputs).Keys
        invariant forall o :: o in outputs ==>
          outputs[o] == (if o !in rest && old(outputs)[o].focus == Some(surface)
                         then old(outputs)[o].(focus := None) else old(outputs)[o])
        invariant surfaces == old(surfaces) - {surface}
        decreases |rest|
      {
        var o :| o in rest;
        if outputs[o].focus == Some(surface) {
          outputs := outputs[o := outputs[o].(focus := None)];
        }
        rest := rest - {o};
      }
    }

    method ActivateWorkspace(output: Output, workspace: Workspace) returns (r: Result<Unit, Error>)
      modifies this
      ensures surfaces == old(surfaces)
      ensures var spec := Activate(old(outputs), output, workspace);
        && outputs == (if spec.Ok? then spec.value else old(outputs))
        && (r.Ok? <==> spec.Ok?) && (r.Err? ==> r.error == spec.error)
    {
      if output !in outputs {
        return Err(UnknownOutput);
      }
      var previous := outputs[output].workspace;
      if previous == workspace {
        return Ok(Unit.Unit);
      }
      var other := OutputForWorkspace(outputs, workspace);
      if other.Some? {
        outputs := outputs[other.value := outputs[other.value].(workspace := previous)];
      }
      outputs := outputs[output := outputs[output].(workspace := workspace)];
      return Ok(Unit.Unit);
    }

    predicate HidesFocus(o: Output)
      requires o in outputs
      reads this
    {
      && outputs[o].focus.Some?
      && !(outputs[o].focus.value in surfaces && surfaces[outputs[o].focus.value] == outputs[o].workspace)
    }

    method ClearHidden()
      modifies this
      ensures Abs() == ClearHiddenFocus(old(Abs()))
    {
      var rest := outputs.Keys;
      while rest != {}
        invariant rest <= old(outputs).Keys && outputs.Keys == old(outputs).Keys && surfaces == old(surfaces)
        invariant forall o :: o in outputs ==>
          outputs[o] == (if o !in rest && old(HidesFocus(o)) then old(outputs)[o].(focus := None) else old(outputs)[o])
        decreases |rest|
      {
        var o :| o in rest;
        if HidesFocus(o) {
          outputs := outputs[o := outputs[o].(focus := None)];
        }
        rest := rest - {o};
      }
    }

    /** One command against the candidate; the accumulators are passed and returned as they are. */
    method ApplyCommand(p: Progress, c: Command, advertised: seq<SessionAction>) returns (r: Result<Progress, Error>)
      requires p.candidate == Abs()
      modifies this
      ensures r == Apply(p, c, advertised)
      ensures r.Ok? ==> r.value.candidate == Abs()
    {
      match c {
        case ConfigureSurface(request) =>
          if request.surface !in surfaces {
            return Err(UnknownSurface);
          }
          if request.surface in p.configuredSurfaces {
            return Err(DuplicateSurfaceCommand);
          }
          return Ok(p.(configuredSurfaces := p.configuredSurfaces + {request.surface},
                       requestedSizes := p.requestedSizes + [request]));
        case RenderSurface(placement) =>
          if placement.surface !in surfaces {
            return Err(UnknownSurface);
          }
          if placement.surface in p.renderedSurfaces {
            return Err(DuplicateSurfaceCommand);
          }
          return Ok(p.(renderedSurfaces := p.renderedSurfaces + {placement.surface},
                       renderPositions := p.renderPositions + [placement]));
        case AssignWorkspace(surface, workspace) =>
          if surface !in surfaces {
            return Err(UnknownSurface);
          }
          if workspace !in workspaces {
            return Err(UnknownWorkspace);
          }
          if surface in p.assignedSurfaces {
            return Err(DuplicateSurfaceCommand);
          }
          surfaces := surfaces[surface := workspace];
          return Ok(p.(assignedSurfaces := p.assignedSurfaces + {surface}, candidate := Abs()));
        case ActivateWorkspace(output, workspace) =>
          if workspace !in workspaces {
            return Err(UnknownWorkspace);
          }
          if output in p.activatedOutputs {
            return Err(DuplicateOutputCommand);
          }
          var activated := ActivateWorkspace(output, workspace);
          if activated.Err? {
            return Err(activated.error);
          }
          return Ok(p.(activatedOutputs := p.activatedOutputs + {output}, candidate := Abs()));
        case FocusSurface(surface) =>
          if surface !in surfaces {
            return Err(UnknownSurface);
          }
          if p.focus.Some? {
            return Err(DuplicateFocusCommand);
          }
          return Ok(p.(focus := Some(surface)));
        case RequestSessionAction(action, target) =>
          if p.sessionAction.Some? {
            return Err(DuplicateSessionAction);
          }
          if action !in advertised {
            return Err(UnadvertisedSessionAction);
          }
          if target.Some? && target.value !in surfaces {
            return Err(UnknownSurface);
          }
          if action != CloseFocused && target.Some? {
            return Err(InvalidSessionActionTarget);
          }
          return Ok(p.(sessionAction := Some(ActionRequest(action, target))));
      }
    }

    /** Plans a response on a clone; the state itself is not touched. */
    method PlanFor(response: Response, advertised: seq<SessionAction>) returns (r: Result<Plan, Error>)
      ensures r == PlanResponse(Abs(), response, advertised)
    {
      hide Apply, ClearHiddenFocus;
      var candidate := new WmWorkspaceState.From(Abs());
      var p := Start(Abs());
      var i := 0;
      while i < |response.commands|
        invariant 0 <= i <= |response.commands|
        invariant p.candidate == candidate.Abs()
        invariant ApplyAll(p, response.commands[i..], advertised) == ApplyAll(Start(Abs()), response.commands, advertised)
        invariant fresh(candidate)
      {
        assert response.commands[i..][1..] == response.commands[i + 1..];
        var next := candidate.ApplyCommand(p, response.commands[i], advertised);
        if next.Err? {
          return Err(next.error);
        }
        p := next.value;
        i := i + 1;
      }
      if p.focus.Some? {
        if p.focus.value !in candidate.surfaces {
          return Err(UnknownSurface);
        }
        var output := OutputForWorkspace(candidate.outputs, candidate.surfaces[p.focus.value]);
        if output.None? {
          return Err(HiddenFocus);
        }
        candidate.outputs := candidate.outputs[output.value := candidate.outputs[output.value].(focus := p.focus)];
      }
      candidate.ClearHidden();
      var planned := candidate.Abs();
      return Ok(Plan(
        response.transaction,
        planned,
        Layout(response.transaction, p.requestedSizes, p.focus, p.renderPositions, response.timeoutMsec),
        Ascending(ChangedOutputs(Abs(), planned)),
        p.sessionAction));
    }
  }
}
