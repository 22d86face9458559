/**
 The demo window manager: the tiler, and the encoding of its layouts as responses. The encoding is
 undone by the engine's planning, exactly when the layout is one the engine can accept.
 */
module WmDemo {
  import opened Basics
  import opened WmPolicyModel

  // ---------------------------------------------------------------- encoding a layout as a response

  function AssignCommands(placements: seq<Placement>, workspace: Workspace): seq<Command> {
    seq(|placements|, i requires 0 <= i < |placements| => AssignWorkspace(placements[i].surface, workspace))
  }

  function ConfigureCommands(requests: seq<SizeRequest>): seq<Command> {
    seq(|requests|, i requires 0 <= i < |requests| => ConfigureSurface(requests[i]))
  }

  function FocusCommands(focus: Option<Surface>): seq<Command> {
    if focus.Some? then [FocusSurface(focus.value)] else []
  }

  function RenderCommands(placements: seq<Placement>): seq<Command> {
    seq(|placements|, i requires 0 <= i < |placements| => RenderSurface(placements[i]))
  }

  /** The window manager's encoding: assignments, sizes, focus, then positions. */
  function ResponseOf(layout: Layout, assignedWorkspace: Option<Workspace>): Response {
    Response(
      layout.transaction,
      (if assignedWorkspace.Some? then AssignCommands(layout.renderPositions, assignedWorkspace.value) else [])
      + ConfigureCommands(layout.requestedSizes)
      + FocusCommands(layout.focus)
      + RenderCommands(layout.renderPositions),
      layout.timeoutMsec)
  }

  function RequestSurfaces(requests: seq<SizeRequest>): seq<Surface> {
    seq(|requests|, i requires 0 <= i < |requests| => requests[i].surface)
  }

  function PlacementSurfaces(placements: seq<Placement>): seq<Surface> {
    seq(|placements|, i requires 0 <= i < |placements| => placements[i].surface)
  }

  /** All different, all registered, and none of them seen before. */
  ghost predicate Fresh(xs: seq<Surface>, registered: map<Surface, Workspace>, seen: set<Surface>) {
    Distinct(xs) && forall x :: x in xs ==> x in registered && x !in seen
  }

  function AssignAll(surfaces: map<Surface, Workspace>, xs: seq<Surface>, workspace: Workspace): map<Surface, Workspace> {
    map x | x in surfaces :: if x in xs then workspace else surfaces[x]
  }

  lemma {:induction false} ApplyAllConcat(p: Progress, a: seq<Command>, b: seq<Command>, advertised: seq<SessionAction>)
    ensures ApplyAll(p, a + b, advertised) ==
      match ApplyAll(p, a, advertised) { case Err(e) => Err(e) case Ok(p') => ApplyAll(p', b, advertised) }
    decreases |a|
  {
    hide Apply;
    if a == [] {
      assert a + b == b;
    } else {
      assert (a + b)[1..] == a[1..] + b;
      if Apply(p, a[0], advertised).Ok? {
        ApplyAllConcat(Apply(p, a[0], advertised).value, a[1..], b, advertised);
      }
    }
  }

  lemma FreshTail(xs: seq<Surface>, registered: map<Surface, Workspace>, seen: set<Surface>)
    requires xs != []
    ensures Fresh(xs, registered, seen) <==>
      xs[0] in registered && xs[0] !in seen && Fresh(xs[1..], registered, seen + {xs[0]})
  {
    if xs[0] in registered && xs[0] !in seen && Fresh(xs[1..], registered, seen + {xs[0]}) {
      forall i, j | 0 <= i < j < |xs| ensures xs[i] != xs[j] {
        assert xs[j] == xs[1..][j - 1] && xs[j] in xs[1..];
        if i > 0 {
          assert xs[i] == xs[1..][i - 1];
        }
      }
    }
    if Fresh(xs, registered, seen) {
      assert forall i :: 0 <= i < |xs| - 1 ==> xs[1..][i] == xs[i + 1];
    }
  }

  lemma {:induction false} RenderAll(p: Progress, placements: seq<Placement>, advertised: seq<SessionAction>)
    ensures var r := ApplyAll(p, RenderCommands(placements), advertised);
      && (r.Ok? <==> Fresh(PlacementSurfaces(placements), p.candidate.surfaces, p.renderedSurfaces))
      && (r.Ok? ==> r.value == p.(
            renderPositions := p.renderPositions + placements, renderedSurfaces := r.value.renderedSurfaces))
    decreases |placements|
  {
    hide Fresh;
    var xs := PlacementSurfaces(placements);
    if placements == [] {
      EmptyIsFresh(p.candidate.surfaces, p.renderedSurfaces);
      assert p.renderPositions + placements == p.renderPositions;
    } else {
      FreshTail(xs, p.candidate.surfaces, p.renderedSurfaces);
      assert PlacementSurfaces(placements[1..]) == xs[1..];
      assert RenderCommands(placements)[1..] == RenderCommands(placements[1..]);
      var first := Apply(p, RenderSurface(placements[0]), advertised);
      if first.Ok? {
        RenderAll(first.value, placements[1..], advertised);
        assert p.renderPositions + placements == p.renderPositions + [placements[0]] + placements[1..];
      }
    }
  }

  lemma EmptyIsFresh(registered: map<Surface, Workspace>, seen: set<Surface>)
    ensures Fresh([], registered, seen)
  {
  }

  lemma {:induction false} ConfigureAll(p: Progress, requests: seq<SizeRequest>, advertised: seq<SessionAction>)
    ensures var r := ApplyAll(p, ConfigureCommands(requests), advertised);
      && (r.Ok? <==> Fresh(RequestSurfaces(requests), p.candidate.surfaces, p.configuredSurfaces))
      && (r.Ok? ==> r.value == p.(
            requestedSizes := p.requestedSizes + requests, configuredSurfaces := r.value.configuredSurfaces))
    decreases |requests|
  {
    hide Fresh;
    var xs := RequestSurfaces(requests);
    if requests == [] {
      EmptyIsFresh(p.candidate.surfaces, p.configuredSurfaces);
      assert p.requestedSizes + requests == p.requestedSizes;
    } else {
      FreshTail(xs, p.candidate.surfaces, p.configuredSurfaces);
      assert RequestSurfaces(requests[1..]) == xs[1..];
      assert ConfigureCommands(requests)[1..] == ConfigureCommands(requests[1..]);
      var first := Apply(p, ConfigureSurface(requests[0]), advertised);
      if first.Ok? {
        ConfigureAll(first.value, requests[1..], advertised);
        assert p.requestedSizes + requests == p.requestedSizes + [requests[0]] + requests[1..];
      }
    }
  }

  lemma {:induction false} AssignEach(p: Progress, placements: seq<Placement>, workspace: Workspace,
                                      advertised: seq<SessionAction>)
    ensures var xs := PlacementSurfaces(placements);
      var r := ApplyAll(p, AssignCommands(placements, workspace), advertised);
      && (r.Ok? <==>
            && Fresh(xs, p.candidate.surfaces, p.assignedSurfaces)
            && (xs != [] ==> workspace in p.candidate.workspaces))
      && (r.Ok? ==> r.value == p.(
            candidate := p.candidate.(surfaces := AssignAll(p.candidate.surfaces, xs, workspace)),
            assignedSurfaces := r.value.assignedSurfaces))
    decreases |placements|
  {
    hide Fresh;
    var xs := PlacementSurfaces(placements);
    if placements == [] {
      EmptyIsFresh(p.candidate.surfaces, p.assignedSurfaces);
      assert AssignAll(p.candidate.surfaces, xs, workspace) == p.candidate.surfaces;
    } else {
      FreshTail(xs, p.candidate.surfaces, p.assignedSurfaces);
      assert PlacementSurfaces(placements[1..]) == xs[1..];
      assert AssignCommands(placements, workspace)[1..] == AssignCommands(placements[1..], workspace);
      var first := Apply(p, AssignWorkspace(placements[0].surface, workspace), advertised);
      if first.Ok? {
        AssignEach(first.value, placements[1..], workspace, advertised);
        FreshSameKeys(xs[1..], p.candidate.surfaces, first.value.candidate.surfaces, first.value.assignedSurfaces);
        assert AssignAll(first.value.candidate.surfaces, xs[1..], workspace) == AssignAll(p.candidate.surfaces, xs, workspace);
      }
    }
  }

  lemma FreshSameKeys(xs: seq<Surface>, a: map<Surface, Workspace>, b: map<Surface, Workspace>, seen: set<Surface>)
    requires a.Keys == b.Keys
    ensures Fresh(xs, a, seen) <==> Fresh(xs, b, seen)
  {
    if Fresh(xs, a, seen) {
      assert forall x :: x in xs ==> x in a.Keys;
    }
    if Fresh(xs, b, seen) {
      assert forall x :: x in xs ==> x in b.Keys;
    }
  }

  /** Where the surfaces are once the encoded assignments are done. */
  function SurfacesAfter(s: State, layout: Layout, assignedWorkspace: Option<Workspace>): map<Surface, Workspace> {
    if assignedWorkspace.Some? then
      AssignAll(s.surfaces, PlacementSurfaces(layout.renderPositions), assignedWorkspace.value)
    else s.surfaces
  }

  /**
   The layouts the engine accepts: placed surfaces distinct and registered, resized surfaces likewise, a
   known workspace to assign to, and a focus that ends up on a workspace some output shows.
   */
  ghost predicate Plannable(s: State, layout: Layout, assignedWorkspace: Option<Workspace>) {
    && Fresh(PlacementSurfaces(layout.renderPositions), s.surfaces, {})
    && Fresh(RequestSurfaces(layout.requestedSizes), s.surfaces, {})
    && (assignedWorkspace.Some? && layout.renderPositions != [] ==> assignedWorkspace.value in s.workspaces)
    && (layout.focus.Some? ==>
          && layout.focus.value in s.surfaces
          && Showing(s.outputs, SurfacesAfter(s, layout, assignedWorkspace)[layout.focus.value]) != {})
  }

  /** The encoded commands as a whole: accepted exactly for these layouts, and accumulating the layout. */
  lemma ApplyEncoded(s: State, layout: Layout, assignedWorkspace: Option<Workspace>, advertised: seq<SessionAction>)
    ensures var r := ApplyAll(Start(s), ResponseOf(layout, assignedWorkspace).commands, advertised);
      && (r.Ok? <==>
            && Fresh(PlacementSurfaces(layout.renderPositions), s.surfaces, {})
            && Fresh(RequestSurfaces(layout.requestedSizes), s.surfaces, {})
            && (assignedWorkspace.Some? && layout.renderPositions != [] ==> assignedWorkspace.value in s.workspaces)
            && (layout.focus.Some? ==> layout.focus.value in s.surfaces))
      && (r.Ok? ==>
            && r.value.candidate == s.(surfaces := SurfacesAfter(s, layout, assignedWorkspace))
            && r.value.requestedSizes == layout.requestedSizes
            && r.value.renderPositions == layout.renderPositions
            && r.value.focus == layout.focus
            && r.value.sessionAction.None?)
  {
    hide Fresh, ApplyAll;
    var positions, sizes := layout.renderPositions, layout.requestedSizes;
    var a := if assignedWorkspace.Some? then AssignCommands(positions, assignedWorkspace.value) else [];
    var b, c, d := ConfigureCommands(sizes), FocusCommands(layout.focus), RenderCommands(positions);
    ApplyAllConcat(Start(s), a + b + c, d, advertised);
    ApplyAllConcat(Start(s), a + b, c, advertised);
    ApplyAllConcat(Start(s), a, b, advertised);
    ApplyNone(Start(s), advertised);
    if assignedWorkspace.Some? {
      AssignEach(Start(s), positions, assignedWorkspace.value, advertised);
    }
    var p1 := ApplyAll(Start(s), a, advertised);
    if p1.Ok? {
      SurfacesKept(s, layout, assignedWorkspace);
      FreshSameKeys(RequestSurfaces(sizes), s.surfaces, p1.value.candidate.surfaces, {});
      FreshSameKeys(PlacementSurfaces(positions), s.surfaces, p1.value.candidate.surfaces, {});
      ConfigureAll(p1.value, sizes, advertised);
      var p2 := ApplyAll(p1.value, b, advertised);
      if p2.Ok? {
        FocusOnce(p2.value, layout.focus, advertised);
        var p3 := ApplyAll(p2.value, c, advertised);
        if p3.Ok? {
          RenderAll(p3.value, positions, advertised);
        }
      }
    }
  }

  lemma ApplyNone(p: Progress, advertised: seq<SessionAction>)
    ensures ApplyAll(p, [], advertised) == Ok(p)
  {
  }

  lemma FocusOnce(p: Progress, focus: Option<Surface>, advertised: seq<SessionAction>)
    requires p.focus.None?
    ensures var r := ApplyAll(p, FocusCommands(focus), advertised);
      && (r.Ok? <==> focus.Some? ==> focus.value in p.candidate.surfaces)
      && (r.Ok? ==> r.value == p.(focus := focus))
  {
  }

  lemma SurfacesKept(s: State, layout: Layout, assignedWorkspace: Option<Workspace>)
    ensures SurfacesAfter(s, layout, assignedWorkspace).Keys == s.surfaces.Keys
  {
  }

  /** Planning undoes the encoding: it succeeds exactly for the plannable layouts and gives the layout back. */
  lemma RoundTrip(s: State, layout: Layout, assignedWorkspace: Option<Workspace>, advertised: seq<SessionAction>)
    ensures var r := PlanResponse(s, ResponseOf(layout, assignedWorkspace), advertised);
      && (r.Ok? <==> Plannable(s, layout, assignedWorkspace))
      && (r.Ok? ==>
            && r.value.layout == layout
            && r.value.transaction == layout.transaction
            && r.value.candidate.surfaces == SurfacesAfter(s, layout, assignedWorkspace)
            && r.value.sessionAction.None?)
  {
    hide ApplyAll, Fresh;
    ApplyEncoded(s, layout, assignedWorkspace, advertised);
    SurfacesKept(s, layout, assignedWorkspace);
  }

  // ---------------------------------------------------------------- the tiler

  datatype Node = Node(
    surface: Surface,
    workspace: Workspace,
    visible: bool,
    focusable: bool,
    minSize: Option<Size>,
    maxSize: Option<Size>)

  const TIMEOUT_MSEC: U32 := 300

  function EmptyLayout(transaction: nat): Layout {
    Layout(transaction, [], None, [], TIMEOUT_MSEC)
  }

  function VisibleNodes(nodes: seq<Node>, workspace: Workspace): (r: seq<Node>)
    ensures forall n :: n in r ==> n in nodes && n.workspace == workspace && n.visible
  {
    if nodes == [] then []
    else
      var rest := VisibleNodes(nodes[1..], workspace);
      if nodes[0].workspace == workspace && nodes[0].visible then [nodes[0]] + rest else rest
  }

  function ClampSize(size: Size, minSize: Option<Size>, maxSize: Option<Size>): Size {
    var grown := if minSize.Some? then
                   Size(Max(size.width, minSize.value.width), Max(size.height, minSize.value.height))
                 else size;
    if maxSize.Some? then Size(Min(grown.width, maxSize.value.width), Min(grown.height, maxSize.value.height)) else grown
  }

  /** The x coordinate of tile `i` of `n`. */
  function TileX(bounds: Rect, n: nat, i: int): int
    requires n > 0
  {
    bounds.x + (bounds.width / n) * i
  }

  /** Tile `i` of `n`: equal widths, the last one taking what is left, and never narrower than a pixel. */
  function TileWidth(bounds: Rect, n: nat, i: int): int
    requires n > 0
  {
    Max(1, if i == n - 1 then bounds.x + bounds.width - TileX(bounds, n, i) else bounds.width / n)
  }

  /** Tiling computes in `i32`: the right edge of the bounds is the one result that can leave it. */
  predicate Fits(bounds: Rect) {
    bounds.x + bounds.width <= I32_MAX
  }

  lemma TileInside(bounds: Rect, n: nat, i: int)
    requires 0 < n && 0 <= i < n && bounds.width > 0
    ensures bounds.x <= TileX(bounds, n, i)
    ensures TileX(bounds, n, i) + bounds.width / n <= bounds.x + bounds.width
    ensures 0 <= bounds.width / n <= bounds.width
  {
    QuotientFits(bounds.width, n, i);
  }

  lemma QuotientFits(width: int, n: nat, i: int)
    requires 0 < n && 0 <= i < n && 0 <= width
    ensures 0 <= width / n <= width
    ensures 0 <= (width / n) * i && (width / n) * i + width / n <= width
  {
    var w := width / n;
    assert width == n * w + width % n;
    MulMonotone(0, i, w);
    MulMonotone(i + 1, n, w);
    MulMonotone(1, n, w);
  }

  function TileRect(bounds: Rect, n: nat, i: int): Rect
    requires 0 <= i < n && bounds.width > 0 && Fits(bounds)
  {
    TileInside(bounds, n, i);
    Rect(TileX(bounds, n, i), bounds.y, TileWidth(bounds, n, i), bounds.height)
  }

  function FirstFocusable(nodes: seq<Node>): Option<Surface> {
    if nodes == [] then None
    else if nodes[0].focusable then Some(nodes[0].surface)
    else FirstFocusable(nodes[1..])
  }

  function Request(node: Node, tile: Rect): SizeRequest {
    SizeRequest(node.surface, ClampSize(Size(tile.width, tile.height), node.minSize, node.maxSize))
  }

  function PlacementAt(bounds: Rect, shown: seq<Node>, i: int): Placement
    requires 0 <= i < |shown| && bounds.width > 0 && Fits(bounds)
  {
    Placement(shown[i].surface, TileRect(bounds, |shown|, i), i)
  }

  function RequestAt(bounds: Rect, shown: seq<Node>, i: int): SizeRequest
    requires 0 <= i < |shown| && bounds.width > 0 && Fits(bounds)
  {
    Request(shown[i], TileRect(bounds, |shown|, i))
  }

  function Placements(bounds: Rect, shown: seq<Node>): (r: seq<Placement>)
    requires bounds.width > 0 && Fits(bounds)
    ensures |r| == |shown|
    ensures forall i :: 0 <= i < |r| ==> r[i] == PlacementAt(bounds, shown, i)
  {
    seq(|shown|, i requires 0 <= i < |shown| => PlacementAt(bounds, shown, i))
  }

  function Requests(bounds: Rect, shown: seq<Node>): (r: seq<SizeRequest>)
    requires bounds.width > 0 && Fits(bounds)
    ensures |r| == |shown|
    ensures forall i :: 0 <= i < |r| ==> r[i] == RequestAt(bounds, shown, i)
  {
    seq(|shown|, i requires 0 <= i < |shown| => RequestAt(bounds, shown, i))
  }

  /** The tiling of the visible nodes over the bounds. */
  function Tiling(transaction: nat, bounds: Rect, shown: seq<Node>): Layout
    requires shown != [] && !IsEmptyRect(bounds) && Fits(bounds)
  {
    Layout(transaction, Requests(bounds, shown), FirstFocusable(shown), Placements(bounds, shown), TIMEOUT_MSEC)
  }

  /** Err is the arithmetic or conversion panic. */
  function Tile(transaction: nat, workspace: Workspace, bounds: Rect, nodes: seq<Node>): Result<Layout, Unit> {
    var shown := VisibleNodes(nodes, workspace);
    if shown == [] || IsEmptyRect(bounds) then Ok(EmptyLayout(transaction))
    else if |shown| > I32_MAX || !Fits(bounds) then Err(Unit.Unit)
    else Ok(Tiling(transaction, bounds, shown))
  }

  lemma FirstFocusableSnoc(nodes: seq<Node>, node: Node)
    ensures FirstFocusable(nodes + [node]) ==
      if FirstFocusable(nodes).Some? then FirstFocusable(nodes)
      else if node.focusable then Some(node.surface) else None
  {
    if nodes != [] {
      assert (nodes + [node])[1..] == nodes[1..] + [node];
    }
  }

  /** The geometry of one tile in checked `i32` arithmetic: None where an operation overflows. */
  function CheckedTile(bounds: Rect, n: nat, width: int, index: int): Option<Rect> {
    var offset := CheckedI32(width * index);
    if offset.None? then None
    else
      var x := CheckedI32(bounds.x + offset.value);
      if x.None? then None
      else if index + 1 < n then
        var tileWidth := CheckedI32(width);
        if tileWidth.None? then None else Some(Rect(x.value, bounds.y, Max(tileWidth.value, 1), bounds.height))
      else
        var right := CheckedI32(bounds.x + bounds.width);
        if right.None? then None
        else
          var tileWidth := CheckedI32(right.value - x.value);
          if tileWidth.None? then None else Some(Rect(x.value, bounds.y, Max(tileWidth.value, 1), bounds.height))
  }

  lemma CheckedTileIsExact(bounds: Rect, shown: seq<Node>, index: int)
    requires 0 <= index < |shown| && bounds.width > 0
    ensures var tile := CheckedTile(bounds, |shown|, bounds.width / |shown|, index);
      && (Fits(bounds) ==>
            && tile.Some?
            && Placement(shown[index].surface, tile.value, index) == PlacementAt(bounds, shown, index)
            && Request(shown[index], tile.value) == RequestAt(bounds, shown, index))
      && (index == |shown| - 1 && tile.Some? ==> Fits(bounds))
  {
    TileInside(bounds, |shown|, index);
  }

  /** The lists the loop has built are the tiling. */
  lemma TilingBuilt(transaction: nat, bounds: Rect, shown: seq<Node>, sizes: seq<SizeRequest>, positions: seq<Placement>)
    requires shown != [] && !IsEmptyRect(bounds) && Fits(bounds)
    requires |sizes| == |positions| == |shown|
    requires forall i :: 0 <= i < |shown| ==> positions[i] == PlacementAt(bounds, shown, i)
    requires forall i :: 0 <= i < |shown| ==> sizes[i] == RequestAt(bounds, shown, i)
    ensures Layout(transaction, sizes, FirstFocusable(shown), positions, TIMEOUT_MSEC) == Tiling(transaction, bounds, shown)
  {
    hide Placements, Requests, PlacementAt, RequestAt;
    assert positions == Placements(bounds, shown);
    assert sizes == Requests(bounds, shown);
  }

  /** The loop of the tiler; `ok` is false where its arithmetic would panic. */
  method TileNodes(bounds: Rect, shown: seq<Node>)
    returns (ok: bool, sizes: seq<SizeRequest>, positions: seq<Placement>, focus: Option<Surface>)
    requires shown != [] && bounds.width > 0
    ensures ok <==> Fits(bounds)
    ensures ok ==> |sizes| == |positions| == |shown| && focus == FirstFocusable(shown)
    ensures ok ==> forall i :: 0 <= i < |shown| ==> positions[i] == PlacementAt(bounds, shown, i)
    ensures ok ==> forall i :: 0 <= i < |shown| ==> sizes[i] == RequestAt(bounds, shown, i)
  {
    hide CheckedTile, Request, PlacementAt, RequestAt;
    var n := |shown|;
    var width := bounds.width / n;
    positions, sizes, focus := [], [], None;
    var index := 0;
    while index < n
      invariant 0 <= index <= n
      invariant |positions| == |sizes| == index
      invariant index == n ==> Fits(bounds)
      invariant Fits(bounds) ==> forall i :: 0 <= i < index ==> positions[i] == PlacementAt(bounds, shown, i)
      invariant Fits(bounds) ==> forall i :: 0 <= i < index ==> sizes[i] == RequestAt(bounds, shown, i)
      invariant focus == FirstFocusable(shown[..index])
    {
      CheckedTileIsExact(bounds, shown, index);
      var node := shown[index];
      var geometry := CheckedTile(bounds, n, width, index);
      if geometry.None? {
        ok := false;
        return;
      }
      if focus.None? && node.focusable {
        focus := Some(node.surface);
      }
      FirstFocusableSnoc(shown[..index], node);
      assert shown[..index + 1] == shown[..index] + [node];
      sizes := sizes + [Request(node, geometry.value)];
      positions := positions + [Placement(node.surface, geometry.value, index)];
      index := index + 1;
    }
    assert shown[..n] == shown;
    ok := true;
  }

  /** The tiler; Err is returned where its arithmetic would panic. */
  method TileWorkspace(transaction: nat, workspace: Workspace, bounds: Rect, nodes: seq<Node>) returns (r: Result<Layout, Unit>)
    ensures r == Tile(transaction, workspace, bounds, nodes)
  {
    var shown := VisibleNodes(nodes, workspace);
    if shown == [] || IsEmptyRect(bounds) {
      return Ok(EmptyLayout(transaction));
    }
    if |shown| > I32_MAX {
      return Err(Unit.Unit);
    }
    var ok, sizes, positions, focus := TileNodes(bounds, shown);
    if !ok {
      return Err(Unit.Unit);
    }
    TilingBuilt(transaction, bounds, shown, sizes, positions);
    return Ok(Layout(transaction, sizes, focus, positions, TIMEOUT_MSEC));
  }

  // ---------------------------------------------------------------- what is tiled

  /** The tiled nodes are exactly the visible ones of the workspace. */
  lemma {:induction false} VisibleNodesExact(nodes: seq<Node>, workspace: Workspace, n: Node)
    ensures n in VisibleNodes(nodes, workspace) <==> n in nodes && n.workspace == workspace && n.visible
  {
    if nodes != [] {
      VisibleNodesExact(nodes[1..], workspace, n);
    }
  }

  /** Visibility is decided node by node, so the tiled nodes keep their order. */
  lemma {:induction false} VisibleNodesOfConcat(a: seq<Node>, b: seq<Node>, workspace: Workspace)
    ensures VisibleNodes(a + b, workspace) == VisibleNodes(a, workspace) + VisibleNodes(b, workspace)
  {
    if a == [] {
      assert a + b == b;
    } else {
      assert (a + b)[0] == a[0] && (a + b)[1..] == a[1..] + b;
      VisibleNodesOfConcat(a[1..], b, workspace);
    }
  }

  /** The first focusable node gets the focus. */
  lemma {:induction false} FocusIsFirst(nodes: seq<Node>, k: nat)
    requires k < |nodes| && nodes[k].focusable && forall j :: 0 <= j < k ==> !nodes[j].focusable
    ensures FirstFocusable(nodes) == Some(nodes[k].surface)
  {
    if k > 0 {
      FocusIsFirst(nodes[1..], k - 1);
    }
  }

  /** A size between its bounds is kept; a larger one becomes the maximum, a smaller one the minimum. */
  lemma ClampKeepsWithin(size: Size, minSize: Option<Size>, maxSize: Option<Size>)
    requires minSize.Some? && maxSize.Some? ==>
      minSize.value.width <= maxSize.value.width && minSize.value.height <= maxSize.value.height
    ensures var c := ClampSize(size, minSize, maxSize);
      && c.width == (if maxSize.Some? && size.width > maxSize.value.width then maxSize.value.width
                     else if minSize.Some? && size.width < minSize.value.width then minSize.value.width else size.width)
      && c.height == (if maxSize.Some? && size.height > maxSize.value.height then maxSize.value.height
                      else if minSize.Some? && size.height < minSize.value.height then minSize.value.height else size.height)
  {
  }

  /** Contradicting bounds: the maximum wins. */
  lemma ClampPrefersMaximum(size: Size, minSize: Size, maxSize: Size)
    requires minSize.width > maxSize.width
    ensures ClampSize(size, Some(minSize), Some(maxSize)).width == maxSize.width
  {
  }

  /**
   The layout of the tiler: nothing for an empty workspace or empty bounds; otherwise one tile per visible
   node, in order, stacked in order, each asking its surface for the tile's size within the node's bounds.
   */
  lemma TileAnswers(transaction: nat, workspace: Workspace, bounds: Rect, nodes: seq<Node>)
    ensures var x := Tile(transaction, workspace, bounds, nodes);
      var shown := VisibleNodes(nodes, workspace);
      var nothing := shown == [] || bounds.width <= 0 || bounds.height <= 0;
      && (nothing ==> x == Ok(Layout(transaction, [], None, [], 300)))
      && (!nothing && x.Ok? ==>
            && bounds.x + bounds.width <= I32_MAX
            && x.value.transaction == transaction && x.value.timeoutMsec == 300
            && x.value.focus == FirstFocusable(shown)
            && |x.value.renderPositions| == |x.value.requestedSizes| == |shown|
            && (forall i :: 0 <= i < |shown| ==>
                  && x.value.renderPositions[i] == Placement(shown[i].surface, TileRect(bounds, |shown|, i), i)
                  && x.value.requestedSizes[i].surface == shown[i].surface
                  && var tile := TileRect(bounds, |shown|, i);
                  && x.value.requestedSizes[i].size ==
                       ClampSize(Size(tile.width, tile.height), shown[i].minSize, shown[i].maxSize)
                  && tile.y == bounds.y && tile.height == bounds.height))
  {
  }

  // ---------------------------------------------------------------- what the tiles cover

  ghost predicate InTile(bounds: Rect, n: nat, i: int, x: int)
    requires n > 0
  {
    TileX(bounds, n, i) <= x < TileX(bounds, n, i) + TileWidth(bounds, n, i)
  }

  ghost predicate Apart(bounds: Rect, n: nat, i: int, j: int)
    requires n > 0
  {
    TileX(bounds, n, i) + TileWidth(bounds, n, i) <= TileX(bounds, n, j)
  }

  lemma QuotientPositive(width: int, n: nat)
    requires 0 < n <= width
    ensures width / n >= 1
  {
  }

  lemma NextMultiple(w: int, i: int)
    ensures w * (i + 1) == w * i + w
  {
  }

  /** With at least a pixel per node, each tile ends exactly where the next begins. */
  lemma TilesAreConsecutive(bounds: Rect, n: nat, i: int)
    requires 0 < n <= bounds.width && 0 <= i < n
    ensures TileX(bounds, n, 0) == bounds.x
    ensures TileX(bounds, n, i) + TileWidth(bounds, n, i) ==
      if i == n - 1 then bounds.x + bounds.width else TileX(bounds, n, i + 1)
    ensures TileWidth(bounds, n, i) >= bounds.width / n >= 1
  {
    TileInside(bounds, n, i);
    QuotientPositive(bounds.width, n);
    NextMultiple(bounds.width / n, i);
  }

  lemma {:induction false} TilesAreOrdered(bounds: Rect, n: nat, i: int, j: int)
    requires 0 < n <= bounds.width && 0 <= i < j < n
    ensures Apart(bounds, n, i, j)
    decreases j - i
  {
    TilesAreConsecutive(bounds, n, i);
    if i + 1 < j {
      TilesAreConsecutive(bounds, n, i + 1);
      TilesAreOrdered(bounds, n, i + 1, j);
    }
  }

  /** The tiles are pairwise disjoint exactly when there is at least a pixel of width per node. */
  lemma TilesAreDisjointIff(bounds: Rect, n: nat)
    requires 0 < n && 0 < bounds.width
    ensures (forall i, j :: 0 <= i < j < n ==> Apart(bounds, n, i, j)) <==> n <= bounds.width
  {
    if n <= bounds.width {
      forall i, j | 0 <= i < j < n ensures Apart(bounds, n, i, j) {
        TilesAreOrdered(bounds, n, i, j);
      }
    } else {
      assert bounds.width / n == 0;
      assert TileX(bounds, n, 0) == TileX(bounds, n, n - 1) == bounds.x;
      assert !Apart(bounds, n, 0, n - 1);
    }
  }

  /** Some tile covers every column of the bounds, even when the tiles overlap. */
  lemma {:induction false} TilesCover(bounds: Rect, n: nat, i: int, x: int) returns (k: int)
    requires 0 < n && 0 <= i < n && 0 < bounds.width
    requires TileX(bounds, n, i) <= x < bounds.x + bounds.width
    ensures i <= k < n && InTile(bounds, n, k, x)
    decreases n - i
  {
    TileInside(bounds, n, i);
    if i == n - 1 || x < TileX(bounds, n, i) + bounds.width / n {
      k := i;
    } else {
      NextMultiple(bounds.width / n, i);
      k := TilesCover(bounds, n, i + 1, x);
    }
  }

  /** The tiles partition the bounds: every column lies in exactly one, and nothing lies outside. */
  lemma TilesPartition(bounds: Rect, n: nat, x: int)
    requires 0 < n <= bounds.width
    ensures bounds.x <= x < bounds.x + bounds.width <==> exists i :: 0 <= i < n && InTile(bounds, n, i, x)
    ensures forall i, j :: 0 <= i < n && 0 <= j < n && InTile(bounds, n, i, x) && InTile(bounds, n, j, x) ==> i == j
  {
    if bounds.x <= x < bounds.x + bounds.width {
      var k := TilesCover(bounds, n, 0, x);
    }
    forall i | 0 <= i < n && InTile(bounds, n, i, x) ensures bounds.x <= x < bounds.x + bounds.width {
      TileInside(bounds, n, i);
      TilesAreConsecutive(bounds, n, i);
    }
    forall i, j | 0 <= i < n && 0 <= j < n && InTile(bounds, n, i, x) && InTile(bounds, n, j, x) ensures i == j {
      if i < j {
        TilesAreOrdered(bounds, n, i, j);
      } else if j < i {
        TilesAreOrdered(bounds, n, j, i);
      }
    }
  }

  ghost predicate Inside(r: Rect, x: int, y: int) {
    r.x <= x < r.x + r.width && r.y <= y < r.y + r.height
  }

  /** The same for the rectangles the tiler hands out: each point of the bounds is in exactly one of them. */
  lemma TileRectsPartition(bounds: Rect, n: nat, x: int, y: int)
    requires 0 < n <= bounds.width && Fits(bounds)
    ensures Inside(bounds, x, y) <==> exists i :: 0 <= i < n && Inside(TileRect(bounds, n, i), x, y)
    ensures forall i, j :: 0 <= i < n && 0 <= j < n ==>
      (Inside(TileRect(bounds, n, i), x, y) && Inside(TileRect(bounds, n, j), x, y) ==> i == j)
  {
    hide TileX, TileWidth, InTile;
    TilesPartition(bounds, n, x);
    forall i | 0 <= i < n
      ensures Inside(TileRect(bounds, n, i), x, y) <==> InTile(bounds, n, i, x) && bounds.y <= y < bounds.y + bounds.height
    {
      InsideTile(bounds, n, i, x, y);
    }
    if Inside(bounds, x, y) {
      var i :| 0 <= i < n && InTile(bounds, n, i, x);
      assert Inside(TileRect(bounds, n, i), x, y);
    }
  }

  lemma InsideTile(bounds: Rect, n: nat, i: int, x: int, y: int)
    requires 0 <= i < n <= bounds.width && Fits(bounds)
    ensures Inside(TileRect(bounds, n, i), x, y) <==> InTile(bounds, n, i, x) && bounds.y <= y < bounds.y + bounds.height
  {
  }

  // ---------------------------------------------------------------- replies are accepted

  /** The replies to a relayout and to a new surface; Err is the panic. */
  function HandleRelayout(transaction: nat, workspace: Workspace, bounds: Rect, nodes: seq<Node>): Result<Response, Unit> {
    var layout := Tile(transaction, workspace, bounds, nodes);
    if layout.Err? then Err(Unit.Unit) else Ok(ResponseOf(layout.value, None))
  }

  function HandleManage(transaction: nat, workspace: Workspace, bounds: Rect, node: Node): Result<Response, Unit> {
    var layout := Tile(transaction, workspace, bounds, [node]);
    if layout.Err? then Err(Unit.Unit) else Ok(ResponseOf(layout.value, Some(workspace)))
  }

  function NodeSurfaces(nodes: seq<Node>): (xs: seq<Surface>)
    ensures |xs| == |nodes| && forall i :: 0 <= i < |xs| ==> xs[i] == nodes[i].surface
  {
    seq(|nodes|, i requires 0 <= i < |nodes| => nodes[i].surface)
  }

  lemma {:induction false} VisibleStayDistinct(nodes: seq<Node>, workspace: Workspace)
    requires Distinct(NodeSurfaces(nodes))
    ensures Distinct(NodeSurfaces(VisibleNodes(nodes, workspace)))
  {
    if nodes != [] {
      var rest := VisibleNodes(nodes[1..], workspace);
      assert forall i :: 0 <= i < |nodes| - 1 ==> NodeSurfaces(nodes[1..])[i] == NodeSurfaces(nodes)[i + 1];
      VisibleStayDistinct(nodes[1..], workspace);
      forall i | 0 <= i < |rest| ensures rest[i].surface != nodes[0].surface {
        assert rest[i] in rest;
        var j :| 0 <= j < |nodes[1..]| && nodes[1..][j] == rest[i];
        assert NodeSurfaces(nodes)[0] != NodeSurfaces(nodes)[j + 1];
      }
    }
  }

  lemma {:induction false} FirstFocusableIsShown(shown: seq<Node>)
    requires FirstFocusable(shown).Some?
    ensures exists n :: n in shown && n.focusable && n.surface == FirstFocusable(shown).value
  {
    if !shown[0].focusable {
      FirstFocusableIsShown(shown[1..]);
    }
  }

  /** The surfaces a tiling mentions are those of the visible nodes, once each in both lists. */
  lemma TilingMentionsShown(transaction: nat, bounds: Rect, shown: seq<Node>)
    requires shown != [] && !IsEmptyRect(bounds) && Fits(bounds)
    ensures PlacementSurfaces(Tiling(transaction, bounds, shown).renderPositions) == NodeSurfaces(shown)
    ensures RequestSurfaces(Tiling(transaction, bounds, shown).requestedSizes) == NodeSurfaces(shown)
  {
  }

  /** Nodes the engine knows: different surfaces, and the visible ones registered to the workspace. */
  ghost predicate KnownNodes(s: State, workspace: Workspace, nodes: seq<Node>) {
    && Distinct(NodeSurfaces(nodes))
    && forall n :: n in nodes && n.workspace == workspace && n.visible ==>
         n.surface in s.surfaces && s.surfaces[n.surface] == workspace
  }

  /** A relayout of a shown workspace over known nodes is accepted by the engine with the tiler's own layout. */
  lemma RelayoutIsAccepted(s: State, transaction: nat, workspace: Workspace, bounds: Rect, nodes: seq<Node>,
                           advertised: seq<SessionAction>)
    requires KnownNodes(s, workspace, nodes) && Showing(s.outputs, workspace) != {}
    requires HandleRelayout(transaction, workspace, bounds, nodes).Ok?
    ensures var plan := PlanResponse(s, HandleRelayout(transaction, workspace, bounds, nodes).value, advertised);
      && plan.Ok?
      && plan.value.layout == Tile(transaction, workspace, bounds, nodes).value
      && plan.value.candidate.surfaces == s.surfaces
  {
    hide PlanResponse, Tiling;
    var layout := Tile(transaction, workspace, bounds, nodes).value;
    RoundTrip(s, layout, None, advertised);
    var shown := VisibleNodes(nodes, workspace);
    if layout != EmptyLayout(transaction) {
      VisibleStayDistinct(nodes, workspace);
      TilingMentionsShown(transaction, bounds, shown);
      TilingFocus(transaction, bounds, shown);
    }
  }

  lemma TilingFocus(transaction: nat, bounds: Rect, shown: seq<Node>)
    requires shown != [] && !IsEmptyRect(bounds) && Fits(bounds)
    ensures var focus := Tiling(transaction, bounds, shown).focus;
      focus.Some? ==> exists n :: n in shown && n.focusable && n.surface == focus.value
  {
    if FirstFocusable(shown).Some? {
      FirstFocusableIsShown(shown);
    }
  }

  /** A reply for a new surface is accepted whenever it is registered and its workspace is known and shown. */
  lemma ManageIsAccepted(s: State, transaction: nat, workspace: Workspace, bounds: Rect, node: Node,
                         advertised: seq<SessionAction>)
    requires node.surface in s.surfaces && workspace in s.workspaces && Showing(s.outputs, workspace) != {}
    requires HandleManage(transaction, workspace, bounds, node).Ok?
    ensures var plan := PlanResponse(s, HandleManage(transaction, workspace, bounds, node).value, advertised);
      && plan.Ok?
      && plan.value.layout == Tile(transaction, workspace, bounds, [node]).value
  {
    hide PlanResponse, Tiling;
    var layout := Tile(transaction, workspace, bounds, [node]).value;
    RoundTrip(s, layout, Some(workspace), advertised);
    var shown := VisibleNodes([node], workspace);
    if layout != EmptyLayout(transaction) {
      VisibleStayDistinct([node], workspace);
      TilingMentionsShown(transaction, bounds, shown);
      TilingFocus(transaction, bounds, shown);
    }
  }
}
