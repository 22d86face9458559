/**
 The extended desktop: outputs side by side in logical coordinates, and the projection of damage onto
 each of them. The registry's ordered map of outputs is the list of its values in key order.
 */
module OutputTopology {
  import opened Basics

  datatype Descriptor = Descriptor(output: nat, size: Size, scale: U32)

  datatype Geometry = Geometry(output: nat, logical: Rect, pixelSize: Size, scale: U32)

  datatype Topology = Topology(outputs: seq<Geometry>, logicalSize: Size)

  function ScaleI32(scale: U32): I32 {
    if Max(scale, 1) > I32_MAX then I32_MAX else Max(scale, 1)
  }

  /** Division that rounds toward zero. */
  function Truncated(a: int, b: int): int
    requires b > 0
  {
    if a >= 0 then a / b else -((-a) / b)
  }

  lemma TruncatedFits(a: I32, b: int)
    requires b > 0
    ensures I32_MIN <= Truncated(a, b) <= I32_MAX
    ensures a >= 0 ==> 0 <= Truncated(a, b) && Truncated(a, b) * b <= a < Truncated(a, b) * b + b
  {
    var m: int := if a >= 0 then a else -(a as int);
    var q := m / b;
    assert m == b * q + m % b;
    QuotientSmaller(m, b);
  }

  lemma QuotientSmaller(m: int, b: int)
    requires 0 <= m && 0 < b
    ensures 0 <= m / b <= m
  {
    var q := m / b;
    assert m == b * q + m % b && 0 <= q;
    MulMonotone(1, b, q);
  }

  /** A pixel extent in logical units: at least one. */
  function LogicalExtent(pixels: I32, scale: U32): I32 {
    TruncatedFits(pixels, ScaleI32(scale));
    Max(1, Truncated(pixels, ScaleI32(scale)))
  }

  function LogicalSize(d: Descriptor): Size {
    Size(LogicalExtent(d.size.width, d.scale), LogicalExtent(d.size.height, d.scale))
  }

  /** The exact sum of the logical widths of the first outputs. */
  function WidthBefore(ds: seq<Descriptor>, k: nat): nat
    requires k <= |ds|
  {
    if k == 0 then 0 else WidthBefore(ds, k - 1) + LogicalSize(ds[k - 1]).width
  }

  lemma {:induction false} WidthsGrow(ds: seq<Descriptor>, a: nat, b: nat)
    requires a <= b <= |ds|
    ensures WidthBefore(ds, a) + (b - a) <= WidthBefore(ds, b)
  {
    if a < b {
      WidthsGrow(ds, a, b - 1);
    }
  }

  /** `g` is the geometry of output `k`, placed at the saturated sum of the widths before it. */
  ghost predicate OutputAt(ds: seq<Descriptor>, k: nat, g: Geometry)
    requires k < |ds|
  {
    && g.output == ds[k].output
    && g.pixelSize == ds[k].size
    && g.scale == Max(ds[k].scale, 1)
    && g.logical == Rect(SaturateI32(WidthBefore(ds, k)), 0, LogicalSize(ds[k]).width, LogicalSize(ds[k]).height)
  }

  /** Places the outputs from left to right, each at the saturated sum of the widths before it. */
  method FromOutputs(ds: seq<Descriptor>) returns (t: Topology)
    ensures |t.outputs| == |ds|
    ensures forall k :: 0 <= k < |ds| ==> OutputAt(ds, k, t.outputs[k])
    ensures t.logicalSize.width == SaturateI32(WidthBefore(ds, |ds|))
    ensures forall k :: 0 <= k < |ds| ==> LogicalSize(ds[k]).height <= t.logicalSize.height
    ensures t.logicalSize.height == 0 || exists k :: 0 <= k < |ds| && LogicalSize(ds[k]).height == t.logicalSize.height
  {
    hide LogicalSize, OutputAt;
    var logicalX: I32, logicalHeight: I32 := 0, 0;
    var outputs: seq<Geometry> := [];
    var k := 0;
    while k < |ds|
      invariant 0 <= k <= |ds| && |outputs| == k
      invariant logicalX == SaturateI32(WidthBefore(ds, k))
      invariant forall j :: 0 <= j < k ==> OutputAt(ds, j, outputs[j])
      invariant forall j :: 0 <= j < k ==> LogicalSize(ds[j]).height <= logicalHeight
      invariant logicalHeight == 0 || exists j :: 0 <= j < k && LogicalSize(ds[j]).height == logicalHeight
    {
      var size := LogicalSize(ds[k]);
      var g := Geometry(ds[k].output, Rect(logicalX, 0, size.width, size.height), ds[k].size, Max(ds[k].scale, 1));
      NextOutput(ds, k, g);
      outputs := outputs + [g];
      logicalX := SaturateI32(logicalX + size.width);
      logicalHeight := Max(logicalHeight, size.height);
      k := k + 1;
    }
    return Topology(outputs, Size(logicalX, logicalHeight));
  }

  lemma NextOutput(ds: seq<Descriptor>, k: nat, g: Geometry)
    requires k < |ds| && g.output == ds[k].output && g.pixelSize == ds[k].size && g.scale == Max(ds[k].scale, 1)
    requires g.logical == Rect(SaturateI32(WidthBefore(ds, k)), 0, LogicalSize(ds[k]).width, LogicalSize(ds[k]).height)
    ensures OutputAt(ds, k, g)
    ensures SaturateI32(SaturateI32(WidthBefore(ds, k)) + LogicalSize(ds[k]).width) == SaturateI32(WidthBefore(ds, k + 1))
  {
    ExtentPositive(ds[k].size.width, ds[k].scale);
  }

  lemma ExtentPositive(pixels: I32, scale: U32)
    ensures LogicalExtent(pixels, scale) >= 1
  {
  }

  // ---------------------------------------------------------------- the spans tile the desktop

  ghost predicate InSpan(ds: seq<Descriptor>, k: nat, x: int)
    requires k < |ds|
  {
    WidthBefore(ds, k) <= x < WidthBefore(ds, k + 1)
  }

  lemma {:induction false} SpanOf(ds: seq<Descriptor>, n: nat, x: int) returns (k: nat)
    requires n <= |ds|
    ensures 0 <= x < WidthBefore(ds, n) ==> k < n && InSpan(ds, k, x)
    decreases n
  {
    if n == 0 {
      k := 0;
    } else if x >= WidthBefore(ds, n - 1) {
      k := n - 1;
    } else {
      k := SpanOf(ds, n - 1, x);
    }
  }

  /** The logical spans leave no gap and do not overlap. */
  lemma SpansTile(ds: seq<Descriptor>, x: int)
    ensures 0 <= x < WidthBefore(ds, |ds|) <==> exists k :: 0 <= k < |ds| && InSpan(ds, k, x)
    ensures forall j, k :: 0 <= j < |ds| && 0 <= k < |ds| && InSpan(ds, j, x) && InSpan(ds, k, x) ==> j == k
  {
    if 0 <= x < WidthBefore(ds, |ds|) {
      var k := SpanOf(ds, |ds|, x);
    }
    forall k | 0 <= k < |ds| && InSpan(ds, k, x) ensures 0 <= x < WidthBefore(ds, |ds|) {
      WidthsGrow(ds, k + 1, |ds|);
    }
    forall j, k | 0 <= j < |ds| && 0 <= k < |ds| && InSpan(ds, j, x) && InSpan(ds, k, x) ensures j == k {
      if j < k {
        WidthsGrow(ds, j + 1, k);
      } else if k < j {
        WidthsGrow(ds, k + 1, j);
      }
    }
  }

  /**
   As placed, with saturation, every output ends before the next ones begin exactly when the last
   output still starts within `i32`.
   */
  lemma PlacementsApartIff(ds: seq<Descriptor>, gs: seq<Geometry>)
    requires |gs| == |ds| > 0 && forall k :: 0 <= k < |ds| ==> OutputAt(ds, k, gs[k])
    ensures (forall j, k :: 0 <= j < k < |gs| ==> gs[j].logical.x + gs[j].logical.width <= gs[k].logical.x)
      <==> WidthBefore(ds, |ds| - 1) <= I32_MAX
  {
    hide LogicalSize;
    var n := |ds|;
    if WidthBefore(ds, n - 1) <= I32_MAX {
      forall j, k | 0 <= j < k < n ensures gs[j].logical.x + gs[j].logical.width <= gs[k].logical.x {
        WidthsGrow(ds, j + 1, k);
        WidthsGrow(ds, k, n - 1);
      }
    } else {
      assert n > 1;
      assert OutputAt(ds, n - 2, gs[n - 2]) && OutputAt(ds, n - 1, gs[n - 1]);
      OverrunsLast(ds, gs, n);
    }
  }

  lemma OverrunsLast(ds: seq<Descriptor>, gs: seq<Geometry>, n: nat)
    requires 1 < n == |ds| == |gs| && OutputAt(ds, n - 2, gs[n - 2]) && OutputAt(ds, n - 1, gs[n - 1])
    requires WidthBefore(ds, n - 1) > I32_MAX
    ensures gs[n - 2].logical.x + gs[n - 2].logical.width > gs[n - 1].logical.x
  {
    ExtentPositive(ds[n - 2].size.width, ds[n - 2].scale);
  }

  /** Three outputs, the first as wide as `i32` allows: the other two are placed on the same column. */
  lemma OverlapExample(gs: seq<Geometry>)
    requires var ds := [Descriptor(1, Size(I32_MAX, 1), 1), Descriptor(2, Size(1, 1), 1), Descriptor(3, Size(1, 1), 1)];
      |gs| == 3 && forall k :: 0 <= k < 3 ==> OutputAt(ds, k, gs[k])
    ensures gs[1].logical == gs[2].logical == Rect(I32_MAX, 0, 1, 1)
  {
    var ds := [Descriptor(1, Size(I32_MAX, 1), 1), Descriptor(2, Size(1, 1), 1), Descriptor(3, Size(1, 1), 1)];
    assert LogicalSize(ds[0]) == Size(I32_MAX, 1);
    assert LogicalSize(ds[1]) == LogicalSize(ds[2]) == Size(1, 1);
    assert WidthBefore(ds, 1) == WidthBefore(ds, 0) + I32_MAX;
    assert WidthBefore(ds, 2) == WidthBefore(ds, 1) + 1;
    assert OutputAt(ds, 1, gs[1]) && OutputAt(ds, 2, gs[2]);
  }

  // ---------------------------------------------------------------- projection

  function ProjectRect(g: Geometry, r: Rect): Option<Rect> {
    var left := Max(r.x, g.logical.x);
    var top := Max(r.y, g.logical.y);
    var right := Min(SaturateI32(r.x + r.width), SaturateI32(g.logical.x + g.logical.width));
    var bottom := Min(SaturateI32(r.y + r.height), SaturateI32(g.logical.y + g.logical.height));
    var width := SaturateI32(right - left);
    var height := SaturateI32(bottom - top);
    if width > 0 && height > 0 then
      Some(Rect(SaturateI32(left - g.logical.x), SaturateI32(top - g.logical.y), width, height))
    else
      None
  }

  function ProjectDamage(g: Geometry, damage: seq<Rect>): seq<Rect> {
    if damage == [] then []
    else
      var first := ProjectRect(g, damage[0]);
      (if first.Some? then [first.value] else []) + ProjectDamage(g, damage[1..])
  }

  predicate Contains(r: Rect, x: int, y: int) {
    r.x <= x < r.x + r.width && r.y <= y < r.y + r.height
  }

  ghost predicate InRegion(rects: seq<Rect>, x: int, y: int) {
    exists r :: r in rects && Contains(r, x, y)
  }

  /** An output placed where its right and bottom edges are still coordinates. */
  predicate Placed(g: Geometry) {
    && g.logical.x >= 0 && g.logical.y >= 0 && g.logical.width > 0 && g.logical.height > 0
    && g.logical.x + g.logical.width <= I32_MAX && g.logical.y + g.logical.height <= I32_MAX
  }

  /** One axis of the projection, saturation and all. */
  lemma AxisProjects(position: I32, length: I32, origin: I32, extent: I32, p: int)
    requires origin >= 0 && extent > 0 && origin + extent <= I32_MAX
    ensures var left := Max(position, origin);
      var right := Min(SaturateI32(position + length), SaturateI32(origin + extent));
      var n := SaturateI32(right - left);
      && (position <= p < position + length && origin <= p < origin + extent <==>
            n > 0 && SaturateI32(left - origin) <= p - origin < SaturateI32(left - origin) + n)
      && (n > 0 ==> 0 <= SaturateI32(left - origin) && SaturateI32(left - origin) + n <= extent)
  {
  }

  /** Translated back, the projection of a rectangle is its intersection with the output. */
  lemma ProjectionIsIntersection(g: Geometry, r: Rect, x: int, y: int)
    requires Placed(g)
    ensures Contains(r, x, y) && Contains(g.logical, x, y) <==>
      ProjectRect(g, r).Some? && Contains(ProjectRect(g, r).value, x - g.logical.x, y - g.logical.y)
    ensures ProjectRect(g, r).Some? ==> var p := ProjectRect(g, r).value;
      && 0 <= p.x && 0 < p.width && p.x + p.width <= g.logical.width
      && 0 <= p.y && 0 < p.height && p.y + p.height <= g.logical.height
  {
    AxisProjects(r.x, r.width, g.logical.x, g.logical.width, x);
    AxisProjects(r.y, r.height, g.logical.y, g.logical.height, y);
    hide SaturateI32, Max, Min;
  }

  lemma {:induction false} ProjectedDamageMembers(g: Geometry, damage: seq<Rect>, p: Rect)
    ensures p in ProjectDamage(g, damage) <==> exists r :: r in damage && ProjectRect(g, r) == Some(p)
  {
    hide ProjectRect;
    if damage != [] {
      ProjectedDamageMembers(g, damage[1..], p);
      assert damage == [damage[0]] + damage[1..];
    }
  }

  /** The same for a damage region. */
  lemma DamageProjects(g: Geometry, damage: seq<Rect>, x: int, y: int)
    requires Placed(g)
    ensures InRegion(damage, x, y) && Contains(g.logical, x, y) <==>
      InRegion(ProjectDamage(g, damage), x - g.logical.x, y - g.logical.y)
  {
    hide ProjectRect, Contains, Placed;
    if InRegion(damage, x, y) && Contains(g.logical, x, y) {
      var r :| r in damage && Contains(r, x, y);
      ProjectionIsIntersection(g, r, x, y);
      ProjectedDamageMembers(g, damage, ProjectRect(g, r).value);
    }
    if InRegion(ProjectDamage(g, damage), x - g.logical.x, y - g.logical.y) {
      var p :| p in ProjectDamage(g, damage) && Contains(p, x - g.logical.x, y - g.logical.y);
      ProjectedDamageMembers(g, damage, p);
      var r :| r in damage && ProjectRect(g, r) == Some(p);
      ProjectionIsIntersection(g, r, x, y);
    }
  }

  ghost predicate Projects(g: Geometry, damage: seq<Rect>, x: int, y: int) {
    InRegion(ProjectDamage(g, damage), x - g.logical.x, y - g.logical.y)
  }

  /** `g` is output `k` of a topology whose widths sum within `i32`. */
  ghost predicate IsOutput(ds: seq<Descriptor>, k: nat, g: Geometry)
    requires k < |ds|
  {
    WidthBefore(ds, |ds|) <= I32_MAX && OutputAt(ds, k, g)
  }

  lemma OutputIsPlaced(ds: seq<Descriptor>, k: nat, g: Geometry)
    requires k < |ds| && IsOutput(ds, k, g)
    ensures Placed(g) && g.logical.x == WidthBefore(ds, k) && g.logical.x + g.logical.width == WidthBefore(ds, k + 1)
  {
    hide LogicalExtent;
    WidthsGrow(ds, k, |ds|);
    WidthsGrow(ds, k + 1, |ds|);
    ExtentPositive(ds[k].size.width, ds[k].scale);
    ExtentPositive(ds[k].size.height, ds[k].scale);
  }

  /** The point is on output `k`: in its span and above its lower edge. */
  ghost predicate OnOutput(ds: seq<Descriptor>, k: nat, x: int, y: int)
    requires k < |ds|
  {
    InSpan(ds, k, x) && 0 <= y < LogicalSize(ds[k]).height
  }

  lemma ProjectsIff(ds: seq<Descriptor>, k: nat, g: Geometry, damage: seq<Rect>, x: int, y: int)
    requires k < |ds| && IsOutput(ds, k, g)
    ensures Projects(g, damage, x, y) <==> InRegion(damage, x, y) && OnOutput(ds, k, x, y)
  {
    hide ProjectDamage, InRegion, LogicalSize;
    OutputIsPlaced(ds, k, g);
    DamageProjects(g, damage, x, y);
  }

  /** No point of the desktop is projected by two outputs. */
  lemma ProjectedByOneOutput(ds: seq<Descriptor>, j: nat, k: nat, g: Geometry, h: Geometry, damage: seq<Rect>, x: int, y: int)
    requires j < |ds| && k < |ds| && IsOutput(ds, j, g) && IsOutput(ds, k, h)
    ensures Projects(g, damage, x, y) && Projects(h, damage, x, y) ==> j == k && InRegion(damage, x, y)
  {
    hide Projects, InRegion, IsOutput;
    ProjectsIff(ds, j, g, damage, x, y);
    ProjectsIff(ds, k, h, damage, x, y);
    SpansTile(ds, x);
  }

  /** A point of the plane is projected by some output exactly when it is damaged and lies on some output. */
  lemma ProjectedIffOnDesktop(ds: seq<Descriptor>, gs: seq<Geometry>, damage: seq<Rect>, x: int, y: int)
    requires |gs| == |ds| && forall i :: 0 <= i < |ds| ==> IsOutput(ds, i, gs[i])
    ensures (exists k :: 0 <= k < |ds| && Projects(gs[k], damage, x, y))
      <==> InRegion(damage, x, y) && exists k :: 0 <= k < |ds| && OnOutput(ds, k, x, y)
  {
    hide Projects, OnOutput, InRegion, IsOutput;
    forall k | 0 <= k < |ds|
      ensures Projects(gs[k], damage, x, y) <==> InRegion(damage, x, y) && OnOutput(ds, k, x, y)
    {
      ProjectsIff(ds, k, gs[k], damage, x, y);
    }
  }

  // ---------------------------------------------------------------- pixels

  function ProjectRectPixels(g: Geometry, r: Rect): Option<Rect> {
    var local := ProjectRect(g, r);
    if local.None? then None
    else
      var scale := ScaleI32(g.scale);
      Some(Rect(
        SaturateI32(local.value.x * scale),
        SaturateI32(local.value.y * scale),
        Min(SaturateI32(local.value.width * scale), g.pixelSize.width),
        Min(SaturateI32(local.value.height * scale), g.pixelSize.height)))
  }

  /** Scaling a run inside the logical extent stays inside the pixels, and is empty only if there are none. */
  lemma ScaledStaysInside(pixels: I32, scale: U32, start: int, n: int)
    requires 0 <= start && 0 < n && start + n <= LogicalExtent(pixels, scale)
    ensures var s := ScaleI32(scale);
      var from, length := SaturateI32(start * s), Min(SaturateI32(n * s), pixels);
      && (pixels > 0 ==> 0 <= from && 0 < length && from + length <= pixels)
      && (pixels <= 0 ==> length <= 0)
  {
    var s := ScaleI32(scale);
    TruncatedFits(pixels, s);
    if pixels > 0 && Truncated(pixels, s) >= 1 {
      var extent := Truncated(pixels, s);
      assert start * s + n * s == (start + n) * s;
      MulMonotone(start + n, extent, s);
      MulMonotone(0, start, s);
      MulMonotone(1, n, s);
    }
  }

  /** The pixel projection of any rectangle lies inside the output's pixels, and is non-empty iff there are pixels. */
  lemma PixelProjectionStaysInside(ds: seq<Descriptor>, k: nat, g: Geometry, r: Rect)
    requires k < |ds| && IsOutput(ds, k, g)
    ensures ProjectRectPixels(g, r).Some? ==> var p := ProjectRectPixels(g, r).value;
      && (g.pixelSize.width > 0 <==> 0 < p.width)
      && (g.pixelSize.height > 0 <==> 0 < p.height)
      && (0 < p.width ==> 0 <= p.x && p.x + p.width <= g.pixelSize.width)
      && (0 < p.height ==> 0 <= p.y && p.y + p.height <= g.pixelSize.height)
  {
    hide LogicalExtent;
    OutputIsPlaced(ds, k, g);
    ProjectionIsIntersection(g, r, g.logical.x, g.logical.y);
    if ProjectRect(g, r).Some? {
      var local := ProjectRect(g, r).value;
      SameScale(ds[k]);
      ScaledStaysInside(ds[k].size.width, ds[k].scale, local.x, local.width);
      ScaledStaysInside(ds[k].size.height, ds[k].scale, local.y, local.height);
    }
  }

  /** Inside the logical extent scaling is exact: nothing is saturated or cut but an extent below the scale. */
  lemma ScalesExactly(pixels: I32, scale: U32, start: int, n: int)
    requires pixels > 0 && 0 <= start && 0 < n && start + n <= LogicalExtent(pixels, scale)
    ensures var s := ScaleI32(scale);
      && SaturateI32(start * s) == start * s
      && Min(SaturateI32(n * s), pixels) == (if pixels < s then pixels else n * s)
  {
    var s := ScaleI32(scale);
    TruncatedFits(pixels, s);
    if pixels < s {
      QuotientZero(pixels, s);
      assert start == 0 && n == 1;
    } else {
      ScaledStaysInside(pixels, scale, start, n);
      FitsBelow(pixels, s, start, n);
    }
  }

  lemma FitsBelow(pixels: I32, s: I32, start: int, n: int)
    requires 0 < s <= pixels && 0 <= start && 0 < n && start + n <= Max(1, pixels / s)
    ensures 0 <= start * s && 0 < n * s && start * s + n * s <= pixels
  {
    var q := pixels / s;
    assert pixels == s * q + pixels % s && s * q == q * s && q >= 1;
    assert start * s + n * s == (start + n) * s;
    MulMonotone(start + n, q, s);
    MulMonotone(0, start, s);
    MulMonotone(1, n, s);
  }

  /** The pixel projection is the logical one times the scale, on each axis, except below one scaled pixel. */
  lemma PixelProjectionScales(ds: seq<Descriptor>, k: nat, g: Geometry, r: Rect)
    requires k < |ds| && IsOutput(ds, k, g) && g.pixelSize.width > 0 && g.pixelSize.height > 0
    ensures ProjectRect(g, r).Some? <==> ProjectRectPixels(g, r).Some?
    ensures ProjectRect(g, r).Some? ==>
      var local, p, s := ProjectRect(g, r).value, ProjectRectPixels(g, r).value, ScaleI32(g.scale);
      && p.x == local.x * s && p.y == local.y * s
      && p.width == (if g.pixelSize.width < s then g.pixelSize.width else local.width * s)
      && p.height == (if g.pixelSize.height < s then g.pixelSize.height else local.height * s)
  {
    hide LogicalExtent;
    OutputIsPlaced(ds, k, g);
    ProjectionIsIntersection(g, r, g.logical.x, g.logical.y);
    if ProjectRect(g, r).Some? {
      var local := ProjectRect(g, r).value;
      SameScale(ds[k]);
      ScalesExactly(ds[k].size.width, ds[k].scale, local.x, local.width);
      ScalesExactly(ds[k].size.height, ds[k].scale, local.y, local.height);
    }
  }

  /** How many pixels of an extent the projection of its whole logical length reaches. */
  lemma ScaledCoversIff(pixels: I32, scale: U32)
    requires pixels > 0
    ensures var s := ScaleI32(scale);
      Min(SaturateI32(LogicalExtent(pixels, scale) * s), pixels) == pixels <==> pixels <= s || pixels % s == 0
  {
    var s := ScaleI32(scale);
    TruncatedFits(pixels, s);
    var q := pixels / s;
    assert pixels == s * q + pixels % s && s * q == q * s;
    if pixels < s {
      QuotientZero(pixels, s);
    } else if q >= 1 {
      assert LogicalExtent(pixels, scale) == q;
    }
  }

  lemma QuotientZero(m: int, b: int)
    requires 0 <= m < b
    ensures m / b == 0
  {
  }

  /** The rectangle reaches over the whole output. */
  predicate Spans(r: Rect, g: Geometry) {
    && r.x <= g.logical.x && g.logical.x + g.logical.width <= r.x + r.width
    && r.y <= g.logical.y && g.logical.y + g.logical.height <= r.y + r.height
  }

  /**
   Damage over a whole output reaches every pixel column exactly when the pixels are no more than the
   scale or a multiple of it, and likewise for the rows.
   */
  lemma FullDamageCoversIff(ds: seq<Descriptor>, k: nat, g: Geometry, r: Rect)
    requires k < |ds| && IsOutput(ds, k, g) && g.pixelSize.width > 0 && g.pixelSize.height > 0 && Spans(r, g)
    ensures ProjectRectPixels(g, r).Some?
    ensures var p, s := ProjectRectPixels(g, r).value, ScaleI32(g.scale);
      && p.x == 0 && p.y == 0
      && (p.width == g.pixelSize.width <==> g.pixelSize.width <= s || g.pixelSize.width % s == 0)
      && (p.height == g.pixelSize.height <==> g.pixelSize.height <= s || g.pixelSize.height % s == 0)
  {
    hide LogicalExtent;
    OutputIsPlaced(ds, k, g);
    FullProjection(g, r);
    SameScale(ds[k]);
    ScaledCoversIff(ds[k].size.width, ds[k].scale);
    ScaledCoversIff(ds[k].size.height, ds[k].scale);
  }

  lemma FullProjection(g: Geometry, r: Rect)
    requires Placed(g) && Spans(r, g)
    ensures ProjectRect(g, r) == Some(Rect(0, 0, g.logical.width, g.logical.height))
  {
  }

  /** Three pixels at scale two: the last column is never projected. */
  lemma UncoveredPixelExample()
    ensures var ds := [Descriptor(1, Size(3, 2), 2)];
      var g := Geometry(1, Rect(0, 0, 1, 1), Size(3, 2), 2);
      && IsOutput(ds, 0, g)
      && ProjectRectPixels(g, g.logical) == Some(Rect(0, 0, 2, 2))
  {
    var ds := [Descriptor(1, Size(3, 2), 2)];
    assert LogicalSize(ds[0]) == Size(1, 1);
    assert WidthBefore(ds, 1) == WidthBefore(ds, 0) + 1;
  }

  lemma SameScale(d: Descriptor)
    ensures ScaleI32(Max(d.scale, 1)) == ScaleI32(d.scale)
  {
  }
}
