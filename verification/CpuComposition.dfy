/**
 CPU composition of client layers and the software cursor into one scanout frame, proved against the
 painter's algorithm: each pixel shows the cursor if it draws there, else the last layer over it.
 */
module CpuComposition {
  import opened Basics
  import opened Raster

  const XRGB8888: U32 := 0x3432_5258

  datatype Layer = Layer(geometry: Rect, buffer: Buffer)

  /** The pointer position; coordinates are exact, a NaN or an infinity is `NotFinite`. */
  datatype Position = NotFinite | At(x: real, y: real)

  datatype Error = InvalidOutputSize | OutputTooLarge

  datatype Report = Report(size: Size, stride: U32, bytes: seq<Byte>, layersInput: nat, layersComposed: nat)

  // ---------------------------------------------------------------- the picture

  /** A layer the compositor is willing to read. */
  predicate Eligible(l: Layer) {
    && l.buffer.format == XRGB8888
    && l.geometry.width > 0 && l.geometry.height > 0
    && l.buffer.size.width > 0 && l.buffer.size.height > 0
    && l.buffer.stride >= 4 * l.buffer.size.width
    && |l.buffer.bytes| >= l.buffer.stride * l.buffer.size.height
  }

  /** Along one axis, a run of the smaller of two sizes from `position` on contains `x`. */
  predicate Within(position: I32, geometry: I32, sourceSize: I32, x: int) {
    0 <= x - position < Min(geometry, sourceSize)
  }

  /** The layer's rectangle, clipped to its geometry and its source, contains pixel (x, y). */
  predicate Covers(l: Layer, x: int, y: int) {
    && Eligible(l)
    && Within(l.geometry.x, l.geometry.width, l.buffer.size.width, x)
    && Within(l.geometry.y, l.geometry.height, l.buffer.size.height, y)
  }

  /** Byte `c` of the layer's pixel shown at (x, y). */
  function LayerByte(l: Layer, x: int, y: int, c: int): Byte
    requires Covers(l, x, y) && 0 <= c < 4
  {
    IndexInside(y - l.geometry.y, 4 * (x - l.geometry.x) + c, l.buffer.stride, l.buffer.size.height);
    l.buffer.bytes[(y - l.geometry.y) * l.buffer.stride + (4 * (x - l.geometry.x) + c)]
  }

  /** The painter's algorithm over the layers, on black. */
  function Painted(layers: seq<Layer>, x: int, y: int, c: int): Byte
    requires 0 <= c < 4
  {
    if layers == [] then 0
    else
      var top := layers[|layers| - 1];
      if Covers(top, x, y) then LayerByte(top, x, y, c) else Painted(layers[..|layers| - 1], x, y, c)
  }

  /** The layers that cover some pixel of a frame. */
  ghost predicate Shows(l: Layer, width: int, height: int) {
    exists x, y :: 0 <= x < width && 0 <= y < height && Covers(l, x, y)
  }

  ghost function CountShown(layers: seq<Layer>, width: int, height: int): nat {
    if layers == [] then 0
    else
      CountShown(layers[..|layers| - 1], width, height)
      + (if Shows(layers[|layers| - 1], width, height) then 1 else 0)
  }

  const CURSOR_EDGE: nat := 16

  const CURSOR_SHAPE: seq<string> := [
    "##..............",
    "#W#.............",
    "#WW#............",
    "#WWW#...........",
    "#WWWW#..........",
    "#WWWWW#.........",
    "#WWWWWW#........",
    "#WWWWWWW#.......",
    "#WWWWWWWW#......",
    "#WWWWW#####.....",
    "#WWW#W#.........",
    "#WW#.#W#........",
    "#W#..#W#........",
    "##...#WW#.......",
    "#....#WW#.......",
    ".....#WW#......."]

  lemma CursorIsSquare()
    ensures |CURSOR_SHAPE| == CURSOR_EDGE
    ensures forall row :: 0 <= row < CURSOR_EDGE ==> |CURSOR_SHAPE[row]| == CURSOR_EDGE
  {
  }

  function CursorColor(pixel: char): Option<seq<Byte>> {
    if pixel == 'W' then Some([0xff, 0xff, 0xff, 0xff])
    else if pixel == '#' then Some([0, 0, 0, 0xff])
    else None
  }

  predicate OnScreenRange(p: Position) {
    p.At? && I32_MIN as real <= p.x <= I32_MAX as real && I32_MIN as real <= p.y <= I32_MAX as real
  }

  /** What the cursor draws `dx` right and `dy` below its origin. */
  function CursorAt(dx: int, dy: int): (color: Option<seq<Byte>>)
    ensures color.Some? ==> |color.value| == 4
  {
    if 0 <= dx < CURSOR_EDGE && 0 <= dy < CURSOR_EDGE then
      CursorIsSquare();
      CursorColor(CURSOR_SHAPE[dy][dx])
    else
      None
  }

  /** What the cursor draws at pixel (x, y). */
  function CursorPixel(cursor: Option<Position>, x: int, y: int): (color: Option<seq<Byte>>)
    ensures color.Some? ==> |color.value| == 4
  {
    if cursor.Some? && OnScreenRange(cursor.value) then
      CursorAt(x - cursor.value.x.Floor, y - cursor.value.y.Floor)
    else
      None
  }

  /** Byte `c` of the composed picture at (x, y). */
  function Pictured(layers: seq<Layer>, cursor: Option<Position>, x: int, y: int, c: int): Byte
    requires 0 <= c < 4
  {
    var color := CursorPixel(cursor, x, y);
    if color.Some? then color.value[c] else Painted(layers, x, y, c)
  }

  // ---------------------------------------------------------------- bytes of a frame

  function ColumnOf(k: int, stride: int): int
    requires stride > 0
  {
    (k % stride) / 4
  }

  function ChannelOf(k: int, stride: int): int
    requires stride > 0
  {
    (k % stride) % 4
  }

  /** An output of positive size whose frame is within the limit. */
  predicate FrameSize(width: int, height: int) {
    0 < width <= I32_MAX && 0 < height <= I32_MAX && 4 * width * height <= MAX_BYTES
  }

  /** `now` is `before` with the layer painted over it in the rows before `rows`. */
  ghost predicate PaintedOver(now: seq<Byte>, before: seq<Byte>, l: Layer, stride: int, rows: int)
    requires stride > 0
  {
    && |now| == |before|
    && forall k :: 0 <= k < |now| ==>
         now[k] == if k / stride < rows && Covers(l, ColumnOf(k, stride), k / stride)
                   then LayerByte(l, ColumnOf(k, stride), k / stride, ChannelOf(k, stride))
                   else before[k]
  }

  /** The copy rectangle the implementation computes for a layer. */
  datatype Clip = Clip(sourceX: nat, sourceY: nat, targetX: nat, targetY: nat, width: nat, height: nat)

  /** `clip` is where the layer meets the frame: pixels of the one at the pixels of the other. */
  ghost predicate ClipOf(clip: Clip, l: Layer, width: int, height: int) {
    && clip.targetX + clip.width <= width && clip.targetY + clip.height <= height
    && clip.sourceX + clip.width <= l.buffer.size.width && clip.sourceY + clip.height <= l.buffer.size.height
    && clip.sourceX - clip.targetX == 0 - l.geometry.x && clip.sourceY - clip.targetY == 0 - l.geometry.y
    && (forall x, y :: 0 <= x < width && 0 <= y < height ==>
          (Covers(l, x, y) <==>
             clip.targetX <= x < clip.targetX + clip.width && clip.targetY <= y < clip.targetY + clip.height))
  }

  /** Overwrites `n` bytes from `at` on. */
  method CopyRow(target: array<Byte>, at: nat, source: seq<Byte>, from: nat, n: nat)
    requires at + n <= target.Length && from + n <= |source|
    modifies target
    ensures forall k :: 0 <= k < target.Length ==>
      target[k] == if at <= k < at + n then source[from + (k - at)] else old(target[k])
  {
    forall k | at <= k < at + n {
      target[k] := source[from + (k - at)];
    }
  }

  /** One row copied at its offsets is one more row of the layer painted. */
  lemma RowPaints(now: seq<Byte>, mid: seq<Byte>, before: seq<Byte>, l: Layer, clip: Clip, width: int, height: int, row: nat,
                  source: int, target: int)
    requires 0 < width && 0 < height && |before| == 4 * width * height
    requires Eligible(l) && ClipOf(clip, l, width, height) && row < clip.height
    requires source == (clip.sourceY + row) * l.buffer.stride + 4 * clip.sourceX
    requires target == (clip.targetY + row) * (4 * width) + 4 * clip.targetX
    requires 0 <= source && source + 4 * clip.width <= |l.buffer.bytes|
    requires PaintedOver(mid, before, l, 4 * width, clip.targetY + row)
    requires |now| == |mid|
    requires forall k :: 0 <= k < |now| ==>
      now[k] == if target <= k < target + 4 * clip.width then l.buffer.bytes[source + (k - target)] else mid[k]
    ensures PaintedOver(now, before, l, 4 * width, clip.targetY + row + 1)
  {
    var stride := 4 * width;
    forall k | 0 <= k < |now|
      ensures now[k] == if k / stride < clip.targetY + row + 1 && Covers(l, ColumnOf(k, stride), k / stride)
                        then LayerByte(l, ColumnOf(k, stride), k / stride, ChannelOf(k, stride))
                        else before[k]
    {
      RowOfByte(k, stride, height);
      ByteInRow(k, stride, clip.targetY + row, 4 * clip.targetX, 4 * clip.width);
      var x, y, c := ColumnOf(k, stride), k / stride, ChannelOf(k, stride);
      assert k % stride == 4 * x + c && 0 <= x < width && 0 <= c < 4;
      if y == clip.targetY + row && Covers(l, x, y) {
        assert source + (k - target) == (y - l.geometry.y) * l.buffer.stride + (4 * (x - l.geometry.x) + c);
      }
    }
  }

  /** Where a layer's source and target start along one axis: how much is cut off, and where it lands. */
  predicate Starts(position: I32, extent: nat, source: nat, target: nat) {
    source == UsizeOr(SaturateI32(0 - position), 0) && target == UsizeOr(Max(position, 0), extent)
  }

  function CopyLength(geometry: I32, sourceSize: nat, extent: nat, source: nat, target: nat): nat {
    Min(Min(SaturateUsize(UsizeOr(geometry, 0) - source), SaturateUsize(sourceSize - source)), SaturateUsize(extent - target))
  }

  /** Along one axis, the copied run is exactly where the layer meets the frame. */
  lemma AxisIsExact(position: I32, geometry: I32, sourceSize: I32, extent: nat, source: nat, target: nat)
    requires 0 < geometry && 0 < sourceSize && 0 < extent <= I32_MAX && Starts(position, extent, source, target)
    ensures source >= sourceSize || target >= extent ==>
      forall x :: 0 <= x < extent ==> !Within(position, geometry, sourceSize, x)
    ensures source < sourceSize && target < extent ==>
      var n := CopyLength(geometry, sourceSize, extent, source, target);
      && target + n <= extent && source + n <= sourceSize && source - target == 0 - position
      && forall x :: 0 <= x < extent ==> (Within(position, geometry, sourceSize, x) <==> target <= x < target + n)
  {
  }

  lemma UnseenPaintsNothing(before: seq<Byte>, l: Layer, width: int, height: int)
    requires FrameSize(width, height) && |before| == 4 * width * height
    requires !Shows(l, width, height)
    ensures PaintedOver(before, before, l, 4 * width, height)
  {
    forall k | 0 <= k < |before| ensures !Covers(l, ColumnOf(k, 4 * width), k / (4 * width)) {
      RowOfByte(k, 4 * width, height);
      assert 0 <= ColumnOf(k, 4 * width) < width;
    }
  }

  method ComposeLayer(bytes: array<Byte>, width: int, height: int, l: Layer) returns (copied: bool)
    requires FrameSize(width, height) && bytes.Length == 4 * width * height
    modifies bytes
    ensures PaintedOver(bytes[..], old(bytes[..]), l, 4 * width, height)
    ensures copied <==> Shows(l, width, height)
  {
    hide PaintedOver;
    if !Shows(l, width, height) {
      UnseenPaintsNothing(bytes[..], l, width, height);
    }
    if l.buffer.format != XRGB8888
       || l.geometry.width <= 0 || l.geometry.height <= 0
       || l.buffer.size.width <= 0 || l.buffer.size.height <= 0
    {
      return false;
    }
    var sourceWidth := UsizeOr(l.buffer.size.width, 0);
    var sourceHeight := UsizeOr(l.buffer.size.height, 0);
    var sourceStride := l.buffer.stride;
    RowOffsetFits(sourceHeight, sourceStride);
    if sourceStride < SaturateUsize(sourceWidth * 4)
       || |l.buffer.bytes| < SaturateUsize(sourceStride * sourceHeight)
    {
      return false;
    }
    assert Eligible(l);
    var sourceX := UsizeOr(SaturateI32(0 - l.geometry.x), 0);
    var sourceY := UsizeOr(SaturateI32(0 - l.geometry.y), 0);
    var targetX := UsizeOr(Max(l.geometry.x, 0), width);
    var targetY := UsizeOr(Max(l.geometry.y, 0), height);
    AxisIsExact(l.geometry.x, l.geometry.width, l.buffer.size.width, width, sourceX, targetX);
    AxisIsExact(l.geometry.y, l.geometry.height, l.buffer.size.height, height, sourceY, targetY);
    hide Min, Max, SaturateI32, UsizeOr;
    if sourceX >= sourceWidth || sourceY >= sourceHeight || targetX >= width || targetY >= height {
      return false;
    }
    var copyWidth := CopyLength(l.geometry.width, sourceWidth, width, sourceX, targetX);
    var copyHeight := CopyLength(l.geometry.height, sourceHeight, height, sourceY, targetY);
    ghost var clip := Clip(sourceX, sourceY, targetX, targetY, copyWidth, copyHeight);
    assert ClipOf(clip, l, width, height);
    if copyWidth == 0 || copyHeight == 0 {
      return false;
    }
    copied := CopyRows(bytes, width, height, l, clip, sourceX, sourceY, targetX, targetY, copyWidth, copyHeight);
    assert Covers(l, targetX, targetY);
  }

  /** The row loop of `ComposeLayer`; its bounds checks never skip a row. */
  method CopyRows(bytes: array<Byte>, width: int, height: int, l: Layer, ghost clip: Clip,
                  sourceX: nat, sourceY: nat, targetX: nat, targetY: nat, copyWidth: nat, copyHeight: nat)
    returns (copied: bool)
    requires FrameSize(width, height) && bytes.Length == 4 * width * height
    requires Eligible(l) && ClipOf(clip, l, width, height)
    requires clip == Clip(sourceX, sourceY, targetX, targetY, copyWidth, copyHeight)
    requires 0 < copyWidth <= width && copyHeight > 0
    modifies bytes
    ensures PaintedOver(bytes[..], old(bytes[..]), l, 4 * width, height)
    ensures copied
  {
    hide PaintedOver, ClipOf, Eligible;
    copied := false;
    var targetStride := 4 * width;
    var rowBytes := SaturateUsize(copyWidth * 4);
    ghost var before := bytes[..];
    NothingPainted(before, l, clip, width, height);
    for row := 0 to copyHeight
      invariant PaintedOver(bytes[..], before, l, targetStride, targetY + row)
      invariant row > 0 ==> copied
    {
      OffsetsFit(l, clip, width, height, row);
      var sourceOffset := SaturateUsize(SaturateUsize((sourceY + row) * l.buffer.stride) + sourceX * 4);
      var targetOffset := SaturateUsize(SaturateUsize((targetY + row) * targetStride) + targetX * 4);
      if SaturateUsize(sourceOffset + rowBytes) > |l.buffer.bytes| {
        assert false;
        continue;
      }
      if SaturateUsize(targetOffset + rowBytes) > bytes.Length {
        assert false;
        continue;
      }
      ghost var mid := bytes[..];
      CopyRow(bytes, targetOffset, l.buffer.bytes, sourceOffset, rowBytes);
      RowPaints(bytes[..], mid, before, l, clip, width, height, row, sourceOffset, targetOffset);
      copied := true;
    }
    AllRowsPainted(bytes[..], before, l, clip, width, height);
  }

  /** The row offsets of a clipped copy, computed without saturating, stay inside source and frame. */
  lemma OffsetsFit(l: Layer, clip: Clip, width: int, height: int, row: nat)
    requires FrameSize(width, height) && Eligible(l) && ClipOf(clip, l, width, height)
    requires clip.width > 0 && row < clip.height
    ensures var source := (clip.sourceY + row) * l.buffer.stride + 4 * clip.sourceX;
      && 0 <= (clip.sourceY + row) * l.buffer.stride <= source
      && source + 4 * clip.width <= |l.buffer.bytes|
      && source + 4 * clip.width <= USIZE_MAX
    ensures var target := (clip.targetY + row) * (4 * width) + 4 * clip.targetX;
      && 0 <= (clip.targetY + row) * (4 * width) <= target
      && target + 4 * clip.width <= 4 * width * height
      && target + 4 * clip.width <= USIZE_MAX
  {
    hide ClipOf;
    ClipFits(l, clip, width, height);
    OffsetFits(clip.sourceY + row, 4 * clip.sourceX, 4 * clip.width, l.buffer.stride, l.buffer.size.height);
    RowOffsetFits(l.buffer.size.height, l.buffer.stride);
    OffsetFits(clip.targetY + row, 4 * clip.targetX, 4 * clip.width, 4 * width, height);
  }

  lemma ClipFits(l: Layer, clip: Clip, width: int, height: int)
    requires ClipOf(clip, l, width, height)
    ensures clip.targetX + clip.width <= width && clip.targetY + clip.height <= height
    ensures clip.sourceX + clip.width <= l.buffer.size.width && clip.sourceY + clip.height <= l.buffer.size.height
  {
  }

  /** `n` bytes from `at` on in row `row` are inside rows of `stride` bytes. */
  lemma OffsetFits(row: nat, at: nat, n: nat, stride: int, height: int)
    requires row < height && 0 < n && at + n <= stride
    ensures 0 <= row * stride <= row * stride + at
    ensures row * stride + at + n <= height * stride
  {
    MulMonotone(0, row, stride);
    IndexInside(row, at + n - 1, stride, height);
  }

  lemma NothingPainted(before: seq<Byte>, l: Layer, clip: Clip, width: int, height: int)
    requires FrameSize(width, height) && |before| == 4 * width * height && ClipOf(clip, l, width, height)
    ensures PaintedOver(before, before, l, 4 * width, clip.targetY)
  {
    forall k | 0 <= k < |before| ensures k / (4 * width) < clip.targetY ==> !Covers(l, ColumnOf(k, 4 * width), k / (4 * width)) {
      RowOfByte(k, 4 * width, height);
    }
  }

  lemma AllRowsPainted(now: seq<Byte>, before: seq<Byte>, l: Layer, clip: Clip, width: int, height: int)
    requires FrameSize(width, height) && |before| == 4 * width * height && ClipOf(clip, l, width, height)
    requires PaintedOver(now, before, l, 4 * width, clip.targetY + clip.height)
    ensures PaintedOver(now, before, l, 4 * width, height)
  {
    forall k | 0 <= k < |before|
      ensures Covers(l, ColumnOf(k, 4 * width), k / (4 * width)) ==> k / (4 * width) < clip.targetY + clip.height
    {
      RowOfByte(k, 4 * width, height);
    }
  }

  // ---------------------------------------------------------------- the cursor

  /** `now` is `before` with the pixel written at (x, y), if that is inside the frame. */
  ghost predicate PixelPut(now: seq<Byte>, before: seq<Byte>, stride: int, x: int, y: int, pixel: seq<Byte>)
    requires stride > 0 && |pixel| == 4
  {
    && |now| == |before|
    && forall k :: 0 <= k < |now| ==>
         now[k] == if ColumnOf(k, stride) == x && k / stride == y then pixel[ChannelOf(k, stride)] else before[k]
  }

  lemma PixelBytes(before: seq<Byte>, now: seq<Byte>, width: int, height: int, x: int, y: int, pixel: seq<Byte>, offset: int)
    requires FrameSize(width, height) && |before| == |now| == 4 * width * height && |pixel| == 4
    requires 0 <= x < width && 0 <= y < height && offset == y * (4 * width) + 4 * x
    requires forall k :: 0 <= k < |now| ==> now[k] == if offset <= k < offset + 4 then pixel[k - offset] else before[k]
    ensures PixelPut(now, before, 4 * width, x, y, pixel)
  {
    var stride := 4 * width;
    forall k | 0 <= k < |now|
      ensures now[k] == if ColumnOf(k, stride) == x && k / stride == y then pixel[ChannelOf(k, stride)] else before[k]
    {
      RowOfByte(k, stride, height);
      ByteInRow(k, stride, y, 4 * x, 4);
      var m := k % stride;
      assert m == 4 * ColumnOf(k, stride) + ChannelOf(k, stride) && 0 <= ChannelOf(k, stride) < 4;
      if k / stride == y && ColumnOf(k, stride) == x {
        assert k - offset == ChannelOf(k, stride);
      }
    }
  }

  lemma PixelOutside(before: seq<Byte>, width: int, height: int, x: int, y: int, pixel: seq<Byte>)
    requires FrameSize(width, height) && |before| == 4 * width * height && |pixel| == 4
    requires !(0 <= x < width && 0 <= y < height)
    ensures PixelPut(before, before, 4 * width, x, y, pixel)
  {
    forall k | 0 <= k < |before| ensures !(ColumnOf(k, 4 * width) == x && k / (4 * width) == y) {
      RowOfByte(k, 4 * width, height);
      assert 0 <= ColumnOf(k, 4 * width) < width;
    }
  }

  lemma PixelOffsetFits(width: int, height: int, x: int, y: int)
    requires FrameSize(width, height) && 0 <= x < width && 0 <= y < height
    ensures 0 <= y * (4 * width) && y * (4 * width) + 4 * x + 4 <= 4 * width * height <= USIZE_MAX
  {
    MulMonotone(0, y, 4 * width);
    IndexInside(y, 4 * x + 3, 4 * width, height);
  }

  method PutPixel(bytes: array<Byte>, width: int, height: int, x: I32, y: I32, pixel: seq<Byte>)
    requires FrameSize(width, height) && bytes.Length == 4 * width * height && |pixel| == 4
    modifies bytes
    ensures PixelPut(bytes[..], old(bytes[..]), 4 * width, x, y, pixel)
  {
    hide PixelPut;
    if x < 0 || y < 0 || x >= width || y >= height {
      PixelOutside(bytes[..], width, height, x, y, pixel);
      return;
    }
    PixelOffsetFits(width, height, x, y);
    var offset := y * (4 * width) + SaturateUsize(x * 4);
    if offset > USIZE_MAX || SaturateUsize(offset + 4) > bytes.Length {
      assert false;
      return;
    }
    ghost var before := bytes[..];
    CopyRow(bytes, offset, pixel, 0, 4);
    PixelBytes(before, bytes[..], width, height, x, y, pixel, offset);
  }

  /** The cells of the cursor before (row, column), in reading order, are drawn. */
  ghost predicate CursorDrawn(now: seq<Byte>, before: seq<Byte>, stride: int, originX: int, originY: int, row: int, column: int)
    requires stride > 0
  {
    && |now| == |before|
    && forall k :: 0 <= k < |now| ==>
         var dx, dy := ColumnOf(k, stride) - originX, k / stride - originY;
         var color := CursorAt(dx, dy);
         now[k] == if (dy < row || (dy == row && dx < column)) && color.Some? then color.value[ChannelOf(k, stride)]
                   else before[k]
  }

  lemma CellDrawn(now: seq<Byte>, mid: seq<Byte>, before: seq<Byte>, stride: int, originX: I32, originY: I32,
                  row: int, column: int, width: int, height: int)
    requires FrameSize(width, height) && stride == 4 * width && |before| == stride * height
    requires 0 <= row < CURSOR_EDGE && 0 <= column < CURSOR_EDGE
    requires CursorDrawn(mid, before, stride, originX, originY, row, column)
    requires var color := CursorAt(column, row);
      if color.Some? then
        PixelPut(now, mid, stride, SaturateI32(originX + column), SaturateI32(originY + row), color.value)
      else now == mid
    ensures CursorDrawn(now, before, stride, originX, originY, row, column + 1)
  {
    forall k | 0 <= k < |now|
      ensures var dx, dy := ColumnOf(k, stride) - originX, k / stride - originY;
        var color := CursorAt(dx, dy);
        now[k] == if (dy < row || (dy == row && dx < column + 1)) && color.Some? then color.value[ChannelOf(k, stride)]
                  else before[k]
    {
      RowOfByte(k, stride, height);
      assert 0 <= ColumnOf(k, stride) < width;
    }
  }

  lemma CursorRowDone(now: seq<Byte>, before: seq<Byte>, stride: int, originX: int, originY: int, row: int)
    requires stride > 0 && CursorDrawn(now, before, stride, originX, originY, row, CURSOR_EDGE)
    ensures CursorDrawn(now, before, stride, originX, originY, row + 1, 0)
  {
  }

  /** The whole cursor drawn over `before`. */
  ghost predicate CursorOver(now: seq<Byte>, before: seq<Byte>, stride: int, cursor: Option<Position>)
    requires stride > 0
  {
    && |now| == |before|
    && forall k :: 0 <= k < |now| ==>
         var color := CursorPixel(cursor, ColumnOf(k, stride), k / stride);
         now[k] == if color.Some? then color.value[ChannelOf(k, stride)] else before[k]
  }

  method ComposeSoftwareCursor(bytes: array<Byte>, width: int, height: int, position: Position)
    requires FrameSize(width, height) && bytes.Length == 4 * width * height
    modifies bytes
    ensures CursorOver(bytes[..], old(bytes[..]), 4 * width, Some(position))
  {
    if !OnScreenRange(position) {
      return;
    }
    FloorsFit(position);
    var originX: I32, originY: I32 := position.x.Floor, position.y.Floor;
    ghost var before := bytes[..];
    CursorIsSquare();
    DrawCells(bytes, width, height, originX, originY);
    CursorComplete(bytes[..], before, width, height, position);
  }

  lemma FloorsFit(position: Position)
    requires OnScreenRange(position)
    ensures I32_MIN <= position.x.Floor <= I32_MAX && I32_MIN <= position.y.Floor <= I32_MAX
  {
  }

  lemma CursorComplete(now: seq<Byte>, before: seq<Byte>, width: int, height: int, position: Position)
    requires FrameSize(width, height) && OnScreenRange(position)
    requires CursorDrawn(now, before, 4 * width, position.x.Floor, position.y.Floor, CURSOR_EDGE, 0)
    ensures CursorOver(now, before, 4 * width, Some(position))
  {
    var stride := 4 * width;
    forall k | 0 <= k < |now|
      ensures var color := CursorPixel(Some(position), ColumnOf(k, stride), k / stride);
        now[k] == if color.Some? then color.value[ChannelOf(k, stride)] else before[k]
    {
      CursorCellDrawn(now, before, stride, position, k);
    }
  }

  lemma CursorCellDrawn(now: seq<Byte>, before: seq<Byte>, stride: int, position: Position, k: nat)
    requires stride > 0 && OnScreenRange(position) && k < |now|
    requires CursorDrawn(now, before, stride, position.x.Floor, position.y.Floor, CURSOR_EDGE, 0)
    ensures |now| == |before|
    ensures var color := CursorPixel(Some(position), ColumnOf(k, stride), k / stride);
      now[k] == if color.Some? then color.value[ChannelOf(k, stride)] else before[k]
  {
  }

  method DrawCells(bytes: array<Byte>, width: int, height: int, originX: I32, originY: I32)
    requires FrameSize(width, height) && bytes.Length == 4 * width * height
    modifies bytes
    ensures CursorDrawn(bytes[..], old(bytes[..]), 4 * width, originX, originY, CURSOR_EDGE, 0)
  {
    hide CursorDrawn, PixelPut;
    ghost var before := bytes[..];
    var stride := 4 * width;
    NothingDrawn(before, stride, originX, originY);
    CursorIsSquare();
    for row := 0 to CURSOR_EDGE
      invariant CursorDrawn(bytes[..], before, stride, originX, originY, row, 0)
    {
      for column := 0 to CURSOR_EDGE
        invariant CursorDrawn(bytes[..], before, stride, originX, originY, row, column)
      {
        ghost var mid := bytes[..];
        var color := CursorColor(CURSOR_SHAPE[row][column]);
        if color.Some? {
          PutPixel(bytes, width, height, SaturateI32(originX + column), SaturateI32(originY + row), color.value);
        }
        CellDrawn(bytes[..], mid, before, stride, originX, originY, row, column, width, height);
      }
      CursorRowDone(bytes[..], before, stride, originX, originY, row);
    }
  }

  lemma NothingDrawn(before: seq<Byte>, stride: int, originX: int, originY: int)
    requires stride > 0
    ensures CursorDrawn(before, before, stride, originX, originY, 0, 0)
  {
  }

  // ---------------------------------------------------------------- whole frames

  ghost predicate ShowsLayers(bytes: seq<Byte>, layers: seq<Layer>, width: int, height: int)
    requires 0 < width
  {
    && |bytes| == 4 * width * height
    && forall k :: 0 <= k < |bytes| ==>
         bytes[k] == Painted(layers, ColumnOf(k, 4 * width), k / (4 * width), ChannelOf(k, 4 * width))
  }

  lemma OneMoreLayer(now: seq<Byte>, before: seq<Byte>, layers: seq<Layer>, i: nat, width: int, height: int)
    requires FrameSize(width, height) && i < |layers|
    requires ShowsLayers(before, layers[..i], width, height)
    requires PaintedOver(now, before, layers[i], 4 * width, height)
    ensures ShowsLayers(now, layers[..i + 1], width, height)
  {
    assert layers[..i + 1][..i] == layers[..i] && layers[..i + 1][i] == layers[i];
    forall k | 0 <= k < |now|
      ensures now[k] == Painted(layers[..i + 1], ColumnOf(k, 4 * width), k / (4 * width), ChannelOf(k, 4 * width))
    {
      RowOfByte(k, 4 * width, height);
    }
  }

  method ComposeLayers(bytes: array<Byte>, width: int, height: int, layers: seq<Layer>) returns (composed: nat)
    requires FrameSize(width, height) && bytes.Length == 4 * width * height
    requires forall k :: 0 <= k < bytes.Length ==> bytes[k] == 0
    modifies bytes
    ensures ShowsLayers(bytes[..], layers, width, height)
    ensures composed == CountShown(layers, width, height)
  {
    hide PaintedOver, Shows;
    composed := 0;
    var i := 0;
    while i < |layers|
      invariant 0 <= i <= |layers|
      invariant ShowsLayers(bytes[..], layers[..i], width, height)
      invariant composed == CountShown(layers[..i], width, height)
    {
      ghost var before := bytes[..];
      var copied := ComposeLayer(bytes, width, height, layers[i]);
      if copied {
        composed := composed + 1;
      }
      OneMoreLayer(bytes[..], before, layers, i, width, height);
      assert layers[..i + 1][..i] == layers[..i];
      i := i + 1;
    }
    assert layers[..i] == layers;
  }

  /** A single layer that is the frame: its bytes are taken over as they are. */
  predicate IsDirect(layers: seq<Layer>, size: Size, stride: int, byteLength: int) {
    && |layers| == 1
    && layers[0].geometry == Rect(0, 0, size.width, size.height)
    && layers[0].buffer.size == size
    && layers[0].buffer.stride == stride
    && layers[0].buffer.format == XRGB8888
    && |layers[0].buffer.bytes| == byteLength
  }

  lemma DirectIsPainted(layers: seq<Layer>, size: Size)
    requires FrameSize(size.width, size.height)
    requires IsDirect(layers, size, 4 * size.width, 4 * size.width * size.height)
    ensures ShowsLayers(layers[0].buffer.bytes, layers, size.width, size.height)
    ensures CountShown(layers, size.width, size.height) == 1
  {
    var bytes, stride := layers[0].buffer.bytes, 4 * size.width;
    assert Covers(layers[0], 0, 0);
    assert Shows(layers[0], size.width, size.height);
    assert CountShown(layers[..0], size.width, size.height) == 0;
    forall k | 0 <= k < |bytes|
      ensures bytes[k] == Painted(layers, ColumnOf(k, stride), k / stride, ChannelOf(k, stride))
    {
      RowOfByte(k, stride, size.height);
      assert Covers(layers[0], ColumnOf(k, stride), k / stride);
    }
  }

  /** Where byte `c` of pixel (x, y) is, in rows of `width` pixels without padding. */
  function PlaceOf(x: int, y: int, c: int, width: int): int {
    y * (4 * width) + (4 * x + c)
  }

  /** Every byte of every pixel of the frame is the composed picture's. */
  ghost predicate Depicts(bytes: seq<Byte>, layers: seq<Layer>, cursor: Option<Position>, width: int, height: int) {
    && |bytes| == 4 * width * height
    && forall x, y, c :: 0 <= x < width && 0 <= y < height && 0 <= c < 4 ==>
         && 0 <= PlaceOf(x, y, c, width) < |bytes|
         && bytes[PlaceOf(x, y, c, width)] == Pictured(layers, cursor, x, y, c)
  }

  lemma PictureComplete(now: seq<Byte>, before: seq<Byte>, layers: seq<Layer>, cursor: Option<Position>, width: int, height: int)
    requires FrameSize(width, height) && ShowsLayers(before, layers, width, height)
    requires CursorOver(now, before, 4 * width, cursor)
    ensures Depicts(now, layers, cursor, width, height)
  {
    assert |now| == 4 * width * height;
    hide ShowsLayers, CursorOver, Pictured, PlaceOf, FrameSize;
    forall x, y, c | 0 <= x < width && 0 <= y < height && 0 <= c < 4
      ensures 0 <= PlaceOf(x, y, c, width) < |now|
      ensures now[PlaceOf(x, y, c, width)] == Pictured(layers, cursor, x, y, c)
    {
      PictureAt(now, before, layers, cursor, width, height, x, y, c);
    }
  }

  lemma PictureAt(now: seq<Byte>, before: seq<Byte>, layers: seq<Layer>, cursor: Option<Position>, width: int, height: int,
                  x: int, y: int, c: int)
    requires FrameSize(width, height) && ShowsLayers(before, layers, width, height)
    requires CursorOver(now, before, 4 * width, cursor)
    requires 0 <= x < width && 0 <= y < height && 0 <= c < 4
    ensures var k := PlaceOf(x, y, c, width);
      0 <= k < |now| && now[k] == Pictured(layers, cursor, x, y, c)
  {
    hide Painted, CursorPixel;
    var k := PlaceOf(x, y, c, width);
    IndexInside(y, 4 * x + c, 4 * width, height);
    ByteInRow(k, 4 * width, y, 4 * x + c, 1);
    PlaceInRow(k, 4 * width, x, c);
    assert before[k] == Painted(layers, ColumnOf(k, 4 * width), k / (4 * width), ChannelOf(k, 4 * width));
  }

  lemma PlaceInRow(k: int, stride: int, x: int, c: int)
    requires 0 < stride && k % stride == 4 * x + c && 0 <= c < 4
    ensures ColumnOf(k, stride) == x && ChannelOf(k, stride) == c
  {
  }

  method Compose(size: Size, layers: seq<Layer>, cursor: Option<Position>) returns (r: Result<Report, Error>)
    ensures r == Err(InvalidOutputSize) <==> size.width <= 0 || size.height <= 0
    ensures r == Err(OutputTooLarge) <==> size.width > 0 && size.height > 0 && 4 * size.width * size.height > MAX_BYTES
    ensures r.Ok? ==>
      && r.value.size == size && r.value.stride == 4 * size.width
      && Depicts(r.value.bytes, layers, cursor, size.width, size.height)
      && r.value.layersInput == |layers|
      && r.value.layersComposed == CountShown(layers, size.width, size.height)
  {
    hide CursorOver, ShowsLayers, CountShown, Depicts, PaintedOver;
    var width: int, height: int := size.width, size.height;
    if width <= 0 {
      return Err(InvalidOutputSize);
    }
    if height <= 0 {
      return Err(InvalidOutputSize);
    }
    var stride: int := width * 4;
    MulMonotone(1, height, stride);
    if stride * height > MAX_BYTES {
      return Err(OutputTooLarge);
    }
    var byteLength := stride * height;
    var bytes := new Byte[byteLength](_ => 0);
    var composed: nat;
    if IsDirect(layers, size, stride, byteLength) {
      DirectIsPainted(layers, size);
      CopyRow(bytes, 0, layers[0].buffer.bytes, 0, byteLength);
      assert bytes[..] == layers[0].buffer.bytes;
      composed := 1;
    } else {
      composed := ComposeLayers(bytes, width, height, layers);
    }
    ghost var before := bytes[..];
    if cursor.Some? {
      ComposeSoftwareCursor(bytes, width, height, cursor.value);
    } else {
      NoCursor(before, width);
    }
    PictureComplete(bytes[..], before, layers, cursor, width, height);
    return Ok(Report(size, stride, bytes[..], |layers|, composed));
  }

  lemma NoCursor(before: seq<Byte>, width: int)
    requires 0 < width
    ensures CursorOver(before, before, 4 * width, None)
  {
  }

  // ---------------------------------------------------------------- the painter's algorithm

  /** `Painted` is the pixel of the last layer over the point, wherever that layer is in the list. */
  lemma {:induction false} PaintedIsTopmost(layers: seq<Layer>, i: nat, x: int, y: int, c: int)
    requires 0 <= c < 4 && i < |layers| && Covers(layers[i], x, y)
    requires forall j :: i < j < |layers| ==> !Covers(layers[j], x, y)
    ensures Painted(layers, x, y, c) == LayerByte(layers[i], x, y, c)
  {
    if i < |layers| - 1 {
      PaintedIsTopmost(layers[..|layers| - 1], i, x, y, c);
    }
  }

  lemma {:induction false} UncoveredIsBlack(layers: seq<Layer>, x: int, y: int, c: int)
    requires 0 <= c < 4 && forall j :: 0 <= j < |layers| ==> !Covers(layers[j], x, y)
    ensures Painted(layers, x, y, c) == 0
  {
    if layers != [] {
      UncoveredIsBlack(layers[..|layers| - 1], x, y, c);
    }
  }
}
