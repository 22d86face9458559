/**
 The registry of CPU buffers: whole replacements and rectangular patches, ordered by generation. A
 patch is applied row by row in place; since every stored buffer is valid, it applies wholly or not at all.
 */
module CpuBufferRegistry {
  import opened Basics
  import opened Raster

  datatype Patch = Patch(
    handle: nat,
    size: Size,
    stride: U32,
    format: U32,
    generation: nat,
    rect: Rect,
    bytes: seq<Byte>)

  datatype Update = Replace(buffer: Buffer) | PatchOf(patch: Patch)

  datatype Error =
    | InvalidBufferMetadata
    | MissingPatchBase
    | PatchMetadataMismatch
    | InvalidPatchBounds
    | InvalidPatchBytes

  type Buffers = map<nat, Buffer>

  function HandleOf(u: Update): nat {
    match u case Replace(b) => b.handle case PatchOf(p) => p.handle
  }

  function GenerationOf(u: Update): nat {
    match u case Replace(b) => b.generation case PatchOf(p) => p.generation
  }

  predicate ValidBuffer(b: Buffer) {
    && b.size.width > 0 && b.size.height > 0
    && b.stride >= 4 * b.size.width
    && b.stride * b.size.height <= MAX_BYTES
    && |b.bytes| == b.stride * b.size.height
  }

  ghost predicate Inv(buffers: Buffers) {
    forall h :: h in buffers ==> buffers[h].handle == h && ValidBuffer(buffers[h])
  }

  predicate SameMetadata(b: Buffer, p: Patch) {
    b.size == p.size && b.stride == p.stride && b.format == p.format && p.generation >= b.generation
  }

  /** The patch's rectangle is a non-empty part of the buffer. */
  predicate RectInside(b: Buffer, p: Patch) {
    && 0 <= p.rect.x && 0 <= p.rect.y && 0 < p.rect.width && 0 < p.rect.height
    && p.rect.x + p.rect.width <= b.size.width
    && p.rect.y + p.rect.height <= b.size.height
  }

  /** The byte lies in the rectangle's first `rows` rows. */
  predicate InRect(k: int, stride: int, rect: Rect, rows: int)
    requires stride > 0
  {
    rect.y <= k / stride < rect.y + rows && 4 * rect.x <= k % stride < 4 * (rect.x + rect.width)
  }

  /** Where in the patch the byte at `k` comes from. */
  function PatchIndex(k: int, stride: int, rect: Rect): int
    requires stride > 0
  {
    (k / stride - rect.y) * (4 * rect.width) + (k % stride - 4 * rect.x)
  }

  /** `now` is `before` with the patch's bytes in the rectangle's first `rows` rows, and only there. */
  ghost predicate Patched(now: seq<Byte>, before: seq<Byte>, p: Patch, stride: int, rows: int) {
    && stride > 0 && |now| == |before| && 0 < p.rect.width && 0 < p.rect.height && 0 <= rows <= p.rect.height
    && |p.bytes| == p.rect.height * (4 * p.rect.width)
    && forall k :: 0 <= k < |now| ==>
         if InRect(k, stride, p.rect, rows) then
           0 <= PatchIndex(k, stride, p.rect) < |p.bytes| && now[k] == p.bytes[PatchIndex(k, stride, p.rect)]
         else now[k] == before[k]
  }

  /** A patch is accepted exactly when its handle, metadata, rectangle and byte count all fit. */
  ghost predicate PatchAccepted(buffers: Buffers, p: Patch) {
    && p.handle in buffers
    && SameMetadata(buffers[p.handle], p)
    && RectInside(buffers[p.handle], p)
    && |p.bytes| == p.rect.height * (4 * p.rect.width)
  }

  predicate RectNegative(rect: Rect) {
    rect.x < 0 || rect.y < 0 || rect.width < 0 || rect.height < 0
  }

  /** What is wrong with a refused patch: a wrong byte count is told before a rectangle that does not fit. */
  ghost function PatchError(buffers: Buffers, p: Patch): Error {
    if p.handle !in buffers then MissingPatchBase
    else if !SameMetadata(buffers[p.handle], p) then PatchMetadataMismatch
    else if RectNegative(p.rect) then InvalidPatchBounds
    else if |p.bytes| != p.rect.height * (4 * p.rect.width) then InvalidPatchBytes
    else InvalidPatchBounds
  }

  /** A byte of the rectangle's row `row` sits in the run that row's copy writes, at the same distance. */
  lemma RowByte(k: int, stride: int, rect: Rect, row: nat)
    requires 0 <= k && stride > 0 && 0 <= rect.x && 0 <= rect.y && 0 < rect.width
    requires 4 * (rect.x + rect.width) <= stride
    ensures var target := (rect.y + row) * stride + 4 * rect.x;
      && (target <= k < target + 4 * rect.width <==> InRect(k, stride, rect, row + 1) && !InRect(k, stride, rect, row))
      && (target <= k < target + 4 * rect.width ==>
            PatchIndex(k, stride, rect) == row * (4 * rect.width) + (k - target))
  {
    ByteInRow(k, stride, rect.y + row, 4 * rect.x, 4 * rect.width);
    DivideByStride(k, stride);
  }

  lemma RowPatched(now: seq<Byte>, mid: seq<Byte>, before: seq<Byte>, p: Patch, stride: int, row: nat, source: int, target: int)
    requires Patched(mid, before, p, stride, row) && row < p.rect.height
    requires 0 <= p.rect.x && 0 <= p.rect.y
    requires 4 * (p.rect.x + p.rect.width) <= stride
    requires source == row * (4 * p.rect.width) && target == (p.rect.y + row) * stride + 4 * p.rect.x
    requires 0 <= source && source + 4 * p.rect.width <= |p.bytes|
    requires |now| == |mid|
    requires forall k :: 0 <= k < |now| ==>
      now[k] == if target <= k < target + 4 * p.rect.width then p.bytes[source + (k - target)] else mid[k]
    ensures Patched(now, before, p, stride, row + 1)
  {
    hide PatchIndex;
    forall k | 0 <= k < |now|
      ensures if InRect(k, stride, p.rect, row + 1) then
                0 <= PatchIndex(k, stride, p.rect) < |p.bytes| && now[k] == p.bytes[PatchIndex(k, stride, p.rect)]
              else now[k] == before[k]
    {
      RowByte(k, stride, p.rect, row);
    }
  }

  function Overwrite(bytes: seq<Byte>, at: nat, part: seq<Byte>): (r: seq<Byte>)
    requires at + |part| <= |bytes|
    ensures |r| == |bytes|
  {
    bytes[..at] + part + bytes[at + |part|..]
  }

  lemma StrideCovers(b: Buffer, p: Patch)
    requires ValidBuffer(b) && RectInside(b, p)
    ensures 4 * (p.rect.x + p.rect.width) <= b.stride
  {
  }

  lemma RowOverwritten(mid: seq<Byte>, b: Buffer, p: Patch, row: nat)
    requires ValidBuffer(b) && RectInside(b, p) && row < p.rect.height
    requires Patched(mid, b.bytes, p, b.stride, row)
    ensures var source, target := row * (4 * p.rect.width), (p.rect.y + row) * b.stride + 4 * p.rect.x;
      && 0 <= source <= source + 4 * p.rect.width <= |p.bytes|
      && 0 <= (p.rect.y + row) * b.stride <= target <= target + 4 * p.rect.width <= |mid| <= MAX_BYTES
      && Patched(Overwrite(mid, target, p.bytes[source..source + 4 * p.rect.width]), b.bytes, p, b.stride, row + 1)
  {
    hide ValidBuffer;
    PatchRowFits(b, p, row);
    StrideCovers(b, p);
    var source, target := row * (4 * p.rect.width), (p.rect.y + row) * b.stride + 4 * p.rect.x;
    var now := Overwrite(mid, target, p.bytes[source..source + 4 * p.rect.width]);
    RowPatched(now, mid, b.bytes, p, b.stride, row, source, target);
  }

  lemma PatchRowFits(b: Buffer, p: Patch, row: nat)
    requires ValidBuffer(b) && RectInside(b, p) && row < p.rect.height
    requires |p.bytes| == p.rect.height * (4 * p.rect.width)
    ensures var source := row * (4 * p.rect.width);
      0 <= source && source + 4 * p.rect.width <= |p.bytes|
    ensures var target := (p.rect.y + row) * b.stride + 4 * p.rect.x;
      && 0 <= (p.rect.y + row) * b.stride <= target
      && target + 4 * p.rect.width <= |b.bytes| <= MAX_BYTES
  {
    MulMonotone(0, row, 4 * p.rect.width);
    IndexInside(row, 4 * p.rect.width - 1, 4 * p.rect.width, p.rect.height);
    MulMonotone(0, p.rect.y + row, b.stride);
    IndexInside(p.rect.y + row, 4 * p.rect.x + 4 * p.rect.width - 1, b.stride, b.size.height);
  }

  class LiveCpuBufferRegistry {
    var buffers: Buffers

    ghost predicate Valid()
      reads this
    {
      Inv(buffers)
    }

    constructor ()
      ensures Valid() && buffers == map[]
    {
      buffers := map[];
    }

    /** Ok(false) is a stale update that was ignored. */
    method Apply(u: Update) returns (r: Result<bool, Error>)
      requires Valid()
      modifies this
      ensures Valid()
      ensures Applied(old(buffers), buffers, u, r)
    {
      var handle := HandleOf(u);
      if handle in buffers && GenerationOf(u) < buffers[handle].generation {
        return Ok(false);
      }
      match u {
        case Replace(buffer) =>
          if !ValidBuffer(buffer) {
            return Err(InvalidBufferMetadata);
          }
          buffers := buffers[buffer.handle := buffer];
        case PatchOf(patch) =>
          var applied := ApplyPatch(patch);
          if applied.Err? {
            return Err(applied.error);
          }
      }
      return Ok(true);
    }

    method ApplyPatch(patch: Patch) returns (r: Result<Unit, Error>)
      requires Valid()
      modifies this
      ensures Valid()
      ensures r.Ok? <==> PatchAccepted(old(buffers), patch)
      ensures r.Ok? ==> PatchedOnly(old(buffers), buffers, patch)
      ensures r.Err? ==> buffers == old(buffers) && r.error == PatchError(old(buffers), patch)
    {
      if patch.handle !in buffers {
        return Err(MissingPatchBase);
      }
      var buffer := buffers[patch.handle];
      if buffer.size != patch.size || buffer.stride != patch.stride || buffer.format != patch.format
         || patch.generation < buffer.generation
      {
        return Err(PatchMetadataMismatch);
      }
      var x: int, y: int, width: int, height: int := patch.rect.x, patch.rect.y, patch.rect.width, patch.rect.height;
      if x < 0 || y < 0 || width < 0 || height < 0 || buffer.size.width < 0 || buffer.size.height < 0 {
        return Err(InvalidPatchBounds);
      }
      var rowBytes := CheckedUsize(width * 4);
      if rowBytes.None? {
        return Err(InvalidPatchBounds);
      }
      var expected := CheckedUsize(rowBytes.value * height);
      if expected.None? {
        ExpectedFits(width, height);
        assert false;
        return Err(InvalidPatchBytes);
      }
      SameArea(width, height);
      var right := CheckedUsize(x + width);
      var bottom := CheckedUsize(y + height);
      if width == 0 || height == 0
         || right.None? || right.value > buffer.size.width
         || bottom.None? || bottom.value > buffer.size.height
         || |patch.bytes| != expected.value
      {
        return Err(if |patch.bytes| != expected.value then InvalidPatchBytes else InvalidPatchBounds);
      }
      CopyPatchRows(patch);
      buffers := buffers[patch.handle := buffers[patch.handle].(generation := patch.generation)];
      return Ok(Unit.Unit);
    }

    /** The row loop of an accepted patch: none of its checked steps can fail. */
    method CopyPatchRows(patch: Patch)
      requires Valid() && PatchAccepted(buffers, patch)
      modifies this
      ensures patch.handle in buffers
      ensures var buffer := old(buffers)[patch.handle];
        && buffers == old(buffers)[patch.handle := buffer.(bytes := buffers[patch.handle].bytes)]
        && Patched(buffers[patch.handle].bytes, buffer.bytes, patch, buffer.stride, patch.rect.height)
    {
      hide Patched, ValidBuffer, RectInside, SameMetadata, Overwrite;
      var buffer := buffers[patch.handle];
      AcceptedShape(buffer, patch);
      var rowBytes := 4 * patch.rect.width;
      NothingPatched(buffer.bytes, patch, buffer.stride);
      var row := 0;
      while row < patch.rect.height
        invariant 0 <= row <= patch.rect.height
        invariant patch.handle in buffers
        invariant buffers == old(buffers)[patch.handle := buffer.(bytes := buffers[patch.handle].bytes)]
        invariant Patched(buffers[patch.handle].bytes, buffer.bytes, patch, buffer.stride, row)
      {
        RowOverwritten(buffers[patch.handle].bytes, buffer, patch, row);
        var source := CheckedUsize(row * rowBytes);
        var start := CheckedUsize((patch.rect.y + row) * buffer.stride);
        if source.None? || start.None? {
          assert false;
          return;
        }
        var target := CheckedUsize(start.value + patch.rect.x * 4);
        if target.None? || target.value + rowBytes > |buffers[patch.handle].bytes| {
          assert false;
          return;
        }
        var bytes := buffers[patch.handle].bytes;
        var patched := Overwrite(bytes, target.value, patch.bytes[source.value..source.value + rowBytes]);
        buffers := buffers[patch.handle := buffer.(bytes := patched)];
        row := row + 1;
      }
    }

    method RetainHandles(retain: set<nat>)
      requires Valid()
      modifies this
      ensures Valid()
      ensures buffers == Retained(old(buffers), retain)
    {
      buffers := map h | h in buffers && h in retain :: buffers[h];
    }
  }

  lemma AcceptedShape(b: Buffer, p: Patch)
    requires ValidBuffer(b) && RectInside(b, p)
    ensures b.stride > 0 && 0 < p.rect.width && 0 < p.rect.height && 0 <= p.rect.x && 0 <= p.rect.y
    ensures p.rect.height * (4 * p.rect.width) <= USIZE_MAX
  {
    ExpectedFits(p.rect.width, p.rect.height);
    SameArea(p.rect.width, p.rect.height);
  }

  lemma SameArea(width: int, height: int)
    ensures width * 4 * height == height * (4 * width)
  {
  }

  lemma NothingPatched(bytes: seq<Byte>, p: Patch, stride: int)
    requires stride > 0 && 0 < p.rect.width && 0 < p.rect.height
    requires |p.bytes| == p.rect.height * (4 * p.rect.width)
    ensures Patched(bytes, bytes, p, stride, 0)
  {
  }

  lemma ExpectedFits(width: int, height: int)
    requires 0 <= width <= I32_MAX && 0 <= height <= I32_MAX
    ensures 0 <= width * 4 * height <= USIZE_MAX
  {
    MulMonotone(0, width * 4, height);
    MulMonotone(width * 4, I32_MAX * 4, height);
  }

  /** Only the patched buffer changes, and of it only the rectangle's bytes and the generation. */
  ghost predicate PatchedOnly(before: Buffers, after: Buffers, p: Patch) {
    && p.handle in before && p.handle in after
    && after == before[p.handle := after[p.handle]]
    && after[p.handle] == before[p.handle].(bytes := after[p.handle].bytes, generation := p.generation)
    && Patched(after[p.handle].bytes, before[p.handle].bytes, p, before[p.handle].stride, p.rect.height)
  }

  ghost predicate Stale(buffers: Buffers, u: Update) {
    HandleOf(u) in buffers && GenerationOf(u) < buffers[HandleOf(u)].generation
  }

  /** What one update does: nothing when it is stale or refused, else exactly the replacement or the patch. */
  ghost predicate Applied(before: Buffers, after: Buffers, u: Update, r: Result<bool, Error>) {
    && (r == Ok(false) <==> Stale(before, u))
    && (r == Ok(true) <==>
          !Stale(before, u) && (if u.Replace? then ValidBuffer(u.buffer) else PatchAccepted(before, u.patch)))
    && (r != Ok(true) ==> after == before)
    && (r.Err? ==> r.error == if u.Replace? then InvalidBufferMetadata else PatchError(before, u.patch))
    && (r == Ok(true) ==>
          if u.Replace? then after == before[u.buffer.handle := u.buffer] else PatchedOnly(before, after, u.patch))
  }

  // ---------------------------------------------------------------- consequences

  /** Reading the rectangle back after a patch, row by row, gives the patch. */
  lemma PatchReadsBack(before: Buffers, after: Buffers, p: Patch, row: nat, c: nat)
    requires Inv(before) && PatchAccepted(before, p) && PatchedOnly(before, after, p)
    requires row < p.rect.height && c < 4 * p.rect.width
    ensures var b := after[p.handle];
      var k := (p.rect.y + row) * b.stride + (4 * p.rect.x + c);
      && 0 <= k < |b.bytes| && 0 <= row * (4 * p.rect.width) + c < |p.bytes|
      && b.bytes[k] == p.bytes[row * (4 * p.rect.width) + c]
  {
    var b := before[p.handle];
    var k := (p.rect.y + row) * b.stride + (4 * p.rect.x + c);
    PatchRowFits(b, p, row);
    RowByte(k, b.stride, p.rect, row);
    InRectMonotone(k, b.stride, p.rect, row + 1);
  }

  lemma InRectMonotone(k: int, stride: int, rect: Rect, rows: int)
    requires stride > 0 && rows <= rect.height && InRect(k, stride, rect, rows)
    ensures InRect(k, stride, rect, rect.height)
  {
  }

  function Retained(buffers: Buffers, retain: set<nat>): Buffers {
    map h | h in buffers && h in retain :: buffers[h]
  }

  /** One thing that can happen to the registry. */
  ghost predicate Transition(before: Buffers, after: Buffers) {
    || (exists u, r :: Applied(before, after, u, r))
    || (exists retain: set<nat> :: after == Retained(before, retain))
  }

  ghost predicate IsRun(run: seq<Buffers>) {
    |run| > 1 ==> IsRun(run[..|run| - 1]) && Transition(run[|run| - 2], run[|run| - 1])
  }

  /** Through any run, a buffer that stays registered never goes back to an earlier generation. */
  lemma {:induction false} GenerationsNeverDecrease(run: seq<Buffers>, h: nat)
    requires run != [] && IsRun(run) && forall i :: 0 <= i < |run| ==> h in run[i]
    ensures run[0][h].generation <= run[|run| - 1][h].generation
  {
    if |run| > 1 {
      GenerationsNeverDecrease(run[..|run| - 1], h);
      TransitionKeepsGeneration(run[|run| - 2], run[|run| - 1], h);
    }
  }

  lemma TransitionKeepsGeneration(before: Buffers, after: Buffers, h: nat)
    requires Transition(before, after) && h in before && h in after
    ensures before[h].generation <= after[h].generation
  {
  }
}
