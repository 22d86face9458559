/**
 The X window property table: bounded replace, prepend and append changes, and partial reads in units
 of four bytes (the ChangeProperty and GetProperty requests, section 9 of the X Window System Protocol,
 Version 11).
 */
module XProperties {
  import opened Basics

  type Atom = nat

  const MAX_VALUE_BYTES: nat := 256 * 1024
  const MAX_TABLE_BYTES: nat := 4 * 1024 * 1024
  const ANY_TYPE: Atom := 0
  const GENERATION_CAP: nat := 0xffff_ffff_ffff_ffff

  datatype Window = Window(raw: nat, generation: nat)

  datatype Key = Key(namespace: nat, window: Window, property: Atom)

  datatype Mode = Replace | Prepend | Append

  datatype Change = Change(mode: Mode, window: Window, property: Atom, propertyType: Atom, format: nat, bytes: seq<Byte>)

  datatype Record = Record(propertyType: Atom, format: nat, bytes: seq<Byte>, generation: nat)

  datatype Read = Read(window: Window, property: Atom, propertyType: Atom, longOffset: U32, longLength: U32)

  datatype Reply = Reply(propertyType: Atom, format: nat, bytesAfter: U32, itemCount: U32, bytes: seq<Byte>)

  datatype Error =
    | InvalidNamespace
    | InvalidWindow
    | InvalidFormat(format: nat)
    | ValueTooLarge(len: nat)
    | TableTooLarge(len: nat)
    | TypeMismatch
    | InvalidOffset
    | ReadTooLarge(len: nat)

  type Records = map<Key, Record>

  predicate IsValidWindow(w: Window) {
    w.raw != 0 && w.generation != 0
  }

  predicate IsValidFormat(format: nat) {
    format == 8 || format == 16 || format == 32
  }

  /** So many bytes are a whole number of items of the format. */
  predicate IsWhole(format: nat, bytes: nat) {
    format == 8 || (format == 16 && bytes % 2 == 0) || (format == 32 && bytes % 4 == 0)
  }

  // ---------------------------------------------------------------- sizes

  ghost function TotalOver(records: Records, keys: set<Key>): nat
    requires keys <= records.Keys
  {
    if keys == {} then 0
    else
      var k :| k in keys;
      |records[k].bytes| + TotalOver(records, keys - {k})
  }

  ghost function TotalBytes(records: Records): nat {
    TotalOver(records, records.Keys)
  }

  lemma {:induction false} TotalWithout(records: Records, keys: set<Key>, k: Key)
    requires keys <= records.Keys && k in keys
    ensures TotalOver(records, keys) == |records[k].bytes| + TotalOver(records, keys - {k})
  {
    var first :| first in keys && TotalOver(records, keys) == |records[first].bytes| + TotalOver(records, keys - {first});
    if first != k {
      TotalWithout(records, keys - {first}, k);
      TotalWithout(records, keys - {k}, first);
      assert keys - {first} - {k} == keys - {k} - {first};
    }
  }

  lemma {:induction false} TotalSame(a: Records, b: Records, keys: set<Key>)
    requires keys <= a.Keys && keys <= b.Keys && forall k :: k in keys ==> a[k].bytes == b[k].bytes
    ensures TotalOver(a, keys) == TotalOver(b, keys)
  {
    if keys != {} {
      var k :| k in keys;
      TotalWithout(a, keys, k);
      TotalWithout(b, keys, k);
      TotalSame(a, b, keys - {k});
    }
  }

  lemma {:induction false} TotalGrows(records: Records, some: set<Key>, all: set<Key>)
    requires some <= all <= records.Keys
    ensures TotalOver(records, some) <= TotalOver(records, all)
  {
    if some != all {
      var k :| k in all && k !in some;
      TotalWithout(records, all, k);
      TotalGrows(records, some, all - {k});
    }
  }

  /** What storing a record does to the total. */
  lemma TotalAfterStore(records: Records, k: Key, r: Record)
    ensures TotalBytes(records[k := r]) + LengthAt(records, k) == TotalBytes(records) + |r.bytes|
  {
    var after := records[k := r];
    var others := records.Keys - {k};
    assert after.Keys == others + {k} && after.Keys - {k} == others;
    TotalWithout(after, after.Keys, k);
    TotalSame(records, after, others);
    if k in records {
      TotalWithout(records, records.Keys, k);
    } else {
      assert others == records.Keys;
    }
  }

  function LengthAt(records: Records, k: Key): nat {
    if k in records then |records[k].bytes| else 0
  }

  // ---------------------------------------------------------------- changes

  /** The value a change produces, by concatenation. */
  function Combined(mode: Mode, stored: Option<seq<Byte>>, bytes: seq<Byte>): seq<Byte> {
    if mode == Replace || stored.None? then bytes
    else if mode == Append then stored.value + bytes
    else bytes + stored.value
  }

  function BytesAt(records: Records, k: Key): Option<seq<Byte>> {
    if k in records then Some(records[k].bytes) else None
  }

  function NextGeneration(records: Records, k: Key): nat {
    if k in records then Min(records[k].generation + 1, GENERATION_CAP) else 1
  }

  ghost function Apply(records: Records, namespace: nat, c: Change): Result<Records, Error> {
    var k := Key(namespace, c.window, c.property);
    var joins := c.mode != Replace && k in records;
    var bytes := Combined(c.mode, BytesAt(records, k), c.bytes);
    var total := TotalBytes(records) - LengthAt(records, k) + |bytes|;
    if namespace == 0 then Err(InvalidNamespace)
    else if !IsValidWindow(c.window) then Err(InvalidWindow)
    else if !IsValidFormat(c.format) then Err(InvalidFormat(c.format))
    else if |c.bytes| > MAX_VALUE_BYTES then Err(ValueTooLarge(|c.bytes|))
    else if joins && (records[k].propertyType != c.propertyType || records[k].format != c.format) then Err(TypeMismatch)
    else if joins && |bytes| > MAX_VALUE_BYTES then Err(ValueTooLarge(|bytes|))
    else if total > MAX_TABLE_BYTES then
      TotalHolds(records, k);
      Err(TableTooLarge(total))
    else Ok(records[k := Record(c.propertyType, c.format, bytes, NextGeneration(records, k))])
  }

  lemma TotalHolds(records: Records, k: Key)
    ensures TotalBytes(records) >= LengthAt(records, k)
  {
    if k in records {
      TotalWithout(records, records.Keys, k);
    }
  }

  function RemoveWindow(records: Records, namespace: nat, window: Window): Records {
    map k | k in records && !(k.namespace == namespace && k.window == window) :: records[k]
  }

  /** Values and the whole table stay within their limits, and formats are readable. */
  ghost predicate Inv(records: Records) {
    && TotalBytes(records) <= MAX_TABLE_BYTES
    && forall k :: k in records ==>
         |records[k].bytes| <= MAX_VALUE_BYTES && IsValidFormat(records[k].format) && records[k].generation >= 1
  }

  lemma ApplyKeepsInv(records: Records, namespace: nat, c: Change)
    requires Inv(records) && Apply(records, namespace, c).Ok?
    ensures Inv(Apply(records, namespace, c).value)
  {
    var k := Key(namespace, c.window, c.property);
    TotalAfterStore(records, k, Apply(records, namespace, c).value[k]);
  }

  lemma RestrictionKeepsInv(records: Records, rest: Records)
    requires Inv(records) && forall k :: k in rest ==> k in records && rest[k] == records[k]
    ensures Inv(rest)
  {
    TotalSame(records, rest, rest.Keys);
    TotalGrows(records, rest.Keys, records.Keys);
  }

  // ---------------------------------------------------------------- what a change stores

  /** The property the change is about. */
  function KeyOf(namespace: nat, c: Change): Key {
    Key(namespace, c.window, c.property)
  }

  /** The change joins a stored value instead of replacing it. */
  predicate Joins(records: Records, namespace: nat, c: Change) {
    c.mode != Replace && KeyOf(namespace, c) in records
  }

  /** The request itself is in order. */
  predicate ChangeFits(namespace: nat, c: Change) {
    && namespace != 0 && c.window.raw != 0 && c.window.generation != 0
    && (c.format == 8 || c.format == 16 || c.format == 32)
    && |c.bytes| <= 262144
  }

  /** The joined value has the stored type and format and does not grow beyond the value limit. */
  predicate JoinFits(records: Records, namespace: nat, c: Change) {
    Joins(records, namespace, c) ==>
      var stored := records[KeyOf(namespace, c)];
      stored.propertyType == c.propertyType && stored.format == c.format && |stored.bytes| + |c.bytes| <= 262144
  }

  /**
   An accepted change replaces the value, or puts the new bytes after or before the stored ones; it stores the
   type and format it names and counts the property's changes. Every other property stays as it is.
   */
  lemma ApplyStores(records: Records, namespace: nat, c: Change)
    requires Apply(records, namespace, c).Ok?
    ensures var after := Apply(records, namespace, c).value;
      var k := KeyOf(namespace, c);
      && k in after && after == records[k := after[k]]
      && after[k].propertyType == c.propertyType && after[k].format == c.format
      && (c.mode == Replace ==> after[k].bytes == c.bytes)
      && (k !in records ==> after[k].bytes == c.bytes && after[k].generation == 1)
      && (k in records && c.mode == Append ==> after[k].bytes == records[k].bytes + c.bytes)
      && (k in records && c.mode == Prepend ==> after[k].bytes == c.bytes + records[k].bytes)
      && (k in records ==> after[k].generation == Min(records[k].generation + 1, 0xffff_ffff_ffff_ffff))
  {
  }

  /** How large the table would be with the change in it. */
  ghost function TotalWith(records: Records, namespace: nat, c: Change): int {
    var k := KeyOf(namespace, c);
    TotalBytes(records) + |c.bytes| - (if k in records && c.mode == Replace then |records[k].bytes| else 0)
  }

  /** A change is refused for exactly one reason, told in this order: who and where, shape, sizes. */
  lemma ApplyAnswers(records: Records, namespace: nat, c: Change)
    ensures var x := Apply(records, namespace, c);
      var named := namespace != 0 && c.window.raw != 0 && c.window.generation != 0;
      var formed := named && (c.format == 8 || c.format == 16 || c.format == 32);
      var k := KeyOf(namespace, c);
      && (x == Err(InvalidNamespace) <==> namespace == 0)
      && (x == Err(InvalidWindow) <==> namespace != 0 && !named)
      && (x == Err(InvalidFormat(c.format)) <==> named && !formed)
      && (formed && |c.bytes| > 262144 ==> x == Err(ValueTooLarge(|c.bytes|)))
      && (x == Err(TypeMismatch) <==>
            && ChangeFits(namespace, c) && Joins(records, namespace, c)
            && (records[k].propertyType != c.propertyType || records[k].format != c.format))
      && ((ChangeFits(namespace, c) && Joins(records, namespace, c)
           && records[k].propertyType == c.propertyType && records[k].format == c.format
           && |records[k].bytes| + |c.bytes| > 262144) ==> x == Err(ValueTooLarge(|records[k].bytes| + |c.bytes|)))
      && ((ChangeFits(namespace, c) && JoinFits(records, namespace, c) && TotalWith(records, namespace, c) > 4194304) ==>
            x.Err? && x.error.TableTooLarge?)
      && (x.Ok? <==>
            ChangeFits(namespace, c) && JoinFits(records, namespace, c) && TotalWith(records, namespace, c) <= 4194304)
  {
    hide TotalBytes;
  }

  /** The changes each put their bytes at the end of the property, or each at its front, and are all accepted. */
  ghost predicate AllJoin(records: Records, k: Key, mode: Mode, cs: seq<Change>)
    decreases |cs|
  {
    cs != [] ==>
      && cs[0].mode == mode && KeyOf(k.namespace, cs[0]) == k
      && Apply(records, k.namespace, cs[0]).Ok?
      && AllJoin(Apply(records, k.namespace, cs[0]).value, k, mode, cs[1..])
  }

  ghost function AfterAll(records: Records, k: Key, cs: seq<Change>): Records
    decreases |cs|
  {
    if cs == [] then records
    else
      var x := Apply(records, k.namespace, cs[0]);
      AfterAll(if x.Ok? then x.value else records, k, cs[1..])
  }

  /** The bytes of the changes one after the other. */
  function Chained(cs: seq<Change>): seq<Byte> {
    if cs == [] then [] else cs[0].bytes + Chained(cs[1..])
  }

  /** The bytes of the changes, the last one first. */
  function ChainedBack(cs: seq<Change>): seq<Byte> {
    if cs == [] then [] else ChainedBack(cs[1..]) + cs[0].bytes
  }

  function StoredAt(records: Records, k: Key): seq<Byte> {
    if k in records then records[k].bytes else []
  }

  /** Appended pieces follow the stored value in the order they came. */
  lemma {:induction false} AppendsConcatenate(records: Records, k: Key, cs: seq<Change>)
    requires AllJoin(records, k, Append, cs)
    ensures StoredAt(AfterAll(records, k, cs), k) == StoredAt(records, k) + Chained(cs)
    decreases |cs|
  {
    hide Apply;
    if cs != [] {
      ApplyStores(records, k.namespace, cs[0]);
      AppendsConcatenate(Apply(records, k.namespace, cs[0]).value, k, cs[1..]);
    }
  }

  /** Prepended pieces precede it, the last one foremost. */
  lemma {:induction false} PrependsConcatenate(records: Records, k: Key, cs: seq<Change>)
    requires AllJoin(records, k, Prepend, cs)
    ensures StoredAt(AfterAll(records, k, cs), k) == ChainedBack(cs) + StoredAt(records, k)
    decreases |cs|
  {
    hide Apply;
    if cs != [] {
      ApplyStores(records, k.namespace, cs[0]);
      PrependsConcatenate(Apply(records, k.namespace, cs[0]).value, k, cs[1..]);
    }
  }

  /** Removal takes exactly the property, or exactly the window's properties in the namespace. */
  lemma RemovalTakes(records: Records, namespace: nat, window: Window, k: Key)
    ensures k in RemoveWindow(records, namespace, window) <==>
      k in records && (k.namespace != namespace || k.window != window)
    ensures k in RemoveWindow(records, namespace, window) ==> RemoveWindow(records, namespace, window)[k] == records[k]
  {
  }

  // ---------------------------------------------------------------- reads

  function ReadProperty(records: Records, namespace: nat, r: Read): Result<Reply, Error>
    requires forall k :: k in records ==> IsValidFormat(records[k].format)
  {
    var k := Key(namespace, r.window, r.property);
    if namespace == 0 then Err(InvalidNamespace)
    else if !IsValidWindow(r.window) then Err(InvalidWindow)
    else if k !in records then Ok(Reply(ANY_TYPE, 0, 0, 0, []))
    else
      var record := records[k];
      assert IsValidFormat(record.format);
      if r.propertyType != ANY_TYPE && r.propertyType != record.propertyType then
        Ok(Reply(record.propertyType, record.format, Min(|record.bytes|, U32_MAX), 0, []))
      else
        var offset := r.longOffset * 4;
        if offset > |record.bytes| then Err(InvalidOffset)
        else
          var maxRead := r.longLength * 4;
          if maxRead > MAX_VALUE_BYTES then Err(ReadTooLarge(maxRead))
          else
            var remaining := |record.bytes| - offset;
            var returned := Min(remaining, maxRead);
            Ok(Reply(
              record.propertyType,
              record.format,
              Min(remaining - returned, U32_MAX),
              Min(returned / (record.format / 8), U32_MAX),
              record.bytes[offset..offset + returned]))
  }

  /**
   What a read answers besides bytes: nothing is stored, another type is stored, or the offset or the length is
   out of range.
   */
  lemma ReadAnswers(records: Records, namespace: nat, r: Read)
    requires forall k :: k in records ==> IsValidFormat(records[k].format)
    ensures var x := ReadProperty(records, namespace, r);
      var k := Key(namespace, r.window, r.property);
      var named := namespace != 0 && r.window.raw != 0 && r.window.generation != 0;
      var mismatch := k in records && r.propertyType != 0 && r.propertyType != records[k].propertyType;
      && (x == Err(InvalidNamespace) <==> namespace == 0)
      && (x == Err(InvalidWindow) <==> namespace != 0 && !named)
      && (named && k !in records ==> x == Ok(Reply(0, 0, 0, 0, [])))
      && (named && mismatch && |records[k].bytes| <= U32_MAX ==>
            x == Ok(Reply(records[k].propertyType, records[k].format, |records[k].bytes|, 0, [])))
      && (x == Err(InvalidOffset) <==> named && k in records && !mismatch && 4 * r.longOffset > |records[k].bytes|)
      && (named && k in records && !mismatch && 4 * r.longOffset <= |records[k].bytes| && 4 * r.longLength > 262144 ==>
            x == Err(ReadTooLarge(4 * r.longLength)))
      && (x.Ok? <==>
            && named
            && (k in records && !mismatch ==> 4 * r.longOffset <= |records[k].bytes| && 4 * r.longLength <= 262144))
  {
  }

  /** A stored property asked for under its type or any type, in readable chunks. */
  ghost predicate Readable(records: Records, namespace: nat, r: Read) {
    var k := Key(namespace, r.window, r.property);
    && Inv(records)
    && namespace != 0 && IsValidWindow(r.window) && k in records
    && (r.propertyType == ANY_TYPE || r.propertyType == records[k].propertyType)
    && 1 <= r.longLength <= MAX_VALUE_BYTES / 4
  }

  /** One chunk: the bytes at the offset, and how many are left after them. */
  lemma ChunkEffect(records: Records, namespace: nat, r: Read)
    requires Readable(records, namespace, r)
    ensures var bytes := records[Key(namespace, r.window, r.property)].bytes;
      var reply := ReadProperty(records, namespace, r);
      && (reply.Ok? <==> 4 * r.longOffset <= |bytes|)
      && (reply.Err? ==> reply.error == InvalidOffset)
      && (reply.Ok? ==>
            && |reply.value.bytes| <= 4 * r.longLength
            && 4 * r.longOffset + |reply.value.bytes| + reply.value.bytesAfter == |bytes|
            && (reply.value.bytesAfter > 0 ==> |reply.value.bytes| == 4 * r.longLength)
            && reply.value.bytes == bytes[4 * r.longOffset..4 * r.longOffset + |reply.value.bytes|])
  {
    var record := records[Key(namespace, r.window, r.property)];
    WidthOf(record.format, 0);
    assert |record.bytes| <= MAX_VALUE_BYTES;
  }

  lemma WidthOf(format: nat, n: nat)
    requires IsValidFormat(format)
    ensures format / 8 == 1 || format / 8 == 2 || format / 8 == 4
    ensures n % (format / 8) == 0 ==> (n / (format / 8)) * (format / 8) == n
  {
  }

  lemma ChunkCounts(records: Records, namespace: nat, r: Read)
    requires Readable(records, namespace, r) && ReadProperty(records, namespace, r).Ok?
    ensures var record := records[Key(namespace, r.window, r.property)];
      var reply := ReadProperty(records, namespace, r).value;
      && reply.format == record.format
      && reply.itemCount == Min(|reply.bytes| / (record.format / 8), U32_MAX)
      && |record.bytes| <= MAX_VALUE_BYTES
  {
  }

  /**
   The item count accounts for every byte of a chunk exactly when the read ends before the stored value
   does or that value is made of whole items, which storing does not check.
   */
  lemma ChunkHoldsWholeItemsIff(records: Records, namespace: nat, r: Read)
    requires Readable(records, namespace, r) && ReadProperty(records, namespace, r).Ok?
    ensures var record := records[Key(namespace, r.window, r.property)];
      var reply := ReadProperty(records, namespace, r).value;
      reply.itemCount * (reply.format / 8) == |reply.bytes| <==>
        4 * (r.longOffset + r.longLength) < |record.bytes| || IsWhole(record.format, |record.bytes|)
  {
    hide ReadProperty, TotalBytes;
    ChunkEffect(records, namespace, r);
    ChunkCounts(records, namespace, r);
    var record := records[Key(namespace, r.window, r.property)];
    var reply := ReadProperty(records, namespace, r).value;
    ItemsExact(record.format, |record.bytes|, r.longOffset, |reply.bytes|, r.longLength, reply.bytesAfter);
  }

  lemma ItemsExact(format: nat, stored: nat, offset: nat, n: nat, length: nat, after: nat)
    requires IsValidFormat(format)
    requires 4 * offset + n + after == stored <= MAX_VALUE_BYTES
    requires n <= 4 * length && (after > 0 ==> n == 4 * length)
    ensures Min(n / (format / 8), U32_MAX) * (format / 8) == n <==> 4 * (offset + length) < stored || IsWhole(format, stored)
  {
    if format == 32 {
      assert format / 8 == 4 && n / 4 <= U32_MAX;
      WholeWords(stored, offset, n, length, after);
    } else if format == 16 {
      assert format / 8 == 2 && n / 2 <= U32_MAX;
      WholeHalves(stored, offset, n, length, after);
    } else {
      assert format / 8 == 1;
    }
  }

  lemma WholeWords(stored: nat, offset: nat, n: nat, length: nat, after: nat)
    requires 4 * offset + n + after == stored && n <= 4 * length && (after > 0 ==> n == 4 * length)
    ensures (n / 4) * 4 == n <==> 4 * (offset + length) < stored || stored % 4 == 0
  {
    if after == 0 {
      AddFours(4 * offset, n);
    }
  }

  lemma WholeHalves(stored: nat, offset: nat, n: nat, length: nat, after: nat)
    requires 4 * offset + n + after == stored && n <= 4 * length && (after > 0 ==> n == 4 * length)
    ensures (n / 2) * 2 == n <==> 4 * (offset + length) < stored || stored % 2 == 0
  {
    assert (n / 2) * 2 == n <==> n % 2 == 0;
    if after == 0 {
      assert 4 * offset == 2 * (2 * offset);
      AddTwos(4 * offset, n);
    } else {
      assert n == 2 * (2 * length);
    }
  }

  /** Three bytes of format 32 are stored, and reading them back counts no item. */
  lemma PartialItemStoredExample()
    ensures var window := Window(1, 1);
      var stored := Apply(map[], 1, Change(Replace, window, 1, 1, 32, [10, 20, 30]));
      && stored.Ok? && Inv(stored.value)
      && var reply := ReadProperty(stored.value, 1, Read(window, 1, ANY_TYPE, 0, 1));
      reply.Ok? && reply.value.bytes == [10, 20, 30] && reply.value.itemCount == 0 && reply.value.bytesAfter == 0
  {
    var c := Change(Replace, Window(1, 1), 1, 1, 32, [10, 20, 30]);
    assert TotalBytes(map[]) == 0;
    ApplyKeepsInv(map[], 1, c);
    var stored := Apply(map[], 1, c).value;
    assert stored[Key(1, c.window, c.property)].bytes[0..3] == [10, 20, 30];
  }

  /** The client's loop: read a chunk, and go on at the next offset while bytes are left. */
  ghost function ReadAll(records: Records, namespace: nat, r: Read): Result<seq<Byte>, Error>
    requires Readable(records, namespace, r)
    decreases Max(0, |records[Key(namespace, r.window, r.property)].bytes| - 4 * r.longOffset)
  {
    ChunkEffect(records, namespace, r);
    var reply := ReadProperty(records, namespace, r);
    if reply.Err? then Err(reply.error)
    else if reply.value.bytesAfter == 0 then Ok(reply.value.bytes)
    else
      var rest := ReadAll(records, namespace, r.(longOffset := r.longOffset + r.longLength));
      if rest.Err? then rest else Ok(reply.value.bytes + rest.value)
  }

  lemma {:induction false} ReadAllFrom(records: Records, namespace: nat, r: Read)
    requires Readable(records, namespace, r)
    requires 4 * r.longOffset <= |records[Key(namespace, r.window, r.property)].bytes|
    ensures ReadAll(records, namespace, r) == Ok(records[Key(namespace, r.window, r.property)].bytes[4 * r.longOffset..])
    decreases |records[Key(namespace, r.window, r.property)].bytes| - 4 * r.longOffset
  {
    hide ReadProperty, TotalBytes;
    ChunkEffect(records, namespace, r);
    var reply := ReadProperty(records, namespace, r).value;
    var bytes := records[Key(namespace, r.window, r.property)].bytes;
    if reply.bytesAfter > 0 {
      ReadAllFrom(records, namespace, r.(longOffset := r.longOffset + r.longLength));
      assert bytes[4 * r.longOffset..] == reply.bytes + bytes[4 * r.longOffset + 4 * r.longLength..];
    } else {
      assert reply.bytes == bytes[4 * r.longOffset..];
    }
  }

  /** Reading from the start in chunks of any readable length ends and returns exactly the stored bytes. */
  lemma ReadAllReturnsStored(records: Records, namespace: nat, r: Read)
    requires Readable(records, namespace, r) && r.longOffset == 0
    ensures ReadAll(records, namespace, r) == Ok(records[Key(namespace, r.window, r.property)].bytes)
  {
    ReadAllFrom(records, namespace, r);
  }

  // ---------------------------------------------------------------- runs

  datatype Op =
    | OpChange(namespace: nat, change: Change)
    | OpRemove(key: Key)
    | OpRemoveWindow(namespace: nat, window: Window)

  ghost function Step(records: Records, op: Op): Records {
    match op
    case OpChange(namespace, c) => var r := Apply(records, namespace, c); if r.Ok? then r.value else records
    case OpRemove(k) => records - {k}
    case OpRemoveWindow(namespace, window) => RemoveWindow(records, namespace, window)
  }

  ghost function Run(records: Records, ops: seq<Op>): Records
    decreases |ops|
  {
    if ops == [] then records else Run(Step(records, ops[0]), ops[1..])
  }

  /** The plain model: a map from keys to byte strings, without limits, types or generations. */
  ghost function Plain(records: Records): map<Key, seq<Byte>> {
    map k | k in records :: records[k].bytes
  }

  /** The plain effect of an operation; a change that the table refused has none. */
  ghost function PlainStep(plain: map<Key, seq<Byte>>, op: Op, refused: bool): map<Key, seq<Byte>> {
    match op
    case OpChange(namespace, c) =>
      var k := Key(namespace, c.window, c.property);
      if refused then plain
      else
        var stored := if k in plain then plain[k] else [];
        plain[k := match c.mode
                   case Replace => c.bytes
                   case Append => stored + c.bytes
                   case Prepend => c.bytes + stored]
    case OpRemove(k) => plain - {k}
    case OpRemoveWindow(namespace, window) =>
      map k | k in plain && !(k.namespace == namespace && k.window == window) :: plain[k]
  }

  ghost function PlainRun(records: Records, plain: map<Key, seq<Byte>>, ops: seq<Op>): map<Key, seq<Byte>>
    decreases |ops|
  {
    if ops == [] then plain
    else
      var refused := ops[0].OpChange? && Apply(records, ops[0].namespace, ops[0].change).Err?;
      PlainRun(Step(records, ops[0]), PlainStep(plain, ops[0], refused), ops[1..])
  }

  lemma StepKeepsInv(records: Records, op: Op)
    requires Inv(records)
    ensures Inv(Step(records, op))
  {
    match op
    case OpChange(namespace, c) =>
      if Apply(records, namespace, c).Ok? {
        ApplyKeepsInv(records, namespace, c);
      }
    case OpRemove(k) =>
      RestrictionKeepsInv(records, records - {k});
    case OpRemoveWindow(namespace, window) =>
      RestrictionKeepsInv(records, RemoveWindow(records, namespace, window));
  }

  lemma StepIsPlain(records: Records, op: Op)
    ensures Plain(Step(records, op)) ==
      PlainStep(Plain(records), op, op.OpChange? && Apply(records, op.namespace, op.change).Err?)
  {
    if op.OpChange? {
      var c := op.change;
      assert [] + c.bytes == c.bytes && c.bytes + [] == c.bytes;
      if Apply(records, op.namespace, c).Ok? {
        ApplyStores(records, op.namespace, c);
      }
    }
    assert Plain(Step(records, op)).Keys == Step(records, op).Keys;
  }

  lemma {:induction false} RunIsPlain(records: Records, ops: seq<Op>)
    requires Inv(records)
    ensures Inv(Run(records, ops))
    ensures Plain(Run(records, ops)) == PlainRun(records, Plain(records), ops)
    decreases |ops|
  {
    hide Inv, Step, PlainStep;
    if ops != [] {
      StepKeepsInv(records, ops[0]);
      StepIsPlain(records, ops[0]);
      RunIsPlain(Step(records, ops[0]), ops[1..]);
    }
  }

  // ---------------------------------------------------------------- whole items

  ghost predicate HoldsWholeItems(records: Records) {
    forall k :: k in records ==> IsWhole(records[k].format, |records[k].bytes|)
  }

  lemma WholeSum(format: nat, a: nat, b: nat)
    requires IsWhole(format, a)
    ensures IsWhole(format, a + b) <==> IsWhole(format, b)
  {
    if format == 32 {
      AddFours(a, b);
    } else if format == 16 {
      AddTwos(a, b);
    }
  }

  lemma AddFours(a: nat, b: nat)
    requires a % 4 == 0
    ensures (a + b) % 4 == b % 4
  {
    var q := a / 4;
    assert a == 4 * q;
  }

  lemma AddTwos(a: nat, b: nat)
    requires a % 2 == 0
    ensures (a + b) % 2 == b % 2
  {
    var q := a / 2;
    assert a == 2 * q;
  }

  /** An accepted change leaves whole items everywhere exactly when it carries whole items itself. */
  lemma ApplyKeepsWholeItemsIff(records: Records, namespace: nat, c: Change)
    requires HoldsWholeItems(records) && Apply(records, namespace, c).Ok?
    ensures HoldsWholeItems(Apply(records, namespace, c).value) <==> IsWhole(c.format, |c.bytes|)
  {
    var k := Key(namespace, c.window, c.property);
    var after := Apply(records, namespace, c).value;
    if k in records && c.mode != Replace {
      WholeSum(c.format, |records[k].bytes|, |c.bytes|);
    }
    assert IsWhole(after[k].format, |after[k].bytes|) <==> IsWhole(c.format, |c.bytes|);
  }

  /** The step stores bytes that are not whole items. */
  ghost predicate StoresPartialItem(records: Records, op: Op) {
    op.OpChange? && Apply(records, op.namespace, op.change).Ok? && !IsWhole(op.change.format, |op.change.bytes|)
  }

  ghost predicate StoresWholeItemsOnly(records: Records, ops: seq<Op>)
    decreases |ops|
  {
    ops == [] || (!StoresPartialItem(records, ops[0]) && StoresWholeItemsOnly(Step(records, ops[0]), ops[1..]))
  }

  /** After every step of the run every stored value is made of whole items. */
  ghost predicate StaysWhole(records: Records, ops: seq<Op>)
    decreases |ops|
  {
    ops == [] || (HoldsWholeItems(Step(records, ops[0])) && StaysWhole(Step(records, ops[0]), ops[1..]))
  }

  lemma StepKeepsWholeItemsIff(records: Records, op: Op)
    requires HoldsWholeItems(records)
    ensures HoldsWholeItems(Step(records, op)) <==> !StoresPartialItem(records, op)
  {
    hide Apply;
    if op.OpChange? && Apply(records, op.namespace, op.change).Ok? {
      ApplyKeepsWholeItemsIff(records, op.namespace, op.change);
    }
  }

  /** Every state of a run holds whole items if and only if every accepted change of it carries whole items. */
  lemma {:induction false} RunKeepsWholeItemsIff(records: Records, ops: seq<Op>)
    requires HoldsWholeItems(records)
    ensures StaysWhole(records, ops) <==> StoresWholeItemsOnly(records, ops)
    ensures StoresWholeItemsOnly(records, ops) ==> HoldsWholeItems(Run(records, ops))
    decreases |ops|
  {
    hide HoldsWholeItems, Step, StoresPartialItem;
    if ops != [] {
      StepKeepsWholeItemsIff(records, ops[0]);
      if !StoresPartialItem(records, ops[0]) {
        RunKeepsWholeItemsIff(Step(records, ops[0]), ops[1..]);
      }
    }
  }

  /** Changes as the wire decoder delivers them, the byte count being a number of items times their width. */
  predicate CarryWholeItems(ops: seq<Op>) {
    forall op :: op in ops && op.OpChange? && IsValidFormat(op.change.format) ==>
      IsWhole(op.change.format, |op.change.bytes|)
  }

  lemma {:induction false} DecodedChangesAreWhole(records: Records, ops: seq<Op>)
    requires CarryWholeItems(ops)
    ensures StoresWholeItemsOnly(records, ops)
    decreases |ops|
  {
    if ops != [] {
      assert ops[0] in ops;
      assert forall op :: op in ops[1..] ==> op in ops;
      DecodedChangesAreWhole(Step(records, ops[0]), ops[1..]);
    }
  }

  /** So after any run of decoded changes from the empty table, every chunk's item count accounts for its bytes. */
  lemma RunChunksAreWhole(ops: seq<Op>, namespace: nat, r: Read)
    requires CarryWholeItems(ops)
    requires Readable(Run(map[], ops), namespace, r) && ReadProperty(Run(map[], ops), namespace, r).Ok?
    ensures var reply := ReadProperty(Run(map[], ops), namespace, r).value;
      reply.itemCount * (reply.format / 8) == |reply.bytes|
  {
    hide Run, ReadProperty, TotalBytes, StoresWholeItemsOnly;
    DecodedChangesAreWhole(map[], ops);
    RunKeepsWholeItemsIff(map[], ops);
    ChunkHoldsWholeItemsIff(Run(map[], ops), namespace, r);
  }

  // ---------------------------------------------------------------- the object

  class XPropertyTable {
    var records: Records

    ghost predicate Valid()
      reads this
    {
      Inv(records)
    }

    constructor ()
      ensures Valid() && records == map[]
    {
      records := map[];
    }

    /** Adds up the stored bytes; within the limits this cannot overflow. */
    method SumBytes() returns (total: nat)
      ensures total == TotalBytes(records)
    {
      total := 0;
      var rest := records.Keys;
      while rest != {}
        invariant rest <= records.Keys
        invariant total + TotalOver(records, rest) == TotalBytes(records)
        decreases |rest|
      {
        var k :| k in rest;
        TotalWithout(records, rest, k);
        total := total + |records[k].bytes|;
        rest := rest - {k};
      }
    }

    method ApplyChange(namespace: nat, change: Change) returns (r: Result<Record, Error>)
      requires Valid()
      modifies this
      ensures Valid()
      ensures var spec := Apply(old(records), namespace, change);
        && records == (if spec.Ok? then spec.value else old(records))
        && (r.Ok? <==> spec.Ok?)
        && (r.Err? ==> r.error == spec.error)
        && (r.Ok? ==> r.value == records[Key(namespace, change.window, change.property)])
    {
      hide Inv;
      if Apply(records, namespace, change).Ok? {
        ApplyKeepsInv(records, namespace, change);
      }
      if namespace == 0 {
        return Err(InvalidNamespace);
      }
      if !IsValidWindow(change.window) {
        return Err(InvalidWindow);
      }
      if !IsValidFormat(change.format) {
        return Err(InvalidFormat(change.format));
      }
      if |change.bytes| > MAX_VALUE_BYTES {
        return Err(ValueTooLarge(|change.bytes|));
      }
      var k := Key(namespace, change.window, change.property);
      var generation := NextGeneration(records, k);
      var bytes := change.bytes;
      if change.mode != Replace && k in records {
        var stored := records[k];
        if stored.propertyType != change.propertyType || stored.format != change.format {
          return Err(TypeMismatch);
        }
        bytes := if change.mode == Append then stored.bytes + change.bytes else change.bytes + stored.bytes;
        if |bytes| > MAX_VALUE_BYTES {
          return Err(ValueTooLarge(|bytes|));
        }
      }
      var total := SumBytes();
      TotalHolds(records, k);
      total := total - LengthAt(records, k) + |bytes|;
      if total > MAX_TABLE_BYTES {
        return Err(TableTooLarge(total));
      }
      var record := Record(change.propertyType, change.format, bytes, generation);
      records := records[k := record];
      return Ok(record);
    }

    method Remove(k: Key) returns (removed: Option<Record>)
      requires Valid()
      modifies this
      ensures Valid()
      ensures records == old(records) - {k}
      ensures removed == if k in old(records) then Some(old(records)[k]) else None
    {
      RestrictionKeepsInv(records, records - {k});
      removed := if k in records then Some(records[k]) else None;
      records := records - {k};
    }

    method RemoveAllOf(namespace: nat, window: Window) returns (count: nat)
      requires Valid()
      modifies this
      ensures Valid()
      ensures records == RemoveWindow(old(records), namespace, window)
      ensures count == |old(records)| - |records|
    {
      var rest := RemoveWindow(records, namespace, window);
      RestrictionKeepsInv(records, rest);
      assert rest.Keys <= records.Keys;
      SubsetIsSmaller(rest.Keys, records.Keys);
      count := |records| - |rest|;
      records := rest;
    }
  }
}
