/**
 The generational table that hands out surface ids. It refines a partial map from ids to values, and a
 removed id stays dead until its slot has gone once around all generations.
 */
module SurfaceTable {
  import opened Basics

  datatype Id = Id(index: U32, generation: U32)

  datatype TableError = StaleId | InvalidId

  datatype Slot<T> = Slot(generation: U32, value: Option<T>)

  /** `free` is a stack: its last element is reused first. */
  datatype Table<T> = Table(slots: seq<Slot<T>>, free: seq<nat>)

  predicate IsValidId(id: Id) {
    id.index != U32_MAX && id.generation != 0
  }

  /** Wrapping increment that skips the invalid generation 0. */
  function NextGeneration(g: U32): U32 {
    Max((g + 1) % 0x1_0000_0000, 1)
  }

  /** None is the panic on a table with more slots than `u32` can index. */
  function Insert<T>(t: Table<T>, value: T): Option<(Table<T>, Id)>
    requires forall i :: i in t.free ==> i < |t.slots| && i <= U32_MAX
  {
    if t.free != [] then
      var index := t.free[|t.free| - 1];
      assert index in t.free;
      var generation := NextGeneration(t.slots[index].generation);
      Some((Table(t.slots[index := Slot(generation, Some(value))], t.free[..|t.free| - 1]), Id(index, generation)))
    else if |t.slots| > U32_MAX then None
    else Some((t.(slots := t.slots + [Slot(1, Some(value))]), Id(|t.slots|, 1)))
  }

  function Lookup<T>(t: Table<T>, id: Id): Result<Slot<T>, TableError> {
    if !IsValidId(id) then Err(InvalidId)
    else if id.index >= |t.slots| then Err(InvalidId)
    else if t.slots[id.index].generation != id.generation then Err(StaleId)
    else Ok(t.slots[id.index])
  }

  function Get<T>(t: Table<T>, id: Id): Option<T> {
    var slot := Lookup(t, id);
    if slot.Ok? then slot.value.value else None
  }

  function Remove<T>(t: Table<T>, id: Id): (Table<T>, Result<T, TableError>) {
    var slot := Lookup(t, id);
    if slot.Err? then (t, Err(slot.error))
    else if slot.value.value.None? then (t, Err(StaleId))
    else (Table(t.slots[id.index := slot.value.(value := None)], t.free + [id.index]), Ok(slot.value.value.value))
  }

  // ---------------------------------------------------------------- refinement of a partial map

  /** The free list has no duplicates and lists exactly the empty slots; no slot has generation 0. */
  ghost predicate Inv<T>(t: Table<T>) {
    && |t.slots| <= U32_MAX + 1
    && Distinct(t.free)
    && (forall i :: i in t.free ==> i < |t.slots| && i < U32_MAX)
    && (forall i: nat :: i < |t.slots| ==> (i in t.free <==> t.slots[i].value.None?))
    && (forall i :: 0 <= i < |t.slots| ==> t.slots[i].generation != 0)
  }

  /** The ids the table resolves, with their values. */
  ghost function Live<T>(t: Table<T>): map<Id, T>
    requires |t.slots| <= U32_MAX + 1
  {
    map i: nat | i < |t.slots| && i != U32_MAX && t.slots[i].value.Some? ::
      Id(i, t.slots[i].generation) := t.slots[i].value.value
  }

  lemma LiveAt<T>(t: Table<T>, id: Id)
    requires Inv(t)
    ensures id in Live(t) <==> Get(t, id).Some?
    ensures id in Live(t) ==> Get(t, id) == Some(Live(t)[id])
  {
    if Get(t, id).Some? {
      assert t.slots[id.index].value.Some? && Id(id.index, t.slots[id.index].generation) == id;
    }
  }

  lemma InsertKeepsInv<T>(t: Table<T>, value: T)
    requires Inv(t) && Insert(t, value).Some?
    ensures Inv(Insert(t, value).value.0)
  {
    var t' := Insert(t, value).value.0;
    if t.free != [] {
      var last := t.free[|t.free| - 1];
      assert last in t.free && t.free == t'.free + [last];
      WithoutLast(t.free);
    }
  }

  lemma WithoutLast(free: seq<nat>)
    requires free != [] && Distinct(free)
    ensures var (front, last) := (free[..|free| - 1], free[|free| - 1]);
      Distinct(front) && forall i :: i in front <==> i in free && i != last
  {
    var (front, last) := (free[..|free| - 1], free[|free| - 1]);
    assert free == front + [last];
    forall i | i in front ensures i != last {
      var k :| 0 <= k < |front| && front[k] == i;
      assert free[k] != free[|free| - 1];
    }
  }

  /** While there is a free slot or an index to spare, insertion adds one new id and changes no other. */
  lemma InsertRefines<T>(t: Table<T>, value: T)
    requires Inv(t) && (t.free != [] || |t.slots| < U32_MAX)
    ensures Insert(t, value).Some?
    ensures var (t', id) := Insert(t, value).value;
      Inv(t') && id !in Live(t) && Live(t') == Live(t)[id := value]
  {
    InsertKeepsInv(t, value);
    var (t', id) := Insert(t, value).value;
    if t.free != [] {
      assert t.free[|t.free| - 1] in t.free;
    }
    forall other: Id
      ensures other == id ==> Get(t', other) == Some(value) && Get(t, other).None?
      ensures other != id ==> Get(t', other) == Get(t, other)
    {
    }
    LiveByGet(t, t', id, value);
  }

  lemma LiveByGet<T>(t: Table<T>, t': Table<T>, id: Id, value: T)
    requires Inv(t) && Inv(t')
    requires Get(t', id) == Some(value) && Get(t, id).None?
    requires forall other: Id :: other != id ==> Get(t', other) == Get(t, other)
    ensures id !in Live(t) && Live(t') == Live(t)[id := value]
  {
    forall other: Id ensures other in Live(t') <==> other in Live(t) || other == id {
      LiveAt(t, other);
      LiveAt(t', other);
    }
    forall other | other in Live(t') ensures Live(t')[other] == Live(t)[id := value][other] {
      LiveAt(t, other);
      LiveAt(t', other);
    }
  }

  /** A fresh value is reachable by its id exactly when a slot was free or an index was left. */
  lemma InsertedResolvesIff<T>(t: Table<T>, value: T)
    requires Inv(t) && Insert(t, value).Some?
    ensures var (t', id) := Insert(t, value).value;
      Get(t', id) == Some(value) <==> t.free != [] || |t.slots| < U32_MAX
  {
    if t.free != [] {
      assert t.free[|t.free| - 1] in t.free;
    }
  }

  /** Removal succeeds exactly on live ids, takes that one entry away, and otherwise changes nothing. */
  lemma RemoveRefines<T>(t: Table<T>, id: Id)
    requires Inv(t)
    ensures var (t', r) := Remove(t, id);
      && Inv(t')
      && (r.Ok? <==> id in Live(t))
      && (r.Ok? ==> r.value == Live(t)[id] && Live(t') == Live(t) - {id})
      && (r.Err? ==> t' == t)
      && (r == Err(InvalidId) <==> !IsValidId(id) || id.index >= |t.slots|)
  {
    LiveAt(t, id);
    var (t', r) := Remove(t, id);
    if r.Ok? {
      RemoveKeepsInv(t, id);
      forall other: Id ensures Get(t', other) == if other == id then None else Get(t, other) {
      }
      LiveWithout(t, t', id);
    }
  }

  lemma LiveWithout<T>(t: Table<T>, t': Table<T>, id: Id)
    requires Inv(t) && Inv(t')
    requires forall other: Id :: Get(t', other) == if other == id then None else Get(t, other)
    ensures Live(t') == Live(t) - {id}
  {
    hide Get;
    forall other: Id ensures other in Live(t') <==> other in Live(t) && other != id {
      LiveAt(t, other);
      LiveAt(t', other);
    }
    forall other | other in Live(t') ensures Live(t')[other] == Live(t)[other] {
      LiveAt(t, other);
      LiveAt(t', other);
    }
  }

  lemma RemoveKeepsInv<T>(t: Table<T>, id: Id)
    requires Inv(t)
    ensures Inv(Remove(t, id).0)
  {
    var (t', r) := Remove(t, id);
    if r.Ok? {
      assert id.index !in t.free;
      forall i: nat ensures i in t'.free <==> i in t.free || i == id.index {
      }
    }
  }

  // ---------------------------------------------------------------- runs and stale ids

  datatype Op<T> = OpInsert(value: T) | OpRemove(id: Id)

  /** A panicking insertion ends a run; the table stays as it was. */
  function Step<T>(t: Table<T>, op: Op<T>): Table<T>
    requires Inv(t)
  {
    match op
    case OpInsert(value) => if Insert(t, value).Some? then Insert(t, value).value.0 else t
    case OpRemove(id) => Remove(t, id).0
  }

  lemma StepKeepsInv<T>(t: Table<T>, op: Op<T>)
    requires Inv(t)
    ensures Inv(Step(t, op))
  {
    match op
    case OpInsert(value) =>
      if Insert(t, value).Some? {
        InsertKeepsInv(t, value);
      }
    case OpRemove(id) =>
      RemoveKeepsInv(t, id);
  }

  ghost function Run<T>(t: Table<T>, ops: seq<Op<T>>): Table<T>
    requires Inv(t)
    decreases |ops|
  {
    if ops == [] then t
    else
      StepKeepsInv(t, ops[0]);
      Run(Step(t, ops[0]), ops[1..])
  }

  /** Whether the operation fills slot `i` again. */
  predicate ReusesSlot<T>(t: Table<T>, op: Op<T>, i: nat) {
    op.OpInsert? && t.free != [] && t.free[|t.free| - 1] == i
  }

  /** How often a run fills slot `i` again. */
  ghost function Reuses<T>(t: Table<T>, ops: seq<Op<T>>, i: nat): nat
    requires Inv(t)
    decreases |ops|
  {
    if ops == [] then 0
    else
      StepKeepsInv(t, ops[0]);
      (if ReusesSlot(t, ops[0], i) then 1 else 0) + Reuses(Step(t, ops[0]), ops[1..], i)
  }

  /** Generations run around 1 .. 2^32 - 1. */
  function Cycle(g: U32, k: nat): U32
    requires g != 0
  {
    (g - 1 + k) % U32_MAX + 1
  }

  lemma CycleNext(g: U32, k: nat)
    requires g != 0
    ensures NextGeneration(g) != 0 && Cycle(NextGeneration(g), k) == Cycle(g, k + 1)
  {
    if g == U32_MAX {
      assert (g - 1 + (k + 1)) % U32_MAX == k % U32_MAX;
    }
  }

  /** A slot's generation counts its reuses, around the cycle; until the first reuse an empty slot stays empty. */
  lemma {:induction false} RunCountsReuses<T>(t: Table<T>, ops: seq<Op<T>>, i: nat)
    requires Inv(t) && i < |t.slots|
    ensures i < |Run(t, ops).slots|
    ensures Run(t, ops).slots[i].generation == Cycle(t.slots[i].generation, Reuses(t, ops, i))
    ensures t.slots[i].value.None? && Reuses(t, ops, i) == 0 ==> Run(t, ops).slots[i].value.None?
    decreases |ops|
  {
    if ops != [] {
      StepKeepsInv(t, ops[0]);
      var t' := Step(t, ops[0]);
      StepOnSlot(t, ops[0], i);
      RunCountsReuses(t', ops[1..], i);
      if ReusesSlot(t, ops[0], i) {
        CycleNext(t.slots[i].generation, Reuses(t', ops[1..], i));
      }
    }
  }

  lemma StepOnSlot<T>(t: Table<T>, op: Op<T>, i: nat)
    requires Inv(t) && i < |t.slots|
    ensures i < |Step(t, op).slots|
    ensures Step(t, op).slots[i].generation ==
      if ReusesSlot(t, op, i) then NextGeneration(t.slots[i].generation) else t.slots[i].generation
    ensures !ReusesSlot(t, op, i) && t.slots[i].value.None? ==> Step(t, op).slots[i].value.None?
  {
    if t.free != [] {
      assert t.free[|t.free| - 1] in t.free;
    }
  }

  /** After any run, an id whose slot held its generation resolves iff the slot is full and came around whole cycles. */
  lemma ResolvesIffWholeCycles<T>(t: Table<T>, ops: seq<Op<T>>, id: Id)
    requires Inv(t) && IsValidId(id) && id.index < |t.slots| && t.slots[id.index].generation == id.generation
    ensures var end := Run(t, ops);
      && id.index < |end.slots|
      && (Get(end, id).Some? <==> end.slots[id.index].value.Some? && Reuses(t, ops, id.index) % U32_MAX == 0)
  {
    RunCountsReuses(t, ops, id.index);
    CycleIsIdentityIff(id.generation, Reuses(t, ops, id.index));
  }

  lemma CycleIsIdentityIff(g: U32, k: nat)
    requires g != 0
    ensures Cycle(g, k) == g <==> k % U32_MAX == 0
  {
    var q, r := k / U32_MAX, k % U32_MAX;
    assert k == q * U32_MAX + r;
    assert (g - 1 + k) % U32_MAX == (g - 1 + r) % U32_MAX;
  }

  /** A removed id stays unresolvable until its slot has been reused 2^32 - 1 times. */
  lemma RemovedStaysDead<T>(t: Table<T>, id: Id, ops: seq<Op<T>>)
    requires Inv(t) && Remove(t, id).1.Ok?
    ensures Inv(Remove(t, id).0)
    ensures Reuses(Remove(t, id).0, ops, id.index) < U32_MAX ==> Get(Run(Remove(t, id).0, ops), id).None?
  {
    RemoveKeepsInv(t, id);
    var t' := Remove(t, id).0;
    ResolvesIffWholeCycles(t', ops, id);
    RunCountsReuses(t', ops, id.index);
  }

  // ---------------------------------------------------------------- the full table

  /** `n` insertions into the empty table. */
  function Filling(n: nat): seq<Op<nat>> {
    seq(n, _ => OpInsert(0))
  }

  function Filled(n: nat): Table<nat> {
    Table(seq(n, _ => Slot(1, Some(0))), [])
  }

  lemma {:induction false} FillingFills(k: nat, n: nat)
    requires k + n <= U32_MAX
    ensures Inv(Filled(k)) && Run(Filled(k), Filling(n)) == Filled(k + n)
    decreases n
  {
    if n > 0 {
      assert Filling(n)[1..] == Filling(n - 1);
      assert Filled(k).slots + [Slot(1, Some(0))] == Filled(k + 1).slots;
      assert Step(Filled(k), Filling(n)[0]) == Filled(k + 1);
      FillingFills(k + 1, n - 1);
    }
  }

  /** After 2^32 - 1 insertions the next one succeeds, with an id that does not resolve. */
  lemma FullTableExample()
    ensures Inv(Filled(0)) && Filled(0) == Table([], [])
    ensures var t := Run(Filled(0), Filling(U32_MAX));
      && Inv(t)
      && Insert(t, 5).Some?
      && Insert(t, 5).value.1 == Id(U32_MAX, 1)
      && Get(Insert(t, 5).value.0, Insert(t, 5).value.1).None?
  {
    hide Run;
    FillingFills(0, U32_MAX);
    FilledIsSound(U32_MAX);
    InsertedResolvesIff(Filled(U32_MAX), 5);
  }

  lemma FilledIsSound(n: nat)
    requires n <= U32_MAX
    ensures Inv(Filled(n)) && |Filled(n).slots| == n
  {
  }

  // ---------------------------------------------------------------- the object

  class Surfaces<T> {
    var slots: seq<Slot<T>>
    var free: seq<nat>

    function Abs(): Table<T>
      reads this
    {
      Table(slots, free)
    }

    ghost predicate Valid()
      reads this
    {
      Inv(Abs())
    }

    constructor ()
      ensures Valid() && Live(Abs()) == map[]
    {
      slots, free := [], [];
    }

    /** The id is unusable only when every index but the last is taken. */
    method InsertValue(value: T) returns (id: Id)
      requires Valid() && (free != [] || |slots| <= U32_MAX)
      modifies this
      ensures Valid() && Insert(old(Abs()), value) == Some((Abs(), id))
      ensures old(free != [] || |slots| < U32_MAX) ==>
        id !in Live(old(Abs())) && Live(Abs()) == Live(old(Abs()))[id := value]
    {
      InsertKeepsInv(Abs(), value);
      if free != [] || |slots| < U32_MAX {
        InsertRefines(Abs(), value);
      }
      if free != [] {
        var index := free[|free| - 1];
        assert index in free;
        free := free[..|free| - 1];
        var generation := NextGeneration(slots[index].generation);
        slots := slots[index := Slot(generation, Some(value))];
        id := Id(index, generation);
      } else {
        id := Id(|slots|, 1);
        slots := slots + [Slot(1, Some(value))];
      }
    }

    method GetValue(id: Id) returns (value: Option<T>)
      requires Valid()
      ensures value == if id in Live(Abs()) then Some(Live(Abs())[id]) else None
    {
      LiveAt(Abs(), id);
      if !IsValidId(id) || id.index >= |slots| || slots[id.index].generation != id.generation {
        return None;
      }
      return slots[id.index].value;
    }

    method RemoveValue(id: Id) returns (r: Result<T, TableError>)
      requires Valid()
      modifies this
      ensures Valid() && (Abs(), r) == Remove(old(Abs()), id)
      ensures r.Ok? <==> id in Live(old(Abs()))
      ensures r.Ok? ==> r.value == Live(old(Abs()))[id] && Live(Abs()) == Live(old(Abs())) - {id}
    {
      RemoveRefines(Abs(), id);
      if !IsValidId(id) || id.index >= |slots| {
        return Err(InvalidId);
      }
      var slot := slots[id.index];
      if slot.generation != id.generation || slot.value.None? {
        return Err(StaleId);
      }
      slots := slots[id.index := slot.(value := None)];
      free := free + [id.index];
      return Ok(slot.value.value);
    }
  }
}
