/**
 * The object-identity index of `FactGenerator`: every registered value gets a dense
 * integer id, optionally followed by a block of "affiliated" ids for memory objects
 * that have no value of their own (the frame allocated by an `alloca`, say).
 * Ids below NUM_SPECIAL_OBJECTS are reserved for special objects.
 */
module ObjectIndex {
  import opened Wrappers

  type uint32 = x: int | 0 <= x < 0x1_0000_0000

  /** 2^32, the modulus of C++ `unsigned int` arithmetic. */
  const UINT32_RANGE: nat := 0x1_0000_0000

  /** Number of reserved ids. Its value belongs to the analysis configuration, so it
      is left unspecified here and every property below holds for any value. */
  const NUM_SPECIAL_OBJECTS: uint32

  /** The slot of `id` in the value list: `id - NUM_SPECIAL_OBJECTS` computed in
      32-bit unsigned arithmetic, so a reserved id wraps around to a huge slot. */
  function SlotOf(id: nat): (slot: nat)
    ensures NUM_SPECIAL_OBJECTS <= id ==> slot + NUM_SPECIAL_OBJECTS == id
    ensures id < NUM_SPECIAL_OBJECTS ==> UINT32_RANGE - NUM_SPECIAL_OBJECTS <= slot
  {
    if NUM_SPECIAL_OBJECTS <= id then id - NUM_SPECIAL_OBJECTS
    else id + UINT32_RANGE - NUM_SPECIAL_OBJECTS
  }

  /** Every registered value sits in the slot of its id. */
  ghost predicate MapAgreesWithList<V>(valueList: seq<Option<V>>, valueToObjectID: map<V, nat>) {
    forall v | v in valueToObjectID ::
      && NUM_SPECIAL_OBJECTS <= valueToObjectID[v] < NUM_SPECIAL_OBJECTS + |valueList|
      && valueList[valueToObjectID[v] - NUM_SPECIAL_OBJECTS] == Some(v)
  }

  /** Every base slot holds a registered value whose id is that slot's id. */
  ghost predicate ListAgreesWithMap<V>(valueList: seq<Option<V>>, valueToObjectID: map<V, nat>) {
    forall slot | 0 <= slot < |valueList| && valueList[slot].Some? ::
      && valueList[slot].value in valueToObjectID
      && valueToObjectID[valueList[slot].value] == slot + NUM_SPECIAL_OBJECTS
  }

  /** The representation invariant of the two parallel structures of the index.
      `valueList` holds one slot per allocated id (offset by NUM_SPECIAL_OBJECTS):
      `Some(v)` for the base slot of a registration of `v`, `None` for an
      affiliated placeholder. `valueToObjectID` maps each registered value to its
      base id. The map and the list agree in both directions, and the first slot is
      a base slot, so every slot has a base at or before it. */
  ghost predicate IndexValid<V>(valueList: seq<Option<V>>, valueToObjectID: map<V, nat>) {
    && MapAgreesWithList(valueList, valueToObjectID)
    && ListAgreesWithMap(valueList, valueToObjectID)
    && (|valueList| > 0 ==> valueList[0].Some?)
  }

  /** `v` is the main value of `slot`: the base slot of `v` lies at or before `slot`,
      and every slot after the base up to `slot` is a placeholder. */
  ghost predicate OwnsSlot<V>(valueList: seq<Option<V>>, valueToObjectID: map<V, nat>, v: V, slot: nat) {
    && v in valueToObjectID
    && NUM_SPECIAL_OBJECTS <= valueToObjectID[v]
    && valueToObjectID[v] - NUM_SPECIAL_OBJECTS <= slot < |valueList|
    && forall j | valueToObjectID[v] - NUM_SPECIAL_OBJECTS < j <= slot :: valueList[j].None?
  }

  /** A slot has at most one main value. */
  lemma OwnerUnique<V>(valueList: seq<Option<V>>, valueToObjectID: map<V, nat>, u: V, v: V, slot: nat)
    requires IndexValid(valueList, valueToObjectID)
    requires OwnsSlot(valueList, valueToObjectID, u, slot)
    requires OwnsSlot(valueList, valueToObjectID, v, slot)
    ensures u == v
  {
    assert valueList[valueToObjectID[u] - NUM_SPECIAL_OBJECTS] == Some(u);
    assert valueList[valueToObjectID[v] - NUM_SPECIAL_OBJECTS] == Some(v);
  }

  /** Every slot has a main value: the backward scan from any slot reaches a base
      slot, because the first slot of the list is never a placeholder. */
  lemma {:induction false} EverySlotHasOwner<V>(valueList: seq<Option<V>>, valueToObjectID: map<V, nat>, slot: nat)
    requires IndexValid(valueList, valueToObjectID)
    requires slot < |valueList|
    ensures exists v :: OwnsSlot(valueList, valueToObjectID, v, slot)
  {
    if valueList[slot].Some? {
      assert OwnsSlot(valueList, valueToObjectID, valueList[slot].value, slot);
    } else {
      EverySlotHasOwner(valueList, valueToObjectID, slot - 1);
      var v :| OwnsSlot(valueList, valueToObjectID, v, slot - 1);
      assert OwnsSlot(valueList, valueToObjectID, v, slot);
    }
  }

  /** The list after registering `v` with `k` affiliated objects: its base slot
      followed by `k` placeholders, appended. */
  function Registered<V>(valueList: seq<Option<V>>, v: V, k: nat): (list': seq<Option<V>>)
    ensures |list'| == |valueList| + k + 1
    ensures list'[..|valueList|] == valueList
    ensures list'[|valueList|] == Some(v)
    ensures forall j | |valueList| < j < |list'| :: list'[j].None?
  {
    valueList + [Some(v)] + seq(k, _ => None)
  }

  /** Registering a new value keeps the index valid. */
  lemma RegisterKeepsValid<V>(valueList: seq<Option<V>>, valueToObjectID: map<V, nat>, v: V, k: nat)
    requires IndexValid(valueList, valueToObjectID)
    requires v !in valueToObjectID
    ensures IndexValid(Registered(valueList, v, k), valueToObjectID[v := |valueList| + NUM_SPECIAL_OBJECTS])
  {
    var list' := Registered(valueList, v, k);
    var ids' := valueToObjectID[v := |valueList| + NUM_SPECIAL_OBJECTS];
    assert MapAgreesWithList(list', ids') by {
      forall u | u in ids'
        ensures NUM_SPECIAL_OBJECTS <= ids'[u] < NUM_SPECIAL_OBJECTS + |list'|
        ensures list'[ids'[u] - NUM_SPECIAL_OBJECTS] == Some(u)
      {
        if u != v {
          var slot := valueToObjectID[u] - NUM_SPECIAL_OBJECTS;
          assert list'[slot] == list'[..|valueList|][slot] == valueList[slot];
        }
      }
    }
    assert ListAgreesWithMap(list', ids') by {
      forall slot | 0 <= slot < |list'| && list'[slot].Some?
        ensures list'[slot].value in ids'
        ensures ids'[list'[slot].value] == slot + NUM_SPECIAL_OBJECTS
      {
        if slot < |valueList| {
          assert list'[slot] == list'[..|valueList|][slot] == valueList[slot];
        }
      }
    }
    assert |list'| > 0 ==> list'[0].Some? by {
      if |valueList| > 0 {
        assert list'[0] == list'[..|valueList|][0] == valueList[0];
      }
    }
  }

  /** After registering `v` with `k` affiliated objects, `v` is the main value of each
      of the `k + 1` new slots. */
  lemma RegisterOwnsBlock<V>(valueList: seq<Option<V>>, valueToObjectID: map<V, nat>, v: V, k: nat,
                             list': seq<Option<V>>, ids': map<V, nat>)
    requires list' == Registered(valueList, v, k)
    requires ids' == valueToObjectID[v := |valueList| + NUM_SPECIAL_OBJECTS]
    ensures forall slot | |valueList| <= slot <= |valueList| + k :: OwnsSlot(list', ids', v, slot)
  {
  }

  /** Registering a new value leaves the main value of every old slot unchanged. */
  lemma RegisterKeepsOwners<V>(valueList: seq<Option<V>>, valueToObjectID: map<V, nat>, v: V, k: nat)
    requires v !in valueToObjectID
    ensures forall u: V, slot: nat | OwnsSlot(valueList, valueToObjectID, u, slot) ::
              OwnsSlot(Registered(valueList, v, k), valueToObjectID[v := |valueList| + NUM_SPECIAL_OBJECTS], u, slot)
  {
    var list' := Registered(valueList, v, k);
    var ids' := valueToObjectID[v := |valueList| + NUM_SPECIAL_OBJECTS];
    forall u: V, slot: nat | OwnsSlot(valueList, valueToObjectID, u, slot)
      ensures OwnsSlot(list', ids', u, slot)
    {
      forall j | valueToObjectID[u] - NUM_SPECIAL_OBJECTS < j <= slot ensures list'[j].None? {
        assert list'[j] == list'[..|valueList|][j] == valueList[j];
      }
    }
  }

  /** The identity index of `FactGenerator`: the map from values to ids and the list
      of slots, updated in place by `AddValue` and read by the lookups. */
  class FactGenerator<V(==)> {
    var valueToObjectID: map<V, nat>
    var valueList: seq<Option<V>>

    /** The object invariant. */
    ghost predicate Valid()
      reads this
    {
      IndexValid(valueList, valueToObjectID)
    }

    /** `v` is the main value of `slot` in the current state. */
    ghost predicate Owns(v: V, slot: nat)
      reads this
    {
      OwnsSlot(valueList, valueToObjectID, v, slot)
    }

    /** A fresh, empty index. The C++ constructor then registers the module's values
        through `initObjectIDForModule`, which is not part of this model. */
    constructor ()
      ensures Valid()
      ensures valueList == [] && valueToObjectID == map[]
    {
      valueToObjectID := map[];
      valueList := [];
    }

    /** `id` names an allocated slot. Because the subtraction is unsigned, a reserved
        id is rejected as long as the list is not astronomically large. */
    function IsValidObjectID(id: nat): (r: bool)
      reads this
      ensures NUM_SPECIAL_OBJECTS <= id ==> (r <==> id < NUM_SPECIAL_OBJECTS + |valueList|)
      ensures |valueList| <= UINT32_RANGE - NUM_SPECIAL_OBJECTS ==>
                (r <==> NUM_SPECIAL_OBJECTS <= id < NUM_SPECIAL_OBJECTS + |valueList|)
    {
      SlotOf(id) < |valueList|
    }

    /** `value` has been registered, that is, it sits in the base slot of some block. */
    function HasValue(value: V): (r: bool)
      reads this
      ensures Valid() ==>
                (r <==> exists slot | 0 <= slot < |valueList| :: valueList[slot] == Some(value))
    {
      value in valueToObjectID
    }

    /** The id of a registered value: a valid id whose slot holds that value. */
    function GetObjectIDOfValue(value: V): (id: nat)
      reads this
      requires HasValue(value)
      ensures Valid() ==> NUM_SPECIAL_OBJECTS <= id
      ensures Valid() ==> IsValidObjectID(id) && GetValueOfObjectID(id) == Some(value)
    {
      valueToObjectID[value]
    }

    /** The value registered under `id`, or `None` when `id` is an affiliated
        placeholder, that is, when no value is registered under it. */
    function GetValueOfObjectID(id: nat): (r: Option<V>)
      reads this
      requires SlotOf(id) < |valueList|
      ensures Valid() ==> forall v | v in valueToObjectID ::
                (r == Some(v) <==> valueToObjectID[v] == SlotOf(id) + NUM_SPECIAL_OBJECTS)
      ensures Valid() && r.Some? ==> r.value in valueToObjectID
    {
      valueList[SlotOf(id)]
    }

    /** The id of the `idx`-th affiliated object of the object `base`; offset 0 is the
        base itself and is refused. */
    function GetAffiliatedObjectID(base: nat, idx: nat): (id: nat)
      requires idx != 0
      ensures base < id && id - base == idx
    {
      base + idx
    }

    /** The main value of any valid id: the value in whose block the id lies, found by
        scanning backwards from the id's slot to the nearest base slot. */
    method GetMainValueOfAffiliatedObjectID(id: nat) returns (r: V)
      requires Valid()
      requires SlotOf(id) < |valueList|
      ensures Owns(r, SlotOf(id))
      ensures forall v | Owns(v, SlotOf(id)) :: v == r
      ensures GetValueOfObjectID(id).Some? ==> r == GetValueOfObjectID(id).value
    {
      var index: nat := SlotOf(id);
      while valueList[index].None?
        invariant index <= SlotOf(id)
        invariant forall j | index < j <= SlotOf(id) :: valueList[j].None?
        decreases index
      {
        assert index != 0;
        index := index - 1;
      }
      r := valueList[index].value;
      forall v | Owns(v, SlotOf(id)) ensures v == r {
        OwnerUnique(valueList, valueToObjectID, v, r, SlotOf(id));
      }
    }

    /** Registers `value` with `affiliated` placeholder slots after it, once: a value
        already registered keeps its id and nothing changes, whatever `affiliated`
        is; a new value gets the next free id, followed by exactly `affiliated`
        placeholders, and no other entry or slot changes. */
    method AddValue(value: V, affiliated: nat) returns (id: nat)
      requires Valid()
      modifies this
      ensures Valid()
      ensures value in valueToObjectID && valueToObjectID[value] == id
      ensures old(value in valueToObjectID) ==>
                && id == old(valueToObjectID[value])
                && valueList == old(valueList)
                && valueToObjectID == old(valueToObjectID)
      ensures old(value !in valueToObjectID) ==>
                && id == old(|valueList|) + NUM_SPECIAL_OBJECTS
                && valueList == Registered(old(valueList), value, affiliated)
                && valueToObjectID == old(valueToObjectID)[value := id]
                && (forall slot | SlotOf(id) <= slot <= SlotOf(id) + affiliated :: Owns(value, slot))
      ensures forall u: V, slot: nat | OwnsSlot(old(valueList), old(valueToObjectID), u, slot) :: Owns(u, slot)
    {
      if value in valueToObjectID {
        return valueToObjectID[value];
      }
      ghost var list0, ids0 := valueList, valueToObjectID;
      id := |valueList| + NUM_SPECIAL_OBJECTS;
      valueList := valueList + [Some(value)];
      valueToObjectID := valueToObjectID[value := id];
      for i := 0 to affiliated
        invariant valueList == Registered(list0, value, i)
        invariant valueToObjectID == ids0[value := id]
      {
        valueList := valueList + [None];
        assert valueList == Registered(list0, value, i + 1);
      }
      assert valueList == Registered(list0, value, affiliated);
      assert valueToObjectID == ids0[value := |list0| + NUM_SPECIAL_OBJECTS];
      RegisterKeepsValid(list0, ids0, value, affiliated);
      RegisterOwnsBlock(list0, ids0, value, affiliated, valueList, valueToObjectID);
      RegisterKeepsOwners(list0, ids0, value, affiliated);
    }

    /** The one-argument overload: registers `value` with no affiliated object. */
    method AddSingleValue(value: V) returns (id: nat)
      requires Valid()
      modifies this
      ensures Valid()
      ensures value in valueToObjectID && valueToObjectID[value] == id
      ensures old(value in valueToObjectID) ==>
                && id == old(valueToObjectID[value])
                && valueList == old(valueList)
                && valueToObjectID == old(valueToObjectID)
      ensures old(value !in valueToObjectID) ==>
                && id == old(|valueList|) + NUM_SPECIAL_OBJECTS
                && valueList == old(valueList) + [Some(value)]
                && valueToObjectID == old(valueToObjectID)[value := id]
    {
      id := AddValue(value, 0);
    }
  }

  /** The affiliated layout of a block: if the `k` slots after the base of `v` are
      placeholders (as `AddValue(v, k)` leaves them), each affiliated id `1..k` of `v`
      is valid, resolves to no value of its own, and has `v` as its main value. */
  lemma AffiliatedObjectLayout<V>(g: FactGenerator<V>, v: V, k: nat, idx: nat)
    requires g.Valid()
    requires g.HasValue(v)
    requires g.Owns(v, SlotOf(g.GetObjectIDOfValue(v)) + k)
    requires 1 <= idx <= k
    ensures var id := g.GetAffiliatedObjectID(g.GetObjectIDOfValue(v), idx);
            && g.IsValidObjectID(id)
            && g.GetValueOfObjectID(id) == None
            && g.Owns(v, SlotOf(id))
  {
    var base := g.GetObjectIDOfValue(v);
    var id := g.GetAffiliatedObjectID(base, idx);
    assert SlotOf(id) == SlotOf(base) + idx;
  }
}
