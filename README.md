# Object-identity index of the Datalog fact generator

This project models the object-identity index inside `FactGenerator`, the C++
class that turns an LLVM module into facts for a Datalog points-to analysis. The
index gives every IR value a dense integer object id. Ids below
`NUM_SPECIAL_OBJECTS` are reserved for special objects. A value may be registered
with `k` *affiliated* objects: memory objects that have no IR value of their own,
such as the frame allocated by an `alloca`. They get the `k` ids directly after the
value's own id. Ids are resolved in both directions, and any id, base or
affiliated, can be resolved to its *main value*, the value whose block contains it.

The index keeps two structures in step by hand:

- `valueToObjectID`, a map from value to base id;
- `valueList`, one slot per allocated id, offset by `NUM_SPECIAL_OBJECTS`. A slot
  holds the registered value (`Some(v)`) or a null placeholder (`None`).

The Dafny files:

- `ObjectIndex.dfy` is the core. It holds the class `FactGenerator`, with the two
  fields and one member per C++ member. It also holds the representation invariant
  `IndexValid`, which has three parts: the map agrees with the list
  (`MapAgreesWithList`), the list agrees with the map (`ListAgreesWithMap`), and the
  first slot is a base slot. `OwnsSlot` defines which value "owns" a slot: the
  nearest base slot at or before it. Lemmas over the plain list and map prove what a
  registration does.
- `Intrinsics.dfy` holds the default result of `IntrinsicCall::match`.
- `Wrappers.dfy` holds `Option`, which stands for a nullable `const llvm::Value *`.

Modelling decisions:

- Values are an opaque type `V` with equality. It stands for a non-null
  `const llvm::Value *` compared by address.
- `NUM_SPECIAL_OBJECTS` is defined by the analysis configuration (`DatalogIR.h`,
  which is not part of this model). It is a constant of type `uint32` whose value is
  left open, so every proof holds for any value.
- The C++ computes `id - NUM_SPECIAL_OBJECTS` in 32-bit unsigned arithmetic.
  `SlotOf` models this exactly: a reserved id wraps around to a slot of at least
  `2^32 - NUM_SPECIAL_OBJECTS`. That is why `isValidObjectID` rejects reserved ids
  for any list that is not astronomically large.
- The C++ `assert`s become `requires` clauses. They cover `hasValue` before
  `getObjectIDOfValue`, `index < valueList.size()` before `getValueOfObjectID` and
  `getMainValueOfAffiliatedObjectID`, and `idx != 0` in `getAffiliatedObjectID`.
  In the code these are fatal assertions, not recoverable lookup or range errors,
  so the model does not give them an error result.
- The read-only functions have no precondition that the source does not have.
  Their `ensures` are stated under the class invariant `Valid()`. The two methods
  that depend on the invariant (`AddValue`, and the backward scan, whose
  termination rests on it) require `Valid()`. `AddValue` re-establishes it.
- `addValue` builds the new state with a loop of `push_back(NULL)`. The model keeps
  that loop and ties the resulting list to `Registered`. The lemmas
  `RegisterKeepsValid`, `RegisterOwnsBlock` and `RegisterKeepsOwners` state what the
  registration preserves and establishes.

## Model

| member | source | states |
|---|---|---|
| `ObjectIndex.SlotOf` | src/FactGenerator.h:86 | the slot of an id is `id - NUM_SPECIAL_OBJECTS` for a non-reserved id; a reserved id wraps around to a slot of at least `2^32 - NUM_SPECIAL_OBJECTS` |
| `ObjectIndex.FactGenerator.constructor` | src/FactGenerator.h:68-70 | a new index is empty and satisfies the invariant |
| `ObjectIndex.FactGenerator.IsValidObjectID` | src/FactGenerator.h:72-74 | for a non-reserved id: true exactly when the id is below `NUM_SPECIAL_OBJECTS + valueList.size()`; when the list holds at most `2^32 - NUM_SPECIAL_OBJECTS` slots: true exactly when `NUM_SPECIAL_OBJECTS <= id < NUM_SPECIAL_OBJECTS + valueList.size()`, so reserved ids are invalid |
| `ObjectIndex.FactGenerator.HasValue` | src/FactGenerator.h:76-78 | under the invariant, a value is known exactly when some slot of the list holds it |
| `ObjectIndex.FactGenerator.GetObjectIDOfValue` | src/FactGenerator.h:80-83 | requires the value to be registered; the id is not reserved, is valid, and `GetValueOfObjectID` maps it back to the value (the round trip) |
| `ObjectIndex.FactGenerator.GetValueOfObjectID` | src/FactGenerator.h:85-91 | requires the slot to exist; returns `Some(v)` exactly for the value `v` registered under that id, and `None` exactly when no value is registered under it (an affiliated placeholder) |
| `ObjectIndex.FactGenerator.GetAffiliatedObjectID` | src/FactGenerator.h:93-96 | requires `idx != 0`; the result lies `idx` past the base, strictly after it |
| `ObjectIndex.FactGenerator.GetMainValueOfAffiliatedObjectID` | src/FactGenerator.h:98-110 | for any id whose slot exists, the backward scan never reaches the `index != 0` failure; it returns the owner of the slot, which is the only owner; for a base id it returns the value stored there |
| `ObjectIndex.FactGenerator.AddValue` | src/FactGenerator.h:135-150 | a registered value keeps its id and nothing changes, whatever `affiliated` is; a new value gets id `valueList.size() + NUM_SPECIAL_OBJECTS`, the list grows by the value and exactly `affiliated` placeholders, the map gains only that entry, the value owns all `affiliated + 1` new slots, every old slot keeps its owner, and the invariant is kept |
| `ObjectIndex.FactGenerator.AddSingleValue` | src/FactGenerator.h:152-154 | the one-argument overload: the same as `AddValue` with no affiliated object, so a new value adds exactly one slot |
| `ObjectIndex.Registered` | src/FactGenerator.h:140-147 | the list after a registration: the old list unchanged as a prefix, then the value, then only placeholders, `k + 1` slots longer |
| `ObjectIndex.RegisterKeepsValid` | src/FactGenerator.h:140-149 | registering an unregistered value with any number of affiliated objects keeps the map and list in agreement and the first slot non-null |
| `ObjectIndex.RegisterOwnsBlock` | src/FactGenerator.h:141-147 | after registering `v` with `k` affiliated objects, `v` is the main value of each of the `k + 1` new slots |
| `ObjectIndex.RegisterKeepsOwners` | src/FactGenerator.h:140-147 | registering a new value leaves the main value of every existing slot unchanged |
| `ObjectIndex.OwnerUnique` | src/FactGenerator.h:98-110 | under the invariant, a slot has at most one main value, so the result of the backward scan is determined |
| `ObjectIndex.EverySlotHasOwner` | src/FactGenerator.h:104-107 | under the invariant, every slot has a main value: the scan backwards from any slot reaches a base slot, because the first slot is never a placeholder |
| `ObjectIndex.AffiliatedObjectLayout` | src/FactGenerator.h:93-96 | if the `k` slots after the base of `v` are placeholders (as `AddValue(v, k)` leaves them), then for `1 <= idx <= k` the affiliated id is valid, resolves to no value of its own, and has `v` as its main value |
| `Intrinsics.DefaultMatch` | src/FactGenerator.h:23-25 | the default matcher reports no match and zero affiliated objects for every call |

## Left out

- The traversal (`initObjectIDForModule`, `initObjectIDForFunction`, `initObjectIDForBasicBlock`, `initObjectIDForConstant`, `getAffiliatedObjectCountForInstruction`, `containPointer`, `isFreeArgument`, all `generateFactsFor*`): only declared in this header. Their bodies, and the LLVM IR and type system they walk, are not part of this model.
- `generateFacts`: a one-line forwarder into the traversal that is left out.
- The relation members generated by including `Analysis/Objects.datalog`: an external schema with no logic.
- The static `intrinsicList` and `IntrinsicCall::generate`: a global matcher registry, and an empty virtual that writes into the external fact program.
- `initializedConstants`: used only by the constant traversal.
- `unit`, the module pointer: used only by the traversal.
- `AddValue`: ids are unbounded. The 32-bit wrap of `valueList.size() + NUM_SPECIAL_OBJECTS` for a list of about 2^32 slots is not modelled.
- `GetAffiliatedObjectID`: the 32-bit wrap of `base + idx` is not modelled, for the same reason.
- `IsValidObjectID`: the clean range statement is proved for lists of at most `2^32 - NUM_SPECIAL_OBJECTS` slots. For larger lists the wrap-around makes some reserved ids pass, and the contract then says only what holds for non-reserved ids.
- Pointer identity, allocation and the lifetimes of `llvm::Value` objects: values are an opaque type with equality.
