# ezEngine component managers, as a Dafny model

This project models two parts of ezEngine's world runtime and proves properties about them.

- **The per-type component manager** (`ezComponentManagerBase` and `ezComponentManager<T, CompactStorage>`):
  - An id table maps a handle to the storage position of its component. A handle is an index, the generation it was issued with, and a type id.
  - Block storage holds the component records.
  - Deletion has two steps. `DeleteComponent` invalidates the component at once. `DeleteComponentEntry` / `DeleteDeadComponent` remove it later. In compact storage that removal moves the last record into the hole, and the id table is patched so the moved component's handle still resolves to it.
  - The file also defines the update-function descriptor, with its four ordered phases.
  - Deregistration of update functions matches on function and phase only.
  - `ezComponentManagerFactory` hands out sequential 16-bit type ids and keeps a creator per id.
- **The bookkeeping of `ezPxDynamicActorComponent`**, without the PhysX SDK:
  - the constructor defaults and the two idempotent setters;
  - the manager's list of kinematic components, kept with `PushBack` and `RemoveSwap`;
  - the early exit of `OnSimulationStarted` for an actor without shapes;
  - the depth-first centre-of-mass search;
  - the order in which the persistent fields are written and read.

Modules:

- `Common` (`common.dfy`):
  - `Option`;
  - `ezUInt16` with wrap-around;
  - the `ezArrayBase` operations `RemoveAtSwap`, `IndexOf` and `RemoveSwap`.
- `ComponentManagement` (`component_manager.dfy`):
  - the id table (`Slot`s with a generation, a FIFO free list and a live count);
  - the storage (`Cell`s);
  - the invariant that ties the two together (`TableMatchesStorage`);
  - the class `ComponentManager`.

  A ghost set `retired` holds every id ever removed. The invariant keeps each of them older than its slot's generation, so a deleted handle never resolves again.
- `UpdateFunctions` (`update_functions.dfy`):
  - `Phase`;
  - `UpdateFunctionDesc`;
  - the deregistration key;
  - a registry class standing for the world's table of registered functions.
- `ManagerFactory` (`factory.dfy`): the factory class and the `Registration` invariant.
- `GameObjects` (`game_objects.dfy`): the object hierarchy and the specification of the centre-of-mass search as "first marked object in pre-order".
- `Streams` (`streams.dfy`): a writer that appends typed values and a reader that reads them back in order.
- `PxDynamicActor` (`px_dynamic_actor.dfy`): the component, its manager's kinematic list, the record of what the component told its PhysX actor, and the (de)serialisation format.

The storage model:

- Storage is a sequence of positions, and allocation appends a record.
- A live index of the id table names the position of the record that carries that index and the slot's generation, and vice versa.
- Removing an index bumps its generation and appends it to the free list. Allocation reuses the oldest free index.

`IsValidComponent` also checks the handle's type id against the manager's, because a handle of another component type is not this manager's component.

## Model

| member | source | states |
|---|---|---|
| Common.ToUInt16 | Code/Engine/Core/World/ComponentManager.h:251-252 | Converting to ezUInt16 keeps 0..65535 and otherwise wraps modulo 65536 (so -1 becomes 65535) |
| Common.RemoveAtSwap | Code/Engine/Core/World/ComponentManager.h:179-183 | Swap-removal shrinks the array by one, puts the last element at the removed position and leaves every other position alone |
| Common.RemoveAtSwapMultiset | Code/Engine/Core/World/ComponentManager.h:179-183 | Swap-removal removes exactly one occurrence of the removed element: the result is a permutation of the rest |
| Common.IndexOf | Code/Engine/PhysXPlugin/Components/Implementation/PxDynamicActorComponent.cpp:129 | The index of the first occurrence, or -1 exactly when the element is absent |
| Common.RemoveSwap | Code/Engine/PhysXPlugin/Components/Implementation/PxDynamicActorComponent.cpp:129 | RemoveSwap by value swap-removes the first occurrence of the value, and leaves an array without it unchanged |
| Common.RemoveSwapMultiset | Code/Engine/PhysXPlugin/Components/Implementation/PxDynamicActorComponent.cpp:129 | RemoveSwap by value takes away one occurrence if there is one (length drops by one) and leaves an array without the value unchanged |
| Common.RemoveSwapUnlists | Code/Engine/PhysXPlugin/Components/Implementation/PxDynamicActorComponent.cpp:129 | For a value present at most once, RemoveSwap leaves it absent and every other value's multiplicity unchanged |
| ComponentManagement.LiveCountUpdate | Code/Engine/Core/World/ComponentManager.h:41-42 | Rewriting one id-table slot changes the component count only by that slot's change |
| ComponentManagement.LiveCountAppend | Code/Engine/Core/World/ComponentManager.h:41-42 | Appending a slot raises the component count by one exactly when the slot is live |
| ComponentManagement.ReuseFreeIndexKeepsAgreement | Code/Engine/Core/World/ComponentManager.h:121-128 | Registering a record under the oldest free index keeps id table and storage in agreement, and the new id was never removed before |
| ComponentManagement.AppendIndexKeepsAgreement | Code/Engine/Core/World/ComponentManager.h:121-128 | Registering a record under a new index with generation 0 keeps id table and storage in agreement, and that id was never removed before |
| ComponentManagement.Records | Code/Engine/Core/World/ComponentManager.h:164-168 | Iteration visits exactly the records in storage, never more than there are positions; order and one visit per record are given by RecordsAppend and RecordsOfOneCell |
| ComponentManagement.CompactRecordsAreAllCells | Code/Engine/Core/World/ComponentManager.h:164-168 | With compact storage, iteration visits every position, in order |
| ComponentManagement.RecordsAppend | Code/Engine/Core/World/ComponentManager.h:164-168 | Iteration over two stretches of storage visits the first stretch's records in order, then the second's |
| ComponentManagement.RecordsOfOneCell | Code/Engine/Core/World/ComponentManager.h:164-168 | A position holding a record is visited exactly once; a tombstone is skipped |
| ComponentManagement.CompactDeletionRecords | Code/Engine/Core/World/ComponentManager.h:179-183 | After compact deletion at pos, iteration is the previous iteration with the last record moved into pos and nothing else moved |
| ComponentManagement.TombstoneDeletionRecords | Code/Engine/Core/World/ComponentManager.h:179-183 | After non-compact deletion at pos, iteration drops exactly that record and visits all others in the same order |
| ComponentManagement.ComponentManager.constructor | Code/Engine/Core/World/ComponentManager.h:148-149 | A new manager has no components and an empty id table, and satisfies the invariant |
| ComponentManagement.ComponentManager.ValidIffCarriedByRecord | Code/Engine/Core/World/ComponentManager.h:32-33 | IsValidComponent holds for a handle exactly when it has the manager's type id and some record in storage carries its id; a valid handle's id was never removed |
| ComponentManagement.ComponentManager.TryGetComponent | Code/Engine/Core/World/ComponentManager.h:32-39 | True exactly when IsValidComponent holds. The result is then the record carrying the handle's id, never a removed one. Otherwise the out value is untouched |
| ComponentManagement.ComponentManager.GetComponentCount | Code/Engine/Core/World/ComponentManager.h:41-42 | The number of live ids in the table |
| ComponentManagement.ComponentManager.CreateComponentEntry | Code/Engine/Core/World/ComponentManager.h:121-128 | Registers the record with a fresh id (never removed before, different from every live id). The handle resolves to the record, the count rises by one and every other handle resolves as before |
| ComponentManagement.ComponentManager.AllocateComponent | Code/Engine/Core/World/ComponentManager.h:152-153 | Returns a handle that is valid, was not valid before and resolves to the newly appended record; every other valid handle still resolves as before |
| ComponentManagement.ComponentManager.CreateComponent | Code/Engine/Core/World/ComponentManager.h:155-156 | AllocateComponent plus the new record's position, which the handle resolves to: a fresh, never-removed id, the count up by one, every other handle resolving as before |
| ComponentManagement.ComponentManager.DeleteComponent | Code/Engine/Core/World/ComponentManager.h:47-48 | The handle stops resolving at once and its id is retired; its record stays in place, without its id, awaiting deletion; exactly the other handles stay valid; an invalid handle changes nothing |
| ComponentManagement.ComponentManager.DeleteDeadComponent | Code/Engine/Core/World/ComponentManager.h:179-183 | Compact storage swap-removes the record and reports the single moved record (the last one, if it was not the removed one). Non-compact storage leaves a tombstone and moves nothing |
| ComponentManagement.ComponentManager.DeleteComponentEntry | Code/Engine/Core/World/ComponentManager.h:119-128 | After physical deletion and the id-table patch, the same handles are valid. Each still reaches its own record. Only a handle to the moved last record changes position, to the freed one |
| UpdateFunctions.PhaseValue | Code/Engine/Core/World/ComponentManager.h:68-81 | Every phase has an enum value below COUNT (4) |
| UpdateFunctions.PhaseFromValue | Code/Engine/Core/World/ComponentManager.h:68-81 | Exactly the values below COUNT name a phase, and they map back to themselves |
| UpdateFunctions.PhaseValuesAreOrdered | Code/Engine/Core/World/ComponentManager.h:72-81 | Values and phases are in one-to-one correspondence; Default is PreAsync; PreAsync < Async < PostAsync < PostTransform is a strict total order |
| UpdateFunctions.NewUpdateFunctionDesc | Code/Engine/Core/World/ComponentManager.h:84-98 | The constructor keeps function and name and sets phase PreAsync, no dependencies, not only-when-simulating and granularity 0, so the granularity rule holds in any phase |
| UpdateFunctions.WithoutKeyMembers | Code/Engine/Core/World/ComponentManager.h:104-105 | Deregistration removes every function with the given function and phase and keeps every other |
| UpdateFunctions.DeregisterAbsentIsNoOp | Code/Engine/Core/World/ComponentManager.h:104-105 | Deregistering a function not registered in that phase changes nothing |
| UpdateFunctions.WithoutKeyAppend | Code/Engine/Core/World/ComponentManager.h:104-105 | Deregistration keeps the remaining functions in registration order |
| UpdateFunctions.RegisterThenDeregister | Code/Engine/Core/World/ComponentManager.h:101-105 | Register then deregister with any descriptor of the same function and phase, whatever its other fields, restores the registrations |
| UpdateFunctions.UpdateFunctionRegistry.RegisterUpdateFunction | Code/Engine/Core/World/ComponentManager.h:98-102 | Appends a descriptor that keeps the granularity rule |
| UpdateFunctions.UpdateFunctionRegistry.DeregisterUpdateFunction | Code/Engine/Core/World/ComponentManager.h:104-105 | Removes exactly the registrations with the descriptor's function and phase |
| ManagerFactory.RegisterNewType | Code/Engine/Core/World/ComponentManager.h:213-229 | Giving a new type the next id and appending its creator extends the registration invariant by that type |
| ManagerFactory.DistinctTypesGetDistinctIds | Code/Engine/Core/World/ComponentManager.h:213-226 | Up to 65536 registrations, distinct types have distinct ids |
| ManagerFactory.CreatorAtTypeId | Code/Engine/Core/World/ComponentManager.h:219-229 | Up to 65536 registrations, the creator stored at a type's id is that type's |
| ManagerFactory.RegisteredIdIsNotAbstract | Code/Engine/Core/World/ComponentManager.h:247-252 | Below 65536 registrations, no registered id equals the id abstract types report, ezUInt16(-1) |
| ManagerFactory.ComponentManagerFactory.constructor | Code/Engine/Core/World/ComponentManager.h:223-229 | The factory starts with no types, next id 0 and no creators |
| ManagerFactory.ComponentManagerFactory.RegisterComponentManager | Code/Engine/Core/World/ComponentManager.h:213-229 | A new type gets the next id, wrapping at 65536, and its creator is appended at that index. A known type keeps its id and nothing changes. Other types keep their ids |
| ManagerFactory.ComponentManagerFactory.GetTypeId | Code/Engine/Core/World/ComponentManager.h:216-217 | A registered type's id is its registration number (as ezUInt16); the result for an unregistered type is not modelled (see Left out) |
| ManagerFactory.ComponentManagerFactory.CreateComponentManager | Code/Engine/Core/World/ComponentManager.h:219-220 | The creator registered under the id, or none for an id never handed out |
| GameObjects.AmongSkipsEmptySubtrees | Code/Engine/PhysXPlugin/Components/Implementation/PxDynamicActorComponent.cpp:243-251 | Children whose subtrees hold no centre of mass do not change the outcome of the sibling loop |
| GameObjects.FirstMarked | Code/Engine/PhysXPlugin/Components/Implementation/PxDynamicActorComponent.cpp:233-255 | The first marked object of a list, found iff some object is marked |
| GameObjects.FirstMarkedAppend | Code/Engine/PhysXPlugin/Components/Implementation/PxDynamicActorComponent.cpp:245-251 | Searching a concatenation searches the second part only when the first has no match |
| GameObjects.SearchIsFirstInPreorder | Code/Engine/PhysXPlugin/Components/Implementation/PxDynamicActorComponent.cpp:233-255 | The recursive search yields the first object with a centre of mass in depth-first pre-order (root, then each child's subtree in order) |
| GameObjects.SearchAmongIsFirstInPreorder | Code/Engine/PhysXPlugin/Components/Implementation/PxDynamicActorComponent.cpp:243-251 | The loop over the children yields the first object with a centre of mass in the children's pre-order |
| Streams.StreamWriter.WriteBool | Code/Engine/PhysXPlugin/Components/Implementation/PxDynamicActorComponent.cpp:95-98 | Appends the bool to the stream |
| Streams.StreamWriter.WriteFloat | Code/Engine/PhysXPlugin/Components/Implementation/PxDynamicActorComponent.cpp:96-97 | Appends the float to the stream |
| Streams.StreamReader.ReadBool | Code/Engine/PhysXPlugin/Components/Implementation/PxDynamicActorComponent.cpp:109-112 | Returns the next value and advances by one |
| Streams.StreamReader.ReadFloat | Code/Engine/PhysXPlugin/Components/Implementation/PxDynamicActorComponent.cpp:110-111 | Returns the next value and advances by one |
| PxDynamicActor.Clamp | Code/Engine/PhysXPlugin/Components/Implementation/PxDynamicActorComponent.cpp:168-169 | The damping handed to the actor lies in [0, 1000]: the component's value when in range, 0 below it, 1000 above it |
| PxDynamicActor.ChooseMassSetup | Code/Engine/PhysXPlugin/Components/Implementation/PxDynamicActorComponent.cpp:180-201 | A positive mass wins, then a positive density, else the fallback density 1; the value handed to PhysX is always positive, and the first two pass the centre of mass found |
| PxDynamicActor.Decode | Code/Engine/PhysXPlugin/Components/Implementation/PxDynamicActorComponent.cpp:109-112 | Reading succeeds exactly on a stream starting with bool, float, float, bool |
| PxDynamicActor.DecodeEncode | Code/Engine/PhysXPlugin/Components/Implementation/PxDynamicActorComponent.cpp:95-112 | The four persistent fields read back as written, whatever follows them |
| PxDynamicActor.EncodeDecode | Code/Engine/PhysXPlugin/Components/Implementation/PxDynamicActorComponent.cpp:95-112 | A readable record is exactly the encoding of what is read from it |
| PxDynamicActor.PushUnlisted | Code/Engine/PhysXPlugin/Components/Implementation/PxDynamicActorComponent.cpp:206-209 | Pushing an unlisted component lists it once and leaves every other entry as it was |
| PxDynamicActor.RemoveListed | Code/Engine/PhysXPlugin/Components/Implementation/PxDynamicActorComponent.cpp:219-222 | Swap-removing a component listed at most once unlists it and leaves every other entry as it was |
| PxDynamicActor.StaleEntryAfterDoublePush | Code/Engine/PhysXPlugin/Components/Implementation/PxDynamicActorComponent.cpp:116-231 | A component pushed twice and swap-removed once is still in the list |
| PxDynamicActor.PxDynamicActorComponentManager.constructor | Code/Engine/PhysXPlugin/Components/Implementation/PxDynamicActorComponent.cpp:11-15 | A new manager has no kinematic components |
| PxDynamicActor.PxDynamicActorComponent.constructor | Code/Engine/PhysXPlugin/Components/Implementation/PxDynamicActorComponent.cpp:77-87 | Not kinematic, gravity on, no actor, damping 0.1/0.05, density 1, mass 0, and not in the kinematic list |
| PxDynamicActor.PxDynamicActorComponent.SetKinematicAsWritten | Code/Engine/PhysXPlugin/Components/Implementation/PxDynamicActorComponent.cpp:116-136 | Setting the current value changes nothing. A change pushes (true) or swap-removes (false) the component and mirrors the flag to an existing actor. Other entries keep their multiplicity. List consistency is kept only when an actor exists |
| PxDynamicActor.PxDynamicActorComponent.SetKinematic | Code/Engine/PhysXPlugin/Components/Implementation/PxDynamicActorComponent.cpp:116-136 | As above, except that a component is pushed only when it has an actor; it always keeps the component listed once exactly while kinematic with an actor |
| PxDynamicActor.PxDynamicActorComponent.SetDisableGravity | Code/Engine/PhysXPlugin/Components/Implementation/PxDynamicActorComponent.cpp:138-149 | Setting the current value changes nothing; otherwise the flag becomes b, an existing actor gets it too, and the invariant is kept |
| PxDynamicActor.PxDynamicActorComponent.FindCenterOfMass | Code/Engine/PhysXPlugin/Components/Implementation/PxDynamicActorComponent.cpp:233-255 | True iff some object of the hierarchy has a centre of mass. The output is then the global position of the first such object in depth-first order. Otherwise it is left untouched |
| PxDynamicActor.PxDynamicActorComponent.OnSimulationStarted | Code/Engine/PhysXPlugin/Components/Implementation/PxDynamicActorComponent.cpp:151-215 | Without shapes: no actor and the list unchanged. Otherwise: an actor with clamped damping, the mass setup and both flags. A kinematic component is pushed once, and the invariant is kept for a component that had no actor |
| PxDynamicActor.PxDynamicActorComponent.Deinitialize | Code/Engine/PhysXPlugin/Components/Implementation/PxDynamicActorComponent.cpp:217-231 | A kinematic component is swap-removed, the actor is always gone, and a consistent component ends up unlisted |
| PxDynamicActor.PxDynamicActorComponent.SerializeComponent | Code/Engine/PhysXPlugin/Components/Implementation/PxDynamicActorComponent.cpp:89-99 | Writes kinematic, density, mass and disable-gravity, in that order |
| PxDynamicActor.PxDynamicActorComponent.DeserializeComponent | Code/Engine/PhysXPlugin/Components/Implementation/PxDynamicActorComponent.cpp:101-113 | Reads the four fields in the order they were written, consumes four values and keeps a component without actor consistent |
| PxDynamicActor.CopyThroughStream | Code/Engine/PhysXPlugin/Components/Implementation/PxDynamicActorComponent.cpp:89-113 | Serialising one component and deserialising into another copies the four fields; the damping values are not transferred |
| PxDynamicActor.KinematicBeforeSimulationAsWritten | Code/Engine/PhysXPlugin/Components/Implementation/PxDynamicActorComponent.cpp:116-231 | SetKinematic(true), start with shapes, Deinitialize: the component stays in the kinematic list without an actor |
| PxDynamicActor.KinematicBeforeSimulation | Code/Engine/PhysXPlugin/Components/Implementation/PxDynamicActorComponent.cpp:116-231 | The same sequence with the guarded SetKinematic leaves the list empty |

## Left out

- The world-side update scheduler is not part of this model: dependency sorting, batching an Async function by its granularity, parallel execution and the simulation-enabled check. Only the descriptor, its phases and the registration and deregistration matching are modelled.
- `ezIdTable`, `ezBlockStorage` and `ComponentManager_inl.h` are not part of this model, so their contracts are stated abstractly:
  - Storage is one sequence, with no block size.
  - Allocation appends in both storage modes. A tombstone left by non-compact deletion is not reused.
  - The generation is an unbounded integer, not a fixed-width one that could wrap.
  - The free list is first-in first-out.
- DeinitializeComponent, Initialize/Deinitialize of the manager, GetWorld, the allocators and the user data are left out. They concern world plumbing and have no rule the model could state.
- The typed `ezComponentManager::RegisterUpdateFunction` (ComponentManager.h:181) is modelled like the base one, because its body is not part of this model.
- ManagerFactory.ComponentManagerFactory.RegisterComponentManager: re-registering a known type returns its id. The registration body is not part of this model, so whether a duplicate registration is an error is not captured.
- ManagerFactory.ComponentManagerFactory.GetTypeId: the source returns a plain ezUInt16 for every type. Its body is not part of this model, so the value returned for an unregistered type is not modelled; the model returns nothing there.
- ManagerFactory.DistinctTypesGetDistinctIds: stated only up to 65536 registrations. Beyond that the 16-bit counter wraps and ids repeat.
- The PhysX SDK is left out: actor creation and release, shape collection, scene locks, mass and inertia computation, and the transform of the centre of mass into the actor's local space. The component records what it hands to the actor; the shape count collected from the owner is a parameter.
- `UpdateKinematicActors` and `UpdateDynamicActors` are left out. They only copy transforms between the engine and PhysX, which is float math in the SDK.
- Floats are modelled as exact reals.
- `SUPER::SerializeComponent`, the component type version and the stream's byte encoding are left out. The stream holds typed values, and a read requires a value of the right kind to be there.
- The kinematic list holds components by identity. The manager uses compact storage, which moves components in memory, so an address held in the list could go stale when a component is relocated. The model does not capture this.
- Logging (`ezLog::Error`, `ezLog::Warning`) and profiling scopes are left out.

## Findings

| source | as written | input that shows it | evidently intended | confidence | as-written member | corrected member |
|---|---|---|---|---|---|---|
| Code/Engine/PhysXPlugin/Components/Implementation/PxDynamicActorComponent.cpp:123-126 | SetKinematic(true) pushes the component onto the kinematic list even before it has an actor. OnSimulationStarted pushes it again (206-209), and Deinitialize swap-removes only one copy (219-222) | a new component: SetKinematic(true), then OnSimulationStarted with at least one shape, then Deinitialize; the component is left in its manager's kinematic list with no actor | push only when an actor exists, so a component is in the list once exactly while it is kinematic and has an actor | medium, not executed | PxDynamicActor.KinematicBeforeSimulationAsWritten | PxDynamicActor.PxDynamicActorComponent.SetKinematic |
