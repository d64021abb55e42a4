/** ezComponentManagerFactory: hands out sequential 16-bit type ids to component types and
    keeps, per id, the function that creates the type's component manager. */
module ManagerFactory {
  import opened Common

  /** Identity of a component type's reflection information (its ezRTTI). */
  type Rtti = nat

  /** The creator function registered for a component type: it instantiates that type's
      component manager in a world. */
  datatype CreatorFunc = CreatorFor(componentType: Rtti)

  /** The type id an abstract component type reports: ezUInt16(-1). */
  const AbstractTypeId: uint16 := ToUInt16(-1)

  /** The factory's state after registering the types of `registered`, in that order:
      each type once, the i-th under id ToUInt16(i) and with its creator at index i, and
      the next id the wrapped count of registrations. */
  ghost predicate Registration(registered: seq<Rtti>, nextTypeId: uint16,
                               typeToId: map<Rtti, uint16>, creatorFuncs: seq<CreatorFunc>)
  {
    && |creatorFuncs| == |registered|
    && nextTypeId == ToUInt16(|registered|)
    && (forall t :: t in typeToId <==> t in registered)
    && (forall i | 0 <= i < |registered| ::
          && creatorFuncs[i] == CreatorFor(registered[i])
          && registered[i] in typeToId
          && typeToId[registered[i]] == ToUInt16(i))
    && (forall i, j | 0 <= i < j < |registered| :: registered[i] != registered[j])
  }

  /** Registering a type not seen before under the next id, with its creator appended,
      extends the registration by that type. */
  lemma RegisterNewType(registered: seq<Rtti>, nextTypeId: uint16,
                        typeToId: map<Rtti, uint16>, creatorFuncs: seq<CreatorFunc>, t: Rtti)
    requires Registration(registered, nextTypeId, typeToId, creatorFuncs)
    requires t !in typeToId
    ensures Registration(registered + [t], ToUInt16(nextTypeId + 1),
                         typeToId[t := nextTypeId], creatorFuncs + [CreatorFor(t)])
  {
    var n := |registered|;
    var r := registered + [t];
    var m := typeToId[t := nextTypeId];
    var c := creatorFuncs + [CreatorFor(t)];
    assert ToUInt16(nextTypeId + 1) == ToUInt16(n + 1) by {
      assert nextTypeId == n % 0x1_0000;
    }
    forall i | 0 <= i < |r|
      ensures c[i] == CreatorFor(r[i]) && r[i] in m && m[r[i]] == ToUInt16(i)
    {
      if i < n {
        assert r[i] == registered[i] != t;
      }
    }
  }

  /** While at most 65536 types are registered, distinct types have distinct ids. */
  lemma DistinctTypesGetDistinctIds(registered: seq<Rtti>, nextTypeId: uint16,
                                    typeToId: map<Rtti, uint16>, creatorFuncs: seq<CreatorFunc>,
                                    a: Rtti, b: Rtti)
    requires Registration(registered, nextTypeId, typeToId, creatorFuncs)
    requires |registered| <= 0x1_0000
    requires a in typeToId && b in typeToId && a != b
    ensures typeToId[a] != typeToId[b]
  {
    var i :| 0 <= i < |registered| && registered[i] == a;
    var j :| 0 <= j < |registered| && registered[j] == b;
    assert typeToId[a] == i && typeToId[b] == j;
  }

  /** While at most 65536 types are registered, the creator stored at a type's id is the
      one registered for that type. */
  lemma CreatorAtTypeId(registered: seq<Rtti>, nextTypeId: uint16,
                        typeToId: map<Rtti, uint16>, creatorFuncs: seq<CreatorFunc>, t: Rtti)
    requires Registration(registered, nextTypeId, typeToId, creatorFuncs)
    requires |registered| <= 0x1_0000
    requires t in typeToId
    ensures typeToId[t] < |creatorFuncs| && creatorFuncs[typeToId[t]] == CreatorFor(t)
  {
    var i :| 0 <= i < |registered| && registered[i] == t;
    assert typeToId[t] == i;
  }

  /** While fewer than 65536 types are registered, no registered id collides with the id
      abstract component types report. */
  lemma RegisteredIdIsNotAbstract(registered: seq<Rtti>, nextTypeId: uint16,
                                  typeToId: map<Rtti, uint16>, creatorFuncs: seq<CreatorFunc>, t: Rtti)
    requires Registration(registered, nextTypeId, typeToId, creatorFuncs)
    requires |registered| < 0x1_0000
    requires t in typeToId
    ensures typeToId[t] != AbstractTypeId
  {
    var i :| 0 <= i < |registered| && registered[i] == t;
    assert typeToId[t] == i;
  }

  class ComponentManagerFactory {
    var nextTypeId: uint16
    var typeToId: map<Rtti, uint16>
    var creatorFuncs: seq<CreatorFunc>
    /** The component types in the order they were registered. */
    ghost var registered: seq<Rtti>

    ghost predicate Valid()
      reads this
    {
      Registration(registered, nextTypeId, typeToId, creatorFuncs)
    }

    constructor ()
      ensures Valid() && registered == []
    {
      nextTypeId := 0;
      typeToId := map[];
      creatorFuncs := [];
      registered := [];
    }

    /** RegisterComponentManager: a type seen before keeps its id; a new type gets the next
        id (the counter is an ezUInt16 and wraps) and its creator is appended. */
    method RegisterComponentManager(t: Rtti) returns (id: uint16)
      requires Valid()
      modifies this
      ensures Valid()
      ensures t in typeToId && typeToId[t] == id
      ensures t in old(typeToId) ==> id == old(typeToId[t]) && registered == old(registered)
                                     && typeToId == old(typeToId) && creatorFuncs == old(creatorFuncs)
      ensures t !in old(typeToId) ==> id == old(nextTypeId) && registered == old(registered) + [t]
                                      && creatorFuncs == old(creatorFuncs) + [CreatorFor(t)]
      ensures forall u | u in old(typeToId) :: u in typeToId && typeToId[u] == old(typeToId[u])
    {
      if t in typeToId {
        id := typeToId[t];
        return;
      }
      RegisterNewType(registered, nextTypeId, typeToId, creatorFuncs, t);
      id := nextTypeId;
      nextTypeId := ToUInt16(nextTypeId + 1);
      typeToId := typeToId[t := id];
      creatorFuncs := creatorFuncs + [CreatorFor(t)];
      registered := registered + [t];
    }

    /** GetTypeId: the id a registered type was given; nothing for an unknown type. */
    method GetTypeId(t: Rtti) returns (id: Option<uint16>)
      requires Valid()
      ensures id.Some? <==> t in registered
      ensures id.Some? ==> exists i | 0 <= i < |registered| :: registered[i] == t && id.value == ToUInt16(i)
    {
      if t in typeToId {
        id := Some(typeToId[t]);
      } else {
        id := None;
      }
    }

    /** CreateComponentManager: the creator stored at the given id, if there is one. */
    method CreateComponentManager(typeId: uint16) returns (creator: Option<CreatorFunc>)
      requires Valid()
      ensures creator.Some? <==> typeId < |registered|
      ensures creator.Some? ==> creator.value == CreatorFor(registered[typeId])
    {
      if typeId < |creatorFuncs| {
        creator := Some(creatorFuncs[typeId]);
      } else {
        creator := None;
      }
    }
  }
}
