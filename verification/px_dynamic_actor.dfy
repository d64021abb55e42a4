/** ezPxDynamicActorComponent and its manager, without the PhysX SDK: the component's flags
    and tuning values, the record of what it told its PhysX actor, and the manager's list
    of kinematic components that it keeps with PushBack and RemoveSwap. */
module PxDynamicActor {
  import opened Common
  import opened GameObjects
  import opened Streams

  const DefaultLinearDamping: real := 0.1
  const DefaultAngularDamping: real := 0.05
  const DefaultDensity: real := 1.0
  const DefaultMass: real := 0.0
  /** The bounds the damping values are clamped to before they reach the actor. */
  const MaxDamping: real := 1000.0
  /** The density used when neither mass nor density is positive. */
  const FallbackDensityValue: real := 1.0

  /** ezMath::Clamp */
  function Clamp(x: real, lo: real, hi: real): (r: real)
    requires lo <= hi
    ensures lo <= r <= hi
    ensures lo <= x <= hi ==> r == x
    ensures x < lo ==> r == lo
    ensures hi < x ==> r == hi
  {
    if x < lo then lo else if hi < x then hi else x
  }

  /** How the actor's mass and inertia are set up: from the mass, from the density, or with
      the fallback density. The first two pass the centre of mass that was found (none: the
      origin); the fallback lets PhysX compute it. */
  datatype MassSetup =
    | FromMass(mass: real, centerOfMass: Option<Vec3>)
    | FromDensity(density: real, centerOfMass: Option<Vec3>)
    | FallbackDensity

  /** The mass or density handed to PhysX. */
  function SetupValue(m: MassSetup): real
  {
    match m
    case FromMass(mass, _) => mass
    case FromDensity(density, _) => density
    case FallbackDensity => FallbackDensityValue
  }

  /** A positive mass wins, then a positive density; otherwise the fallback. Whatever the
      component's values, PhysX is given a positive mass or density. */
  function ChooseMassSetup(mass: real, density: real, com: Option<Vec3>): (m: MassSetup)
    ensures SetupValue(m) > 0.0
    ensures m.FromMass? <==> mass > 0.0
    ensures m.FallbackDensity? <==> mass <= 0.0 && density <= 0.0
    ensures !m.FallbackDensity? ==> m.centerOfMass == com
    ensures m.FromDensity? ==> SetupValue(m) == density
    ensures m.FromMass? ==> SetupValue(m) == mass
  {
    if mass > 0.0 then FromMass(mass, com)
    else if density > 0.0 then FromDensity(density, com)
    else FallbackDensity
  }

  /** What the component has told its PhysX rigid dynamic actor. */
  datatype Actor = Actor(shapeCount: nat, linearDamping: real, angularDamping: real,
                         massSetup: MassSetup, gravityDisabled: bool, kinematic: bool)

  /** The four persistent fields, in the order they are written. */
  datatype PersistentFields = PersistentFields(kinematic: bool, density: real, mass: real, disableGravity: bool)

  function Encode(p: PersistentFields): (s: seq<StreamValue>)
    ensures |s| == 4
  {
    [BoolValue(p.kinematic), FloatValue(p.density), FloatValue(p.mass), BoolValue(p.disableGravity)]
  }

  /** The stream starts with a bool, two floats and a bool. */
  predicate StartsWithRecord(s: seq<StreamValue>)
  {
    |s| >= 4 && s[0].BoolValue? && s[1].FloatValue? && s[2].FloatValue? && s[3].BoolValue?
  }

  /** The fields read back, in the order they are read; nothing when the stream does not
      start with a record. */
  function Decode(s: seq<StreamValue>): (p: Option<PersistentFields>)
    ensures p.Some? <==> StartsWithRecord(s)
  {
    if StartsWithRecord(s) then Some(PersistentFields(s[0].b, s[1].f, s[2].f, s[3].b)) else None
  }

  /** Reading back what was written yields the same four fields, whatever follows them. */
  lemma DecodeEncode(p: PersistentFields, rest: seq<StreamValue>)
    ensures Decode(Encode(p) + rest) == Some(p)
  {
    var s := Encode(p) + rest;
    assert s[0] == BoolValue(p.kinematic) && s[1] == FloatValue(p.density);
    assert s[2] == FloatValue(p.mass) && s[3] == BoolValue(p.disableGravity);
  }

  /** A record that decodes is exactly the encoding of what it decodes to. */
  lemma EncodeDecode(s: seq<StreamValue>)
    requires Decode(s).Some?
    ensures Encode(Decode(s).value) == s[..4]
  {
  }

  /** Every element other than c occurs as often after as before (an element in neither
      list occurs in neither). */
  ghost predicate OthersKept<T>(before: seq<T>, after: seq<T>, c: T)
  {
    forall o | o in before + after && o != c :: multiset(after)[o] == multiset(before)[o]
  }

  /** c is in the list exactly when `present`, and at most once. */
  ghost predicate ListedOnce<T>(list: seq<T>, c: T, present: bool)
  {
    (c in list <==> present) && multiset(list)[c] <= 1
  }

  /** Appending an element that is not listed lists it once and changes nothing else. */
  lemma PushUnlisted<T>(list: seq<T>, c: T)
    requires ListedOnce(list, c, false)
    ensures ListedOnce(list + [c], c, true) && OthersKept(list, list + [c], c)
  {
    assert multiset(list + [c]) == multiset(list) + multiset{c};
  }

  /** Swap-removing an element listed at most once unlists it and changes nothing else. */
  lemma RemoveListed<T>(list: seq<T>, c: T, present: bool)
    requires ListedOnce(list, c, present)
    ensures ListedOnce(RemoveSwap(list, c), c, false) && OthersKept(list, RemoveSwap(list, c), c)
  {
    RemoveSwapUnlists(list, c);
  }

  /** A component pushed twice and removed once stays in the list. */
  lemma StaleEntryAfterDoublePush<T>(list: seq<T>, c: T)
    requires c !in list
    ensures c in RemoveSwap(list + [c] + [c], c)
  {
    var l := list + [c] + [c];
    assert multiset(l)[c] == 2 by {
      assert multiset(l) == multiset(list) + multiset{c} + multiset{c};
    }
    RemoveSwapMultiset(l, c);
    assert multiset(RemoveSwap(l, c))[c] == 1;
  }

  /** ezPxDynamicActorComponentManager: its kinematic components, whose actors follow their
      owners' transforms each frame. */
  class PxDynamicActorComponentManager {
    var kinematicActors: seq<PxDynamicActorComponent>

    constructor ()
      ensures kinematicActors == []
    {
      kinematicActors := [];
    }
  }

  class PxDynamicActorComponent {
    const manager: PxDynamicActorComponentManager
    var kinematic: bool
    var disableGravity: bool
    /** None while there is no PhysX actor (m_pActor null). */
    var actor: Option<Actor>
    var linearDamping: real
    var angularDamping: real
    var density: real
    var mass: real

    /** The component is in its manager's kinematic list, once, exactly when it is kinematic
        and has an actor whose target has to be updated. */
    ghost predicate Listed()
      reads this, manager
    {
      ListedOnce(manager.kinematicActors, this, kinematic && actor.Some?)
    }

    /** An existing actor has shapes and carries the component's kinematic and gravity flags. */
    ghost predicate ActorMirrorsFlags()
      reads this
    {
      actor.Some? ==> actor.value.shapeCount > 0 && actor.value.kinematic == kinematic
                      && actor.value.gravityDisabled == disableGravity
    }

    ghost predicate Valid()
      reads this, manager
    {
      Listed() && ActorMirrorsFlags()
    }

    function Fields(): PersistentFields
      reads this
    {
      PersistentFields(kinematic, density, mass, disableGravity)
    }

    /** A new component is not kinematic, keeps gravity, has no actor and the default
        damping, density and mass. */
    constructor (m: PxDynamicActorComponentManager)
      ensures manager == m && Valid()
      ensures !kinematic && !disableGravity && actor.None?
      ensures linearDamping == DefaultLinearDamping && angularDamping == DefaultAngularDamping
      ensures density == DefaultDensity && mass == DefaultMass
    {
      manager := m;
      kinematic := false;
      disableGravity := false;
      actor := None;
      linearDamping := DefaultLinearDamping;
      angularDamping := DefaultAngularDamping;
      density := DefaultDensity;
      mass := DefaultMass;
    }

    /** SetKinematic as the engine writes it: on a change, `true` pushes the component onto the
        kinematic list whether or not it has an actor yet, `false` swap-removes it; an
        existing actor gets the new flag. Setting the current value changes nothing. It keeps
        the list consistent only for a component that already has an actor. */
    method SetKinematicAsWritten(b: bool)
      modifies this`kinematic, this`actor, manager`kinematicActors
      ensures kinematic == b
      ensures old(kinematic) == b ==> actor == old(actor) && manager.kinematicActors == old(manager.kinematicActors)
      ensures old(kinematic) != b ==>
                && actor == (if old(actor).Some? then Some(old(actor).value.(kinematic := b)) else None)
                && manager.kinematicActors == if b then old(manager.kinematicActors) + [this]
                                              else RemoveSwap(old(manager.kinematicActors), this)
      ensures OthersKept(old(manager.kinematicActors), manager.kinematicActors, this)
      ensures old(Valid()) && old(actor).Some? ==> Valid()
    {
      if kinematic == b {
        return;
      }
      if kinematic {
        RemoveSwapMultiset(manager.kinematicActors, this);
        if Valid() {
          RemoveListed(manager.kinematicActors, this, actor.Some?);
        }
      } else {
        assert multiset(manager.kinematicActors + [this]) == multiset(manager.kinematicActors) + multiset{this};
      }
      kinematic := b;
      if kinematic {
        manager.kinematicActors := manager.kinematicActors + [this];
      } else {
        manager.kinematicActors := RemoveSwap(manager.kinematicActors, this);
      }
      if actor.Some? {
        actor := Some(actor.value.(kinematic := kinematic));
      }
    }

    /** SetKinematic with the push guarded by the actor: a component without an actor is put
        on the list by OnSimulationStarted instead. It keeps the list consistent always. */
    method SetKinematic(b: bool)
      modifies this`kinematic, this`actor, manager`kinematicActors
      ensures kinematic == b
      ensures old(kinematic) == b ==> actor == old(actor) && manager.kinematicActors == old(manager.kinematicActors)
      ensures old(kinematic) != b ==>
                && actor == (if old(actor).Some? then Some(old(actor).value.(kinematic := b)) else None)
                && manager.kinematicActors == if b && old(actor).Some? then old(manager.kinematicActors) + [this]
                                              else RemoveSwap(old(manager.kinematicActors), this)
      ensures OthersKept(old(manager.kinematicActors), manager.kinematicActors, this)
      ensures old(Valid()) ==> Valid()
    {
      if kinematic == b {
        return;
      }
      ghost var wasValid := Valid();
      if b && actor.Some? {
        if wasValid {
          PushUnlisted(manager.kinematicActors, this);
        }
        assert multiset(manager.kinematicActors + [this]) == multiset(manager.kinematicActors) + multiset{this};
      } else {
        RemoveSwapMultiset(manager.kinematicActors, this);
        if wasValid {
          RemoveListed(manager.kinematicActors, this, kinematic && actor.Some?);
        }
      }
      kinematic := b;
      if kinematic && actor.Some? {
        manager.kinematicActors := manager.kinematicActors + [this];
      } else {
        manager.kinematicActors := RemoveSwap(manager.kinematicActors, this);
      }
      if actor.Some? {
        actor := Some(actor.value.(kinematic := kinematic));
      }
    }

    /** SetDisableGravity: setting the current value changes nothing; otherwise the flag and
        an existing actor's flag become b. */
    method SetDisableGravity(b: bool)
      modifies this`disableGravity, this`actor
      ensures disableGravity == b
      ensures old(disableGravity) == b ==> actor == old(actor)
      ensures old(disableGravity) != b ==>
                actor == (if old(actor).Some? then Some(old(actor).value.(gravityDisabled := b)) else None)
      ensures old(Valid()) ==> Valid()
    {
      if disableGravity == b {
        return;
      }
      disableGravity := b;
      if actor.Some? {
        actor := Some(actor.value.(gravityDisabled := disableGravity));
      }
    }

    /** FindCenterOfMass: depth-first over the hierarchy, the root first and then each child's
        subtree in order; on success the global position of the first object found with a
        centre-of-mass component, otherwise the output is left as it was. */
    method FindCenterOfMass(root: GameObject, outCoM: Vec3) returns (found: bool, com: Vec3)
      ensures found == FirstCenterOfMass(root).Some?
      ensures found ==> com == FirstCenterOfMass(root).value
      ensures !found ==> com == outCoM
      ensures found <==> exists k | 0 <= k < |Preorder(root)| :: Preorder(root)[k].hasCenterOfMass
      decreases root
    {
      SearchIsFirstInPreorder(root);
      if root.hasCenterOfMass {
        return true, root.globalPosition;
      }
      var cs := root.children;
      var i := 0;
      while i < |cs|
        invariant 0 <= i <= |cs|
        invariant forall j | 0 <= j < i :: FirstCenterOfMass(cs[j]).None?
      {
        found, com := FindCenterOfMass(cs[i], outCoM);
        if found {
          AmongSkipsEmptySubtrees(cs, i);
          return;
        }
        i := i + 1;
      }
      AmongSkipsEmptySubtrees(cs, |cs|);
      return false, outCoM;
    }

    /** OnSimulationStarted, given the owner's hierarchy and the number of shapes collected
        from it: without shapes the actor is released and nothing else happens; otherwise the
        actor gets the clamped damping, the mass setup, both flags, and a kinematic component
        is pushed onto the kinematic list. */
    method OnSimulationStarted(owner: GameObject, shapeCount: nat)
      modifies this`actor, manager`kinematicActors
      ensures shapeCount == 0 ==> actor.None? && manager.kinematicActors == old(manager.kinematicActors)
      ensures shapeCount > 0 ==>
                && actor == Some(Actor(shapeCount,
                                       Clamp(linearDamping, 0.0, MaxDamping),
                                       Clamp(angularDamping, 0.0, MaxDamping),
                                       ChooseMassSetup(mass, density, FirstCenterOfMass(owner)),
                                       disableGravity, kinematic))
                && manager.kinematicActors == if kinematic then old(manager.kinematicActors) + [this]
                                              else old(manager.kinematicActors)
      ensures OthersKept(old(manager.kinematicActors), manager.kinematicActors, this)
      ensures old(Valid()) && old(actor).None? ==> Valid()
    {
      var linear := Clamp(linearDamping, 0.0, MaxDamping);
      var angular := Clamp(angularDamping, 0.0, MaxDamping);
      if shapeCount == 0 {
        actor := None;
        return;
      }
      var found, com := FindCenterOfMass(owner, Vec3(0.0, 0.0, 0.0));
      var setup := ChooseMassSetup(mass, density, if found then Some(com) else None);
      ghost var wasValid := Valid() && actor.None?;
      actor := Some(Actor(shapeCount, linear, angular, setup, disableGravity, kinematic));
      if kinematic {
        if wasValid {
          PushUnlisted(manager.kinematicActors, this);
        }
        assert multiset(manager.kinematicActors + [this]) == multiset(manager.kinematicActors) + multiset{this};
        manager.kinematicActors := manager.kinematicActors + [this];
      }
    }

    /** Deinitialize: a kinematic component is swap-removed from the kinematic list and the
        actor is released. */
    method Deinitialize()
      modifies this`actor, manager`kinematicActors
      ensures actor.None?
      ensures manager.kinematicActors == if kinematic then RemoveSwap(old(manager.kinematicActors), this)
                                         else old(manager.kinematicActors)
      ensures OthersKept(old(manager.kinematicActors), manager.kinematicActors, this)
      ensures old(Valid()) ==> Valid() && this !in manager.kinematicActors
    {
      if kinematic {
        RemoveSwapMultiset(manager.kinematicActors, this);
        if Valid() {
          RemoveListed(manager.kinematicActors, this, actor.Some?);
        }
        manager.kinematicActors := RemoveSwap(manager.kinematicActors, this);
      }
      actor := None;
    }

    /** SerializeComponent: kinematic, density, mass and disable-gravity, in that order. */
    method SerializeComponent(w: StreamWriter)
      modifies w
      ensures w.data == old(w.data) + Encode(Fields())
    {
      w.WriteBool(kinematic);
      w.WriteFloat(density);
      w.WriteFloat(mass);
      w.WriteBool(disableGravity);
    }

    /** DeserializeComponent: the four fields, read in the order they were written. The
        flags are set directly, not through the setters, so the kinematic list is not
        touched; for a component without an actor that is consistent. */
    method DeserializeComponent(r: StreamReader)
      requires r.Valid() && StartsWithRecord(r.Remaining())
      modifies this`kinematic, this`density, this`mass, this`disableGravity, r`position
      ensures r.Valid() && r.position == old(r.position) + 4
      ensures Decode(old(r.Remaining())) == Some(Fields())
      ensures old(Valid()) && actor.None? ==> Valid()
    {
      ghost var s := r.Remaining();
      kinematic := r.ReadBool();
      density := r.ReadFloat();
      mass := r.ReadFloat();
      disableGravity := r.ReadBool();
    }
  }

  /** Writing a component and reading the stream back into another copies kinematic,
      density, mass and disable-gravity; the damping values are not part of the stream. */
  method CopyThroughStream(a: PxDynamicActorComponent, b: PxDynamicActorComponent)
    modifies b`kinematic, b`density, b`mass, b`disableGravity
    ensures b.Fields() == old(a.Fields())
    ensures b.linearDamping == old(b.linearDamping) && b.angularDamping == old(b.angularDamping)
  {
    var w := new StreamWriter();
    a.SerializeComponent(w);
    var r := new StreamReader(w.data);
    DecodeEncode(a.Fields(), []);
    assert r.Remaining() == Encode(a.Fields()) + [];
    b.DeserializeComponent(r);
  }

  /** Setting a component kinematic before the simulation starts, starting it with shapes
      and deinitialising it leaves the component in the kinematic list, without an actor. */
  method KinematicBeforeSimulationAsWritten(owner: GameObject, shapeCount: nat)
    returns (m: PxDynamicActorComponentManager, c: PxDynamicActorComponent)
    requires shapeCount > 0
    ensures c.actor.None? && c in m.kinematicActors && c.manager == m
  {
    m := new PxDynamicActorComponentManager();
    c := new PxDynamicActorComponent(m);
    c.SetKinematicAsWritten(true);
    assert m.kinematicActors == [] + [c];
    c.OnSimulationStarted(owner, shapeCount);
    StaleEntryAfterDoublePush([], c);
    c.Deinitialize();
  }

  /** The same sequence with the guarded SetKinematic leaves the kinematic list empty. */
  method KinematicBeforeSimulation(owner: GameObject, shapeCount: nat)
    returns (m: PxDynamicActorComponentManager, c: PxDynamicActorComponent)
    requires shapeCount > 0
    ensures c.actor.None? && m.kinematicActors == [] && c.manager == m
  {
    m := new PxDynamicActorComponentManager();
    c := new PxDynamicActorComponent(m);
    c.SetKinematic(true);
    c.OnSimulationStarted(owner, shapeCount);
    c.Deinitialize();
    assert c.Valid();
  }
}
