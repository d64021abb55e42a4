/** Update functions a component manager registers at its world: the four update phases,
    the descriptor with its defaults, and deregistration keyed by (function, phase). */
module UpdateFunctions {
  import opened Common

  /** UpdateFunctionDesc::Phase, in the order the world runs the phases each frame. */
  datatype Phase = PreAsync | Async | PostAsync | PostTransform

  /** Phase::COUNT */
  const PhaseCount: nat := 4

  /** Phase::Default */
  const DefaultPhase: Phase := PreAsync

  /** The enum value of a phase (stored as ezUInt8). */
  function PhaseValue(p: Phase): (v: nat)
    ensures v < PhaseCount
  {
    match p
    case PreAsync => 0
    case Async => 1
    case PostAsync => 2
    case PostTransform => 3
  }

  /** The phase with a given enum value; values from COUNT on name no phase. */
  function PhaseFromValue(v: nat): (p: Option<Phase>)
    ensures p.Some? <==> v < PhaseCount
    ensures p.Some? ==> PhaseValue(p.value) == v
  {
    if v == 0 then Some(PreAsync)
    else if v == 1 then Some(Async)
    else if v == 2 then Some(PostAsync)
    else if v == 3 then Some(PostTransform)
    else None
  }

  /** Phase a runs before phase b within one frame. */
  predicate RunsBefore(a: Phase, b: Phase)
  {
    PhaseValue(a) < PhaseValue(b)
  }

  /** The enum values are exactly 0 .. COUNT-1, one per phase, the default is the first,
      and the phases follow PreAsync, Async, PostAsync, PostTransform. */
  lemma PhaseValuesAreOrdered(p: Phase, q: Phase)
    ensures PhaseFromValue(PhaseValue(p)) == Some(p)
    ensures PhaseValue(p) == PhaseValue(q) ==> p == q
    ensures PhaseValue(DefaultPhase) == 0 && PhaseValue(PreAsync) == 0
    ensures RunsBefore(PreAsync, Async) && RunsBefore(Async, PostAsync) && RunsBefore(PostAsync, PostTransform)
    ensures p != q ==> RunsBefore(p, q) != RunsBefore(q, p)
  {
  }

  /** Identity of the bound delegate (function and instance) an update function calls. */
  type FunctionRef = nat

  /** UpdateFunctionDesc. */
  datatype UpdateFunctionDesc = UpdateFunctionDesc(
    updateFunction: FunctionRef,
    functionName: string,
    dependsOn: seq<FunctionRef>,
    phase: Phase,
    onlyUpdateWhenSimulating: bool,
    granularity: uint16)

  /** The documented rule on granularity: it has to be 0 for a function that does not run
      in the asynchronous phase. */
  predicate GranularityAllowed(d: UpdateFunctionDesc)
  {
    d.phase == Async || d.granularity == 0
  }

  /** The UpdateFunctionDesc constructor: the given function and name, the default phase,
      no dependencies, updates also when not simulating, granularity 0. Such a descriptor
      satisfies the granularity rule whatever phase it is later moved to. */
  function NewUpdateFunctionDesc(updateFunction: FunctionRef, functionName: string): (d: UpdateFunctionDesc)
    ensures d.updateFunction == updateFunction && d.functionName == functionName
    ensures d.phase == DefaultPhase && d.dependsOn == []
    ensures !d.onlyUpdateWhenSimulating && d.granularity == 0
    ensures forall p: Phase :: GranularityAllowed(d.(phase := p))
  {
    UpdateFunctionDesc(updateFunction, functionName, [], PreAsync, false, 0)
  }

  /** What deregistration looks at: only the function and the phase of a descriptor. */
  datatype DeregistrationKey = DeregistrationKey(updateFunction: FunctionRef, phase: Phase)

  function KeyOf(d: UpdateFunctionDesc): DeregistrationKey
  {
    DeregistrationKey(d.updateFunction, d.phase)
  }

  /** The registered functions, in order, without those whose function and phase are k. */
  function WithoutKey(fs: seq<UpdateFunctionDesc>, k: DeregistrationKey): (r: seq<UpdateFunctionDesc>)
    ensures |r| <= |fs|
  {
    if fs == [] then []
    else (if KeyOf(fs[0]) == k then [] else [fs[0]]) + WithoutKey(fs[1..], k)
  }

  /** Deregistration removes every function registered under k and keeps all others. */
  lemma {:induction false} WithoutKeyMembers(fs: seq<UpdateFunctionDesc>, k: DeregistrationKey)
    ensures forall d :: d in WithoutKey(fs, k) <==> d in fs && KeyOf(d) != k
  {
    if fs != [] {
      WithoutKeyMembers(fs[1..], k);
      assert forall d :: d in fs <==> d == fs[0] || d in fs[1..];
    }
  }

  /** Deregistering a function that is not registered in that phase changes nothing. */
  lemma {:induction false} DeregisterAbsentIsNoOp(fs: seq<UpdateFunctionDesc>, k: DeregistrationKey)
    requires forall d | d in fs :: KeyOf(d) != k
    ensures WithoutKey(fs, k) == fs
  {
    if fs != [] {
      DeregisterAbsentIsNoOp(fs[1..], k);
    }
  }

  /** Removing by key keeps the remaining functions in their registration order: it
      distributes over concatenation. */
  lemma {:induction false} WithoutKeyAppend(a: seq<UpdateFunctionDesc>, b: seq<UpdateFunctionDesc>, k: DeregistrationKey)
    ensures WithoutKey(a + b, k) == WithoutKey(a, k) + WithoutKey(b, k)
  {
    if a == [] {
      assert a + b == b;
    } else {
      var head := if KeyOf(a[0]) == k then [] else [a[0]];
      assert (a + b)[0] == a[0] && (a + b)[1..] == a[1..] + b;
      WithoutKeyAppend(a[1..], b, k);
      assert WithoutKey(a + b, k) == head + (WithoutKey(a[1..], k) + WithoutKey(b, k));
    }
  }

  /** Registering a descriptor and then deregistering with any descriptor that names the
      same function and phase, whatever its name, dependencies, flag and granularity,
      restores the previous registrations. */
  lemma RegisterThenDeregister(fs: seq<UpdateFunctionDesc>, d: UpdateFunctionDesc, e: UpdateFunctionDesc)
    requires forall f | f in fs :: KeyOf(f) != KeyOf(d)
    requires e.updateFunction == d.updateFunction && e.phase == d.phase
    ensures WithoutKey(fs + [d], KeyOf(e)) == fs
  {
    WithoutKeyAppend(fs, [d], KeyOf(e));
    DeregisterAbsentIsNoOp(fs, KeyOf(e));
  }

  /** The world's table of registered update functions, as seen through
      RegisterUpdateFunction and DeregisterUpdateFunction. */
  class UpdateFunctionRegistry {
    var functions: seq<UpdateFunctionDesc>

    constructor ()
      ensures functions == []
    {
      functions := [];
    }

    /** RegisterUpdateFunction: the caller keeps the granularity rule. */
    method RegisterUpdateFunction(desc: UpdateFunctionDesc)
      requires GranularityAllowed(desc)
      modifies this
      ensures functions == old(functions) + [desc]
    {
      functions := functions + [desc];
    }

    /** DeregisterUpdateFunction: only desc's function and phase are looked at. */
    method DeregisterUpdateFunction(desc: UpdateFunctionDesc)
      modifies this
      ensures functions == WithoutKey(old(functions), KeyOf(desc))
      ensures forall d :: d in functions <==> d in old(functions) && KeyOf(d) != KeyOf(desc)
    {
      WithoutKeyMembers(functions, KeyOf(desc));
      functions := WithoutKey(functions, KeyOf(desc));
    }
  }
}
