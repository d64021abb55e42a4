/** The game-object hierarchy as far as the centre-of-mass search sees it: each object's
    global position, whether it has a centre-of-mass component, and its children in order. */
module GameObjects {
  import opened Common

  datatype Vec3 = Vec3(x: real, y: real, z: real)

  datatype GameObject = GameObject(globalPosition: Vec3, hasCenterOfMass: bool, children: seq<GameObject>)

  /** Depth-first search: the object itself first, then each child's subtree in order; the
      result is the global position of the first object found with a centre of mass. */
  function FirstCenterOfMass(o: GameObject): Option<Vec3>
    decreases o, 1
  {
    if o.hasCenterOfMass then Some(o.globalPosition) else FirstCenterOfMassAmong(o.children)
  }

  /** The same search over a list of sibling subtrees, left to right. */
  function FirstCenterOfMassAmong(cs: seq<GameObject>): Option<Vec3>
    decreases cs, 0
  {
    if cs == [] then None
    else if FirstCenterOfMass(cs[0]).Some? then FirstCenterOfMass(cs[0])
    else FirstCenterOfMassAmong(cs[1..])
  }

  /** Siblings whose subtrees hold no centre of mass can be skipped. */
  lemma {:induction false} AmongSkipsEmptySubtrees(cs: seq<GameObject>, i: nat)
    requires i <= |cs|
    requires forall j | 0 <= j < i :: FirstCenterOfMass(cs[j]).None?
    ensures FirstCenterOfMassAmong(cs) == FirstCenterOfMassAmong(cs[i..])
  {
    if i > 0 {
      assert cs[1..][i - 1..] == cs[i..];
      AmongSkipsEmptySubtrees(cs[1..], i - 1);
    }
  }

  /** Every object of the subtree, in depth-first pre-order. */
  function Preorder(o: GameObject): (s: seq<GameObject>)
    ensures |s| > 0 && s[0] == o
    decreases o, 1
  {
    [o] + PreorderAmong(o.children)
  }

  function PreorderAmong(cs: seq<GameObject>): seq<GameObject>
    decreases cs, 0
  {
    if cs == [] then [] else Preorder(cs[0]) + PreorderAmong(cs[1..])
  }

  /** The global position of the first object of a list that has a centre of mass. */
  function FirstMarked(s: seq<GameObject>): (r: Option<Vec3>)
    ensures r.Some? <==> exists k | 0 <= k < |s| :: s[k].hasCenterOfMass
    ensures r.Some? ==> exists k | 0 <= k < |s| :: s[k].hasCenterOfMass && r.value == s[k].globalPosition
                                                 && forall j | 0 <= j < k :: !s[j].hasCenterOfMass
  {
    if s == [] then None
    else if s[0].hasCenterOfMass then Some(s[0].globalPosition)
    else
      var r := FirstMarked(s[1..]);
      assert forall k | 1 <= k < |s| :: s[k] == s[1..][k - 1];
      r
  }

  lemma {:induction false} FirstMarkedAppend(a: seq<GameObject>, b: seq<GameObject>)
    ensures FirstMarked(a + b) == if FirstMarked(a).Some? then FirstMarked(a) else FirstMarked(b)
  {
    if a == [] {
      assert a + b == b;
    } else {
      assert (a + b)[0] == a[0] && (a + b)[1..] == a[1..] + b;
      FirstMarkedAppend(a[1..], b);
    }
  }

  /** The recursive search finds exactly the first object with a centre of mass in
      pre-order, so it succeeds iff some object of the subtree has one. */
  lemma {:induction false} SearchIsFirstInPreorder(o: GameObject)
    ensures FirstCenterOfMass(o) == FirstMarked(Preorder(o))
    decreases o, 1
  {
    FirstMarkedAppend([o], PreorderAmong(o.children));
    SearchAmongIsFirstInPreorder(o.children);
  }

  lemma {:induction false} SearchAmongIsFirstInPreorder(cs: seq<GameObject>)
    ensures FirstCenterOfMassAmong(cs) == FirstMarked(PreorderAmong(cs))
    decreases cs, 0
  {
    if cs != [] {
      SearchIsFirstInPreorder(cs[0]);
      SearchAmongIsFirstInPreorder(cs[1..]);
      FirstMarkedAppend(Preorder(cs[0]), PreorderAmong(cs[1..]));
    }
  }
}
