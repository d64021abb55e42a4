/** Shared vocabulary: an optional value, the engine's 16-bit unsigned integer, and the
    two array operations the engine's dynamic arrays offer for unordered removal. */
module Common {

  datatype Option<+T> = None | Some(value: T)

  /** ezUInt16 */
  type uint16 = x: int | 0 <= x < 0x1_0000

  /** Conversion of any integer to ezUInt16 (two's-complement wrap-around). */
  function ToUInt16(x: int): (r: uint16)
    ensures 0 <= x < 0x1_0000 ==> r == x
    ensures (r - x) % 0x1_0000 == 0
  {
    x % 0x1_0000
  }

  /** ezArrayBase::RemoveAtSwap: the last element takes the place of the removed one and
      the array shrinks by one; no other element moves. */
  function RemoveAtSwap<T>(s: seq<T>, i: nat): (r: seq<T>)
    requires i < |s|
    ensures |r| == |s| - 1
    ensures forall k | 0 <= k < |r| && k != i :: r[k] == s[k]
    ensures i < |r| ==> r[i] == s[|s| - 1]
  {
    s[i := s[|s| - 1]][..|s| - 1]
  }

  /** Removing at i by swapping removes exactly one occurrence of s[i] and keeps every
      other element: the result is a permutation of s without that element. */
  lemma {:induction false} RemoveAtSwapMultiset<T>(s: seq<T>, i: nat)
    requires i < |s|
    ensures multiset(RemoveAtSwap(s, i)) == multiset(s) - multiset{s[i]}
  {
    var n := |s| - 1;
    var r := RemoveAtSwap(s, i);
    if i == n {
      assert s == r + [s[n]];
    } else {
      assert s == s[..i] + [s[i]] + s[i + 1..n] + [s[n]];
      assert r == s[..i] + [s[n]] + s[i + 1..n];
      calc {
        multiset(s);
        multiset(s[..i]) + multiset{s[i]} + multiset(s[i + 1..n]) + multiset{s[n]};
        multiset(r) + multiset{s[i]};
      }
    }
  }

  /** ezArrayBase::IndexOf: the position of the first occurrence of x, or -1 (ezInvalidIndex). */
  function IndexOf<T(==)>(s: seq<T>, x: T): (i: int)
    ensures -1 <= i < |s|
    ensures 0 <= i ==> s[i] == x && forall k | 0 <= k < i :: s[k] != x
    ensures i == -1 <==> x !in s
  {
    if s == [] then -1
    else if s[0] == x then 0
    else
      var j := IndexOf(s[1..], x);
      if j == -1 then -1 else j + 1
  }

  /** ezArrayBase::RemoveSwap(value): finds the first occurrence of x and removes it with
      RemoveAtSwap; an array that does not contain x is left as it is. */
  function RemoveSwap<T(==)>(s: seq<T>, x: T): (r: seq<T>)
    ensures x !in s ==> r == s
    ensures x in s ==> exists i | 0 <= i < |s| :: s[i] == x && (forall k | 0 <= k < i :: s[k] != x)
                                                && r == RemoveAtSwap(s, i)
  {
    var i := IndexOf(s, x);
    if i == -1 then s else RemoveAtSwap(s, i)
  }

  /** RemoveSwap takes away one occurrence of x, if there is one, and leaves the number of
      occurrences of every other value unchanged. */
  lemma RemoveSwapMultiset<T>(s: seq<T>, x: T)
    ensures multiset(RemoveSwap(s, x)) == multiset(s) - multiset{x}
    ensures x in s ==> |RemoveSwap(s, x)| == |s| - 1
    ensures x !in s ==> RemoveSwap(s, x) == s
  {
    var i := IndexOf(s, x);
    if i != -1 {
      RemoveAtSwapMultiset(s, i);
    } else {
      assert multiset(s)[x] == 0;
    }
  }

  /** When x occurs at most once, RemoveSwap leaves no occurrence of x and the same number of
      occurrences of every other value. */
  lemma RemoveSwapUnlists<T>(s: seq<T>, x: T)
    requires multiset(s)[x] <= 1
    ensures x !in RemoveSwap(s, x)
    ensures forall y | y != x :: multiset(RemoveSwap(s, x))[y] == multiset(s)[y]
  {
    RemoveSwapMultiset(s, x);
    assert multiset(RemoveSwap(s, x))[x] == 0;
  }
}
