/**
 * Small shared vocabulary: an optional value (for DOM lookups that may find
 * nothing and attributes that may be absent) and "active" flag vectors, the
 * model of a list of elements each of which may or may not carry the CSS
 * class `active`.
 */
module Common {

  datatype Option<+T> = None | Some(value: T)

  /** How many elements of a list carry the flag. */
  function Count(flags: seq<bool>): (n: nat)
    ensures n <= |flags|
    ensures n == 0 <==> forall i :: 0 <= i < |flags| ==> !flags[i]
  {
    if flags == [] then 0
    else Count(flags[..|flags| - 1]) + (if flags[|flags| - 1] then 1 else 0)
  }

  /** The flags of `n` elements of which exactly the one at position `k` is set. */
  function OneHot(n: nat, k: int): (flags: seq<bool>)
    ensures |flags| == n
    ensures forall i :: 0 <= i < n ==> (flags[i] <==> i == k)
  {
    seq(n, i => i == k)
  }

  /** A one-hot vector marks exactly one element when its position is in range, none otherwise. */
  lemma {:induction false} OneHotCount(n: nat, k: int)
    ensures Count(OneHot(n, k)) == if 0 <= k < n then 1 else 0
  {
    if n > 0 {
      assert OneHot(n, k)[..n - 1] == OneHot(n - 1, k);
      OneHotCount(n - 1, k);
    }
  }
}
