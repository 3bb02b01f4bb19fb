/** Shared vocabulary: the optional value JavaScript expresses with `null`,
    and the random oracle that stands for `Math.random()`. */
module Common {

  /** `null` or a value. */
  datatype Option<+T> = None | Some(value: T)

  /** A value `Math.random()` can return: a real in [0, 1). */
  type Roll = x: real | 0.0 <= x < 1.0 witness 0.0

  /** `roll * n`, written as `n` additions of `roll` so that the product
      with a variable count stays linear; `ScaledIsProduct` shows it is the
      product. */
  function Scaled(roll: Roll, n: nat): (p: real)
    ensures 0.0 <= p
    ensures n > 0 ==> p < n as real
  {
    if n == 0 then 0.0 else Scaled(roll, n - 1) + roll
  }

  lemma {:induction false} ScaledIsProduct(roll: Roll, n: nat)
    ensures Scaled(roll, n) == roll * n as real
  {
    if n > 0 {
      ScaledIsProduct(roll, n - 1);
      assert roll * n as real == roll * (n - 1) as real + roll;
    }
  }

  /** `Math.floor(roll * n)`: the index a roll selects from a collection of
      `n` elements. For `n == 0` the product is 0 and so is the index. */
  function Pick(roll: Roll, n: nat): (k: nat)
    ensures n > 0 ==> k < n
    ensures n == 0 ==> k == 0
  {
    Scaled(roll, n).Floor
  }

  /** Pick is exactly `Math.floor(roll * n)`. */
  lemma PickIsFloor(roll: Roll, n: nat)
    ensures Pick(roll, n) == (roll * n as real).Floor
  {
    ScaledIsProduct(roll, n);
  }

  /** `[...s].reverse()`: the elements of `s` in the opposite order. */
  function Reverse<T>(s: seq<T>): (r: seq<T>)
    ensures |r| == |s|
    ensures forall i :: 0 <= i < |s| ==> r[i] == s[|s| - 1 - i]
  {
    if s == [] then [] else Reverse(s[1..]) + [s[0]]
  }
}
