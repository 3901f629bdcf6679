/** Python integer arithmetic used by the hint code: floor division, powers,
    bit lengths and the integer square root. */
module IntMath {

  function Abs(x: int): nat {
    if x < 0 then -x else x
  }

  function Max(a: int, b: int): int {
    if a < b then b else a
  }

  function Pow(b: nat, e: nat): nat {
    if e == 0 then 1 else b * Pow(b, e - 1)
  }

  function Pow2(e: nat): (p: nat)
    ensures p > 0
  {
    if e == 0 then 1 else 2 * Pow2(e - 1)
  }

  lemma {:induction false} Pow2Adds(a: nat, b: nat)
    ensures Pow2(a + b) == Pow2(a) * Pow2(b)
  {
    if a > 0 {
      Pow2Adds(a - 1, b);
      assert Pow2(a + b) == 2 * Pow2(a - 1 + b);
      assert Pow2(a) * Pow2(b) == 2 * (Pow2(a - 1) * Pow2(b));
    }
  }

  lemma {:induction false} Pow2Monotone(a: nat, b: nat)
    requires a <= b
    ensures Pow2(a) <= Pow2(b)
  {
    if a < b {
      Pow2Monotone(a, b - 1);
    }
  }

  /** math.isqrt */
  function Isqrt(n: nat): (s: nat)
    ensures s * s <= n < (s + 1) * (s + 1)
  {
    if n == 0 then 0 else
      var s := Isqrt(n - 1);
      if (s + 1) * (s + 1) <= n then s + 1 else s
  }

  lemma SquareMonotone(a: int, b: int)
    requires 0 <= a <= b
    ensures a * a <= b * b
  {
  }

  lemma ProductMonotone(x: int, y: int, z: int)
    requires x >= 0 && y <= z
    ensures x * y <= x * z
  {
  }

  lemma CancelScale(n: int, x: int, y: int)
    requires n > 0 && n * x <= n * y
    ensures x <= y
  {
  }

  /** A natural whose square is at most `n` does not exceed isqrt(n). */
  lemma IsqrtGreatest(n: nat, k: nat)
    requires k * k <= n
    ensures k <= Isqrt(n)
  {
    var s := Isqrt(n);
    if k >= s + 1 {
      SquareMonotone(s + 1, k);
    }
  }

  /** int.bit_length of a non-negative integer */
  function BitLength(n: nat): (k: nat)
    ensures n < Pow2(k)
    ensures n > 0 ==> k > 0 && Pow2(k - 1) <= n
    ensures n == 0 ==> k == 0
  {
    if n == 0 then 0 else 1 + BitLength(n / 2)
  }

  /** Python's // : rounds toward minus infinity, for either sign of the divisor. */
  function FloorDiv(a: int, b: int): (q: int)
    requires b != 0
  {
    if b > 0 then a / b else (-a) / (-b)
  }

  /** Python's % : the remainder takes the sign of the divisor. */
  function FloorMod(a: int, b: int): int
    requires b != 0
  {
    a - b * FloorDiv(a, b)
  }

  lemma FloorModRange(a: int, b: int)
    requires b != 0
    ensures b > 0 ==> 0 <= FloorMod(a, b) < b
    ensures b < 0 ==> b < FloorMod(a, b) <= 0
    ensures a == b * FloorDiv(a, b) + FloorMod(a, b)
  {
    if b > 0 {
      assert a == b * (a / b) + a % b;
    } else {
      assert -a == (-b) * ((-a) / (-b)) + (-a) % (-b);
      assert (-b) * ((-a) / (-b)) == -(b * ((-a) / (-b)));
    }
  }
}
