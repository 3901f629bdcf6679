/** Little-endian bit lists. */
module Bits {
  import opened IntMath
  import opened Divisibility

  ghost predicate AreBits(bits: seq<nat>) {
    forall i :: 0 <= i < |bits| ==> bits[i] <= 1
  }

  /** A bit as a signed digit: 1 for a one, -1 for a zero. */
  function Sign(b: nat): int {
    2 * b - 1
  }

  /** The bits of x, least significant first, padded to at least `length`. */
  function ToBitsLe(x: nat, length: nat): (bits: seq<nat>)
    ensures |bits| >= length && AreBits(bits)
    decreases x, length
  {
    if x == 0 && length == 0 then [] else
      [x % 2] + ToBitsLe(x / 2, if length == 0 then 0 else length - 1)
  }

  /** The number written by the bits from position i up to, not including, k. */
  ghost function High(bits: seq<nat>, i: nat, k: nat): nat
    requires i <= k <= |bits|
    decreases k - i
  {
    if i == k then 0 else bits[i] + 2 * High(bits, i + 1, k)
  }

  lemma {:induction false} HighOfTail(bits: seq<nat>, i: nat, k: nat)
    requires 0 < i <= k <= |bits|
    ensures High(bits, i, k) == High(bits[1..], i - 1, k - 1)
    decreases k - i
  {
    if i < k {
      HighOfTail(bits, i + 1, k);
    }
  }

  /** The first k bits write x modulo 2^k. */
  lemma {:induction false} LowBits(x: nat, k: nat)
    ensures High(ToBitsLe(x, k), 0, k) == x % Pow2(k)
  {
    var bits := ToBitsLe(x, k);
    if k == 0 {
      assert Pow2(0) == 1;
    } else {
      LowBits(x / 2, k - 1);
      assert bits[1..] == ToBitsLe(x / 2, k - 1);
      HighOfTail(bits, 1, k);
      HalveModulo(x, Pow2(k - 1));
    }
  }

  lemma HalveModulo(x: nat, p: nat)
    requires p > 0
    ensures x % (2 * p) == x % 2 + 2 * ((x / 2) % p)
  {
    var h, b := x / 2, x % 2;
    var q, m := h / p, h % p;
    assert h == p * q + m;
    assert x == (2 * p) * q + (2 * m + b) by {
      assert 2 * (p * q) == (2 * p) * q;
    }
    UniqueRemainder(x, 2 * p, q, 2 * m + b);
  }

  lemma SmallNumberBits(x: nat, k: nat)
    requires x < Pow2(k)
    ensures High(ToBitsLe(x, k), 0, k) == x
  {
    LowBits(x, k);
    UniqueRemainder(x, Pow2(k), 0, x);
  }
}
