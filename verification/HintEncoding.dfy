/** Signed hint components travel as field elements: a negative value is its absolute value plus
    2^128. The contracts that receive them read the sign off the high half. */
module HintEncoding {
  import opened Divisibility
  import opened IntMath
  import opened Results

  /** encode */
  function Encode(value: int): nat {
    if value < 0 then Abs(value) + Pow2(128) else value
  }

  /** The modulus of the field elements. */
  function Stark(): (p: nat)
    ensures p > 0
  {
    Pow2(251) + 17 * Pow2(192) + 1
  }

  /** How the contracts read a component: no high half means positive, otherwise the low half is the
      absolute value of a negative one. */
  function Read(code: nat): int {
    var felt := code % Stark();
    if felt < Pow2(128) then felt else -(felt % Pow2(128))
  }

  /** The four components of the other hint must also fit in 96 bits. */
  function ReadPart(code: nat): Result<int> {
    if Abs(Read(code)) < Pow2(96) then Ok(Read(code)) else Err(Panic)
  }

  lemma FeltOfSmall(code: nat)
    requires code < Pow2(129)
    ensures code % Stark() == code
  {
    hide Pow2;
    Pow2Monotone(129, 251);
    UniqueRemainder(code, Stark(), 0, code);
  }

  lemma HalvesOfCode(x: nat, p: nat)
    requires x < p
    ensures (x + p) % p == x
  {
    UniqueRemainder(x + p, p, 1, x);
  }

  /** A component is read back exactly when its absolute value is below 2^128. */
  lemma ReadUndoesEncode(value: int)
    ensures Read(Encode(value)) == value <==> Abs(value) < Pow2(128)
  {
    hide Pow2, Stark;
    var felt := Encode(value) % Stark();
    if Abs(value) < Pow2(128) {
      TwoHalves();
      FeltOfSmall(Encode(value));
      if value < 0 {
        HalvesOfCode(-value, Pow2(128));
      }
    } else {
      LowHalf(felt);
    }
  }

  lemma TwoHalves()
    ensures Pow2(129) == 2 * Pow2(128)
  {
    hide Pow2;
    Pow2Adds(1, 128);
    assert Pow2(1) == 2 by { Pow2OfOne(); }
  }

  lemma Pow2OfOne()
    ensures Pow2(1) == 2
  {
  }

  lemma LowHalf(felt: nat)
    ensures 0 <= felt % Pow2(128) < Pow2(128)
  {
  }

  /** In the 96-bit reading the bound is 2^96. */
  lemma ReadPartUndoesEncode(value: int)
    ensures ReadPart(Encode(value)) == Ok(value) <==> Abs(value) < Pow2(96)
  {
    hide Pow2, Encode, Read;
    Pow2Monotone(96, 128);
    ReadUndoesEncode(value);
  }

  /** The only collisions: a large positive value and the negative one it stands for. */
  lemma EncodeCollidesExactly(x: int, y: int)
    requires x < y
    ensures Encode(x) == Encode(y) <==> x < 0 && y == -x + Pow2(128)
  {
    hide Pow2;
  }
}
