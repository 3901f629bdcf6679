/** Signed-digit recodings, most significant digit first. */
module SignedDigits {
  import opened Divisibility
  import opened IntMath
  import opened Results

  function Eval(digits: seq<int>): int {
    if digits == [] then 0 else 2 * Eval(digits[..|digits| - 1]) + digits[|digits| - 1]
  }

  /** Hamming weight */
  function Weight(digits: seq<int>): nat {
    if digits == [] then 0 else Weight(digits[..|digits| - 1]) + if digits[|digits| - 1] == 0 then 0 else 1
  }

  predicate IsSigned(digits: seq<int>) {
    forall i :: 0 <= i < |digits| ==> -1 <= digits[i] <= 1
  }

  predicate IsNonAdjacent(digits: seq<int>) {
    forall i :: 0 < i < |digits| ==> digits[i - 1] == 0 || digits[i] == 0
  }

  lemma Push(digits: seq<int>, d: int)
    ensures Eval(digits + [d]) == 2 * Eval(digits) + d
    ensures Weight(digits + [d]) == Weight(digits) + if d == 0 then 0 else 1
  {
    assert (digits + [d])[..|digits|] == digits;
  }

  // ----- NAF -----

  function LastDigit(x: int): int {
    if x % 2 == 0 then 0 else 2 - x % 4
  }

  function Naf(x: int): seq<int>
    decreases Abs(x)
  {
    if x == 0 then [] else Naf((x - LastDigit(x)) / 2) + [LastDigit(x)]
  }

  /** The weight of the NAF; NafIsOptimal shows it is the least possible. */
  function LeastWeight(x: int): nat {
    Weight(Naf(x))
  }

  lemma LastDigitFacts(x: int)
    ensures -1 <= LastDigit(x) <= 1 && (x - LastDigit(x)) % 2 == 0
    ensures x == 2 * ((x - LastDigit(x)) / 2) + LastDigit(x)
    ensures LastDigit(x) != 0 ==> ((x - LastDigit(x)) / 2) % 2 == 0
    ensures LastDigit(-x) == -LastDigit(x) && (-x - LastDigit(-x)) / 2 == -((x - LastDigit(x)) / 2)
    ensures x != 0 ==> Abs((x - LastDigit(x)) / 2) < Abs(x)
  {
  }

  /** digits is a non-adjacent form of x. */
  predicate IsNaf(digits: seq<int>, x: int) {
    && Eval(digits) == x && IsSigned(digits) && IsNonAdjacent(digits)
    && (digits != [] ==> digits[|digits| - 1] == LastDigit(x))
  }

  lemma {:induction false} NafIsCorrect(x: int)
    ensures IsNaf(Naf(x), x)
    decreases Abs(x)
  {
    hide IsNaf, LastDigit, Abs;
    if x == 0 {
      EmptyIsNaf();
    } else {
      LastDigitFacts(x);
      NafIsCorrect((x - LastDigit(x)) / 2);
      AppendToNaf(Naf((x - LastDigit(x)) / 2), x);
    }
  }

  lemma EmptyIsNaf()
    ensures IsNaf([], 0)
  {
  }

  lemma AppendToNaf(digits: seq<int>, x: int)
    requires IsNaf(digits, (x - LastDigit(x)) / 2)
    ensures IsNaf(digits + [LastDigit(x)], x)
  {
    hide LastDigit, Eval, Weight;
    LastDigitFacts(x);
    Push(digits, LastDigit(x));
    if LastDigit(x) != 0 {
      EvenEndsInZero((x - LastDigit(x)) / 2);
    }
  }

  lemma EvenEndsInZero(x: int)
    requires x % 2 == 0
    ensures LastDigit(x) == 0
  {
  }

  lemma UnfoldWeight(x: int)
    ensures x % 2 == 0 ==> LeastWeight(x) == LeastWeight(x / 2)
    ensures x % 4 == 1 ==> LeastWeight(x) == 1 + LeastWeight((x - 1) / 2)
    ensures x % 4 == 3 ==> LeastWeight(x) == 1 + LeastWeight((x + 1) / 2)
  {
    if x != 0 {
      Push(Naf((x - LastDigit(x)) / 2), LastDigit(x));
    }
  }

  lemma UnfoldLastDigit(x: int)
    ensures LeastWeight(x) == LeastWeight((x - LastDigit(x)) / 2) + if LastDigit(x) == 0 then 0 else 1
  {
    if x != 0 {
      Push(Naf((x - LastDigit(x)) / 2), LastDigit(x));
    }
  }

  /** Every number is even or next to a multiple of four. */
  lemma Shape(x: int) returns (j: int, c: int)
    ensures (c == 0 && x == 2 * j) || ((c == 1 || c == -1) && x == 4 * j + c)
  {
    j, c := if x % 4 == 1 then x / 4 else if x % 4 == 3 then x / 4 + 1 else x / 2, LastDigit(x);
    DigitOfResidue(x);
  }

  lemma WeightOfEven(j: int)
    ensures LeastWeight(2 * j) == LeastWeight(j)
  {
    UnfoldWeight(2 * j);
  }

  lemma WeightOfOdd(j: int, c: int)
    requires c == 1 || c == -1
    ensures LeastWeight(4 * j + c) == 1 + LeastWeight(2 * j)
  {
    hide LeastWeight;
    UnfoldWeight(4 * j + c);
    UniqueRemainder(4 * j + c, 4, if c == 1 then j else j - 1, if c == 1 then 1 else 3);
  }

  /** Putting a digit below a number costs at most that digit. */
  lemma {:induction false} AppendCost(m: int, b: int)
    requires -1 <= b <= 1
    ensures LeastWeight(2 * m + b) <= LeastWeight(m) + if b == 0 then 0 else 1
    decreases Abs(m), 0
  {
    hide LeastWeight;
    WeightOfEven(m);
    if b != 0 {
      var j, c := Shape(m);
      if c == 0 {
        WeightOfOdd(j, b);
      } else {
        WeightOfOdd(j, c);
        if c == b {
          IncrementCost(2 * j, b);
          WeightOfEven(2 * j + b);
          WeightOfOdd(2 * j + b, -b);
        } else {
          WeightOfEven(2 * j);
          assert 2 * m + b == 4 * (2 * j) - b;
          WeightOfOdd(2 * j, -b);
        }
      }
    }
  }

  lemma {:induction false} IncrementCost(k: int, b: int)
    requires b == 1 || b == -1
    ensures LeastWeight(k + b) <= LeastWeight(k) + 1
    decreases Abs(k), 1
  {
    hide LeastWeight;
    var j, c := Shape(k);
    if c == 0 {
      WeightOfEven(j);
      AppendCost(j, b);
    } else {
      WeightOfOdd(j, c);
      WeightOfEven(2 * j);
      if c == b {
        IncrementCost(2 * j, b);
        WeightOfEven(2 * j + b);
      }
    }
  }

  /** No signed representation of a number is lighter than its NAF. */
  lemma {:induction false} NafIsOptimal(digits: seq<int>)
    requires IsSigned(digits)
    ensures LeastWeight(Eval(digits)) <= Weight(digits)
  {
    if digits != [] {
      var rest := digits[..|digits| - 1];
      NafIsOptimal(rest);
      AppendCost(Eval(rest), digits[|digits| - 1]);
    }
  }

  lemma {:induction false} WeightOfNegation(x: int)
    ensures LeastWeight(-x) == LeastWeight(x)
    decreases Abs(x)
  {
    hide LeastWeight, LastDigit, Abs;
    LastDigitFacts(x);
    if x != 0 {
      UnfoldLastDigit(x);
      UnfoldLastDigit(-x);
      WeightOfNegation((x - LastDigit(x)) / 2);
    }
  }

  // ----- the Joye-Yen left-to-right recoding -----

  /** (value >> index) & 1; shifting by a negative amount is an error handled by the caller. */
  function Bit(value: int, index: nat): (b: nat)
    ensures b <= 1
  {
    (value / Pow2(index)) % 2
  }

  function BitOrZero(value: int, index: int): (b: nat)
    ensures b <= 1
  {
    if index < 0 then 0 else Bit(value, index)
  }

  lemma ModSplits(v: int, p: int)
    requires p > 0
    ensures v % (2 * p) == ((v / p) % 2) * p + v % p
    ensures v / (2 * p) == (v / p) / 2
  {
    var q, r := v / p, v % p;
    var h, b := q / 2, q % 2;
    assert q * p == (2 * h + b) * p == h * (2 * p) + b * p;
    assert v == h * (2 * p) + (b * p + r);
    assert 0 <= b * p + r < 2 * p by {
      if b == 0 { assert b * p == 0; } else { assert b * p == p; }
    }
    UniqueRemainder(v, 2 * p, h, b * p + r);
  }

  lemma LowBitsSplit(v: int, i: nat)
    ensures v % Pow2(i + 1) == Bit(v, i) * Pow2(i) + v % Pow2(i)
  {
    ModSplits(v, Pow2(i));
  }

  /** The two bits below position i place v mod 2^i within a quarter of 2^i. */
  lemma LowBitsRange(v: int, i: nat)
    ensures (2 * BitOrZero(v, i - 1) + BitOrZero(v, i - 2)) * Pow2(i) <= 4 * (v % Pow2(i))
    ensures 4 * (v % Pow2(i)) < (2 * BitOrZero(v, i - 1) + BitOrZero(v, i - 2) + 1) * Pow2(i)
  {
    hide Bit;
    if i >= 2 {
      LowBitsSplit(v, i - 1);
      LowBitsSplit(v, i - 2);
      QuarterRange(Bit(v, i - 1), Bit(v, i - 2), Pow2(i - 2), v % Pow2(i - 2), 2 * Pow2(i - 2), 4 * Pow2(i - 2));
      assert i - 1 == (i - 2) + 1 && i == (i - 1) + 1;
    } else if i == 1 {
      LowBitsSplit(v, 0);
      assert Pow2(0) == 1 && Pow2(1) == 2 && v % 1 == 0;
    }
  }

  lemma QuarterRange(b1: nat, b2: nat, q: int, low: int, h: int, p: int)
    requires b1 <= 1 && b2 <= 1 && h == 2 * q && p == 4 * q
    requires 0 <= low < q
    ensures (2 * b1 + b2) * p <= 4 * (b1 * h + (b2 * q + low)) < (2 * b1 + b2 + 1) * p
  {
  }

  /** Bits below the length survive the reduction modulo 2^length. */
  lemma {:induction false} BitsOfResidue(value: int, bits: nat, i: nat)
    requires i < bits
    ensures Bit(value % Pow2(bits), i) == Bit(value, i)
    decreases bits
  {
    var p := Pow2(bits - 1);
    ModSplits(value, p);
    if i == bits - 1 {
      TopBitOfResidue(Bit(value, i), p, value % p);
    } else {
      BitsOfResidue(value, bits - 1, i);
      BitOfSum(Bit(value, bits - 1), bits - 1, i, value % p);
    }
  }

  lemma TopBitOfResidue(b: nat, p: int, low: int)
    requires b <= 1 && 0 <= low < p
    ensures ((b * p + low) / p) % 2 == b
  {
    UniqueRemainder(b * p + low, p, b, low);
  }

  /** Adding a multiple of 2^k leaves the bits below k alone. */
  lemma BitOfSum(b: nat, k: nat, i: nat, low: int)
    requires i < k
    ensures Bit(b * Pow2(k) + low, i) == Bit(low, i)
  {
    var p, h := Pow2(i), Pow2(k - i - 1);
    Pow2Adds(i + 1, k - i - 1);
    EvenMultiple(b, p, h, low);
  }

  lemma EvenMultiple(b: nat, p: int, h: int, low: int)
    requires p > 0
    ensures ((b * (2 * p * h) + low) / p) % 2 == (low / p) % 2
  {
    var q, r, t := low / p, low % p, b * h;
    assert b * (2 * p * h) == p * (2 * t);
    assert b * (2 * p * h) + low == p * (2 * t + q) + r;
    UniqueRemainder(b * (2 * p * h) + low, p, 2 * t + q, r);
    assert (2 * t + q) % 2 == q % 2;
  }

  /** A leading power of two far enough above y costs exactly one more digit. */
  lemma {:induction false} LeadingPower(i: nat, y: int)
    requires 0 <= 4 * y + Pow2(i) && 2 * y <= Pow2(i)
    ensures LeastWeight(Pow2(i) + y) == 1 + LeastWeight(y)
    decreases i, 1
  {
    hide LeastWeight;
    if i == 0 {
      assert y == 0;
      SmallWeights();
    } else if i == 1 {
      assert Pow2(1) == 2 * Pow2(0);
      assert y == 0 || y == 1;
      SmallWeights();
    } else {
      assert Pow2(i) == 2 * Pow2(i - 1) && Pow2(i - 1) == 2 * Pow2(i - 2);
      LeadingPowerIsEven(i - 2);
      LeadingPowerStep(i, y);
    }
  }

  lemma SmallWeights()
    ensures LeastWeight(0) == 0 && LeastWeight(1) == 1 && LeastWeight(2) == 1 && LeastWeight(3) == 2
  {
    UnfoldWeight(1);
    UnfoldWeight(2);
    UnfoldWeight(3);
    UnfoldWeight(4);
  }

  lemma LeadingPowerIsEven(i: nat)
    ensures i > 0 ==> Pow2(i) % 2 == 0
    ensures i == 0 ==> Pow2(i) == 1
  {
  }

  lemma LeadingPowerStep(i: nat, y: int)
    requires i >= 2 && Pow2(i) == 2 * Pow2(i - 1) == 4 * Pow2(i - 2)
    requires Pow2(i - 2) == 1 || Pow2(i - 2) % 2 == 0
    requires 0 <= 4 * y + Pow2(i) && 2 * y <= Pow2(i)
    ensures LeastWeight(Pow2(i) + y) == 1 + LeastWeight(y)
    decreases i, 0
  {
    hide LeastWeight, Pow2, LastDigit;
    var rest := (y - LastDigit(y)) / 2;
    UnfoldLastDigit(y);
    UnfoldLastDigit(Pow2(i) + y);
    HalveBelowPower(Pow2(i - 2), y);
    LeadingPower(i - 1, rest);
  }

  lemma HalveBelowPower(q: int, y: int)
    requires q == 1 || q % 2 == 0
    requires 0 <= 4 * y + 4 * q && 2 * y <= 4 * q
    ensures LastDigit(4 * q + y) == LastDigit(y)
    ensures (4 * q + y - LastDigit(y)) / 2 == 2 * q + (y - LastDigit(y)) / 2
    ensures 0 <= 4 * ((y - LastDigit(y)) / 2) + 2 * q && 2 * ((y - LastDigit(y)) / 2) <= 2 * q
  {
    hide LastDigit;
    LastDigitFacts(y);
    SameLastDigit(q, y);
    var z, h := LastDigit(y), (y - LastDigit(y)) / 2;
    assert 4 * q + y - z == 2 * (2 * q + h);
  }

  lemma SameLastDigit(q: int, y: int)
    ensures LastDigit(4 * q + y) == LastDigit(y)
    ensures LastDigit(y) == 1 ==> y % 4 == 1
    ensures LastDigit(y) == -1 ==> y % 4 == 3
  {
    UniqueRemainder(4 * q + y, 4, q + y / 4, y % 4);
    DigitOfResidue(y);
    DigitOfResidue(4 * q + y);
  }

  lemma DigitOfResidue(x: int)
    ensures LastDigit(x) == if x % 4 == 1 then 1 else if x % 4 == 3 then -1 else 0
  {
    var q, r := x / 4, x % 4;
    UniqueRemainder(x, 2, 2 * q + r / 2, r % 2);
  }

  lemma LeadingDigit(d: int, i: nat, y: int)
    requires d == 1 || d == -1
    requires 0 <= 4 * (d * y) + Pow2(i) && 2 * (d * y) <= Pow2(i)
    ensures LeastWeight(d * Pow2(i) + y) == 1 + LeastWeight(y)
  {
    hide LeastWeight;
    if d == 1 {
      LeadingPower(i, y);
    } else {
      LeadingPower(i, -y);
      WeightOfNegation(y);
      WeightOfNegation(d * Pow2(i) + y);
    }
  }

  /** What is still to be recoded once the digits above position i are out. */
  function Pending(v: int, i: nat, carry: nat): int {
    v % Pow2(i) - carry * Pow2(i)
  }

  /** One digit of the recoding: it is signed, exact and never wastes weight. */
  lemma RecodeStep(v: int, i: nat, before: nat, carry: nat, next: nat, d: int)
    requires before <= 1 && carry == (before + Bit(v, i) + BitOrZero(v, i - 1)) / 2
    requires next == (carry + BitOrZero(v, i - 1) + BitOrZero(v, i - 2)) / 2
    requires d == -2 * carry + Bit(v, i) + next
    ensures -1 <= d <= 1
    ensures Pending(v, i + 1, carry) == d * Pow2(i) + Pending(v, i, next)
    ensures LeastWeight(Pending(v, i + 1, carry)) == LeastWeight(Pending(v, i, next)) + if d == 0 then 0 else 1
  {
    hide LeastWeight, Bit, BitOrZero;
    LowBitsSplit(v, i);
    LowBitsRange(v, i);
    var p, low, r, r1, r2 := Pow2(i), v % Pow2(i), Bit(v, i), BitOrZero(v, i - 1), BitOrZero(v, i - 2);
    StepRange(p, low, r, r1, r2, before, carry, next, d);
    if d != 0 {
      LeadingDigit(d, i, Pending(v, i, next));
    }
  }

  /** Everything recoded so far together with everything pending is v, at least weight. */
  ghost predicate Recoded(v: int, recoded: seq<int>, i: nat, carry: nat) {
    && IsSigned(recoded)
    && Eval(recoded) * Pow2(i) + Pending(v, i, carry) == v
    && Weight(recoded) + LeastWeight(Pending(v, i, carry)) == LeastWeight(v)
  }

  lemma RecodeLap(v: int, recoded: seq<int>, i: nat, before: nat, carry: nat, next: nat, d: int)
    requires Recoded(v, recoded, i + 1, carry)
    requires before <= 1 && carry == (before + Bit(v, i) + BitOrZero(v, i - 1)) / 2
    requires next == (carry + BitOrZero(v, i - 1) + BitOrZero(v, i - 2)) / 2
    requires d == -2 * carry + Bit(v, i) + next
    ensures Recoded(v, recoded + [d], i, next)
  {
    hide LeastWeight, Bit, BitOrZero, Pending, Eval, Weight;
    RecodeStep(v, i, before, carry, next, d);
    Push(recoded, d);
    Horner(Eval(recoded), Pow2(i), d, Pending(v, i, next));
  }

  lemma StepRange(p: int, low: int, r: nat, r1: nat, r2: nat, before: nat, carry: nat, next: nat, d: int)
    requires r <= 1 && r1 <= 1 && r2 <= 1 && before <= 1
    requires carry == (before + r + r1) / 2 && next == (carry + r1 + r2) / 2 && d == -2 * carry + r + next
    requires (2 * r1 + r2) * p <= 4 * low < (2 * r1 + r2 + 1) * p
    ensures -1 <= d <= 1 && next <= 1
    ensures r * p + low - carry * (2 * p) == d * p + (low - next * p)
    ensures d != 0 ==> 0 <= 4 * (d * (low - next * p)) + p && 2 * (d * (low - next * p)) <= p
  {
    assert carry <= 1 && next <= 1;
    assert d * p == -2 * (carry * p) + r * p + next * p;
  }

  lemma TopBitIsClear(v: nat, bits: nat)
    requires v < Pow2(bits)
    ensures Bit(v, bits) == 0 && v % Pow2(bits + 1) == v
  {
    hide Pow2;
    UniqueRemainder(v, Pow2(bits), 0, v);
    LowBitsSplit(v, bits);
  }

  lemma StartOfRecoding(v: nat, bits: nat)
    requires v < Pow2(bits)
    ensures Bit(v, bits) == 0 && Recoded(v, [], bits + 1, 0)
  {
    hide Pow2, Bit, LeastWeight;
    TopBitIsClear(v, bits);
    assert Pending(v, bits + 1, 0) == v;
  }

  lemma EndOfRecoding(v: int)
    ensures Pow2(0) == 1 && Pending(v, 0, 0) == 0
    ensures BitOrZero(v, -1) == 0 && BitOrZero(v, -2) == 0 && LeastWeight(0) == 0
  {
    UniqueRemainder(v, 1, v, 0);
    SmallWeights();
  }

  lemma FinishRecoding(v: int, recoded: seq<int>)
    requires Recoded(v, recoded, 0, 0)
    ensures IsSigned(recoded) && Eval(recoded) == v && Weight(recoded) == LeastWeight(v)
    ensures forall other :: IsSigned(other) && Eval(other) == v ==> Weight(recoded) <= Weight(other)
  {
    hide LeastWeight, Pending, Eval, Weight;
    EndOfRecoding(v);
    forall other | IsSigned(other) && Eval(other) == v
      ensures Weight(recoded) <= Weight(other)
    {
      NafIsOptimal(other);
    }
  }

  lemma ShortValues(value: int)
    ensures BitLength(Abs(value)) < 2 <==> Abs(value) < 2
  {
    assert Pow2(1) == 2 * Pow2(0);
  }

  lemma ResidueIsValue(value: int)
    ensures value % Pow2(BitLength(Abs(value))) == value <==> value >= 0
  {
    if value >= 0 {
      UniqueRemainder(value, Pow2(BitLength(value)), 0, value);
    }
  }

  lemma Horner(e: int, p: int, d: int, y: int)
    ensures (2 * e + d) * p + y == e * (2 * p) + (d * p + y)
  {
  }

  /** jy00: rejects exactly the values of fewer than two bits. Otherwise the signed digits
      denote value modulo 2^bits, so the value itself exactly when it is positive, and no
      signed representation of that number is lighter. */
  method Jy00(value: int) returns (res: Result<seq<int>>)
    ensures res.Err? <==> Abs(value) < 2
    ensures res.Err? ==> res.failure == ValueError
    ensures res.Ok? ==> IsSigned(res.value) && |res.value| == BitLength(Abs(value)) + 1
    ensures res.Ok? ==> Eval(res.value) == value % Pow2(BitLength(Abs(value)))
    ensures res.Ok? ==> (Eval(res.value) == value <==> value >= 2)
    ensures res.Ok? ==> Weight(res.value) == LeastWeight(Eval(res.value))
    ensures res.Ok? ==> forall other :: IsSigned(other) && Eval(other) == Eval(res.value) ==> Weight(res.value) <= Weight(other)
  {
    hide LeastWeight, Bit, BitLength, Eval, Weight, Pending, Pow2, Recoded;
    var bits := BitLength(Abs(value));
    ShortValues(value);
    if bits < 2 {
      return Err(ValueError);
    }
    var bi: nat, bi1: nat, ri: nat, ri1: nat, ri2: nat := 0, 0, 0, 0, 0;
    var recoded := [];
    ghost var v := value % Pow2(bits);
    StartOfRecoding(v, bits);
    ResidueIsValue(value);
    var i: int := bits;
    while i >= 0
      invariant -1 <= i <= bits && |recoded| == bits - i
      invariant bi1 <= 1 && (i < bits ==> bi <= 1 && bi1 == (bi + ri1 + ri2) / 2 && ri1 == BitOrZero(v, i) && ri2 == BitOrZero(v, i - 1))
      invariant i == bits ==> bi == bi1 == ri == 0 && recoded == []
      invariant Recoded(v, recoded, i + 1, bi1)
    {
      ghost var before := if i == bits then 0 else bi;
      if i == bits {
        ri1, ri2 := Bit(value, bits - 1), Bit(value, bits - 2);
        BitsOfResidue(value, bits, bits - 1);
        BitsOfResidue(value, bits, bits - 2);
      } else {
        bi, ri := bi1, ri1;
        ri1, ri2 := ri2, if i >= 2 then Bit(value, i - 2) else 0;
        if i >= 2 {
          BitsOfResidue(value, bits, i - 2);
        }
      }
      assert ri1 == BitOrZero(v, i - 1) && ri2 == BitOrZero(v, i - 2);
      bi1 := (bi + ri1 + ri2) / 2;
      var digit := -2 * bi + ri + bi1;
      RecodeLap(v, recoded, i, before, bi, bi1, digit);
      recoded := recoded + [digit];
      i := i - 1;
    }
    EndOfRecoding(v);
    FinishRecoding(v, recoded);
    return Ok(recoded);
  }
}
