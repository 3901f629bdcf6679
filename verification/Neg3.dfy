/** Base -3 digits of scalars and the matrices made of them. */
module Neg3 {
  import opened IntMath
  import opened Results

  /** (-3)^n */
  function NegPow(n: nat): int {
    if n == 0 then 1 else -3 * NegPow(n - 1)
  }

  /** The sum of (-3)^i * digits[i], least significant digit first. */
  function DigitSum(digits: seq<int>): int {
    if digits == [] then 0
    else DigitSum(digits[..|digits| - 1]) + NegPow(|digits| - 1) * digits[|digits| - 1]
  }

  predicate AreDigits(digits: seq<int>) {
    forall i :: 0 <= i < |digits| ==> -1 <= digits[i] <= 1
  }

  lemma DigitSumNext(digits: seq<int>, d: int)
    ensures DigitSum(digits + [d]) == DigitSum(digits) + NegPow(|digits|) * d
  {
    assert (digits + [d])[..|digits|] == digits;
  }

  /** Horner's form of the digit sum. */
  lemma {:induction false} DigitSumHorner(digits: seq<int>)
    requires digits != []
    ensures DigitSum(digits) == digits[0] - 3 * DigitSum(digits[1..])
  {
    if |digits| == 1 {
      assert digits[..0] == [] && digits[1..] == [];
      assert NegPow(0) == 1;
    } else {
      var n := |digits| - 1;
      DigitSumHorner(digits[..n]);
      assert digits[..n][1..] == digits[1..][..n - 1];
      assert digits[1..][n - 1] == digits[n];
      assert NegPow(n) * digits[n] == -3 * (NegPow(n - 1) * digits[n]);
    }
  }

  /** The remainder -1, 0 or 1 of a scalar modulo 3. */
  function Balanced(scalar: int): (d: int)
    ensures -1 <= d <= 1
  {
    if scalar % 3 == 2 then -1 else scalar % 3
  }

  lemma DivideByMinus3(scalar: int)
    ensures scalar == Balanced(scalar) - 3 * -((scalar - Balanced(scalar)) / 3)
    ensures scalar != 0 ==> Abs(-((scalar - Balanced(scalar)) / 3)) < Abs(scalar)
  {
  }

  function DigitsFrom(scalar: int): seq<int>
    decreases Abs(scalar)
  {
    if scalar == 0 then [] else
      DivideByMinus3(scalar);
      [Balanced(scalar)] + DigitsFrom(-((scalar - Balanced(scalar)) / 3))
  }

  /** The digits of a scalar, least significant first. */
  function Digits(scalar: int): (digits: seq<int>)
    ensures digits != []
  {
    if scalar == 0 then [0] else DigitsFrom(scalar)
  }

  /** neg_3_base_le: digits -1, 0, 1 in base -3 whose sum is the scalar, for every integer;
      no leading zero digit is written except for the scalar 0. */
  method Neg3BaseLe(scalar: int) returns (digits: seq<int>)
    ensures digits == Digits(scalar) && DigitSum(digits) == scalar && AreDigits(digits)
    ensures digits != [] && (|digits| > 1 ==> digits[|digits| - 1] != 0)
  {
    if scalar == 0 {
      assert DigitSum([]) == 0;
      DigitSumNext([], 0);
      assert [] + [0] == [0];
      return [0];
    }
    hide DigitsFrom, DigitSum, NegPow;
    digits := [];
    var s := scalar;
    NoDigitsYet(scalar);
    while s != 0
      invariant Remains(scalar, digits, s)
      decreases Abs(s)
    {
      var remainder := s % 3;
      var next := s;
      if remainder == 2 {
        remainder := -1;
        next := s + 1;
      }
      DivideByMinus3(s);
      NextQuotient(s, next, remainder);
      DigitIsSplit(scalar, digits, s);
      digits := digits + [remainder];
      s := -(next / 3);
    }
    NoMoreDigits();
  }

  /** The digits so far and what is left of the scalar. */
  ghost predicate Remains(scalar: int, digits: seq<int>, s: int) {
    && scalar == DigitSum(digits) + NegPow(|digits|) * s && AreDigits(digits)
    && Digits(scalar) == digits + DigitsFrom(s)
    && (s == 0 ==> digits != [] && digits[|digits| - 1] != 0)
  }

  lemma NoDigitsYet(scalar: int)
    requires scalar != 0
    ensures Remains(scalar, [], scalar)
  {
    assert NegPow(0) == 1 && DigitSum([]) == 0;
    assert [] + DigitsFrom(scalar) == DigitsFrom(scalar);
  }

  lemma DigitIsSplit(scalar: int, digits: seq<int>, s: int)
    requires s != 0 && Remains(scalar, digits, s)
    ensures Remains(scalar, digits + [Balanced(s)], -((s - Balanced(s)) / 3))
  {
    hide DigitsFrom, DigitSum, Digits;
    var d, q := Balanced(s), -((s - Balanced(s)) / 3);
    DivideByMinus3(s);
    UnfoldDigits(digits, s);
    DigitSumNext(digits, d);
    SplitPower(NegPow(|digits|), s, d, q);
    assert NegPow(|digits + [d]|) == -3 * NegPow(|digits|);
  }

  lemma UnfoldDigits(done: seq<int>, s: int)
    requires s != 0
    ensures done + DigitsFrom(s) == (done + [Balanced(s)]) + DigitsFrom(-((s - Balanced(s)) / 3))
  {
    hide Balanced;
    var rest := DigitsFrom(-((s - Balanced(s)) / 3));
    assert DigitsFrom(s) == [Balanced(s)] + rest;
    assert done + ([Balanced(s)] + rest) == (done + [Balanced(s)]) + rest;
  }

  lemma NoMoreDigits()
    ensures DigitsFrom(0) == []
  {
  }

  lemma NextQuotient(s: int, next: int, remainder: int)
    requires remainder == Balanced(s) && next == if remainder == -1 then s + 1 else s
    ensures next / 3 == (s - remainder) / 3
    ensures s != 0 && next / 3 == 0 ==> remainder != 0
  {
  }

  lemma SplitPower(p: int, s: int, d: int, q: int)
    requires s == d - 3 * q
    ensures p * s == p * d + (-3 * p) * q
  {
  }

  // ----- digit matrices -----

  /** Column i of a list of rows. */
  function Column(rows: seq<seq<int>>, i: nat): seq<int>
    requires forall j :: 0 <= j < |rows| ==> i < |rows[j]|
  {
    seq(|rows|, j requires 0 <= j < |rows| => rows[j][i])
  }

  ghost predicate IsMatrix(rows: seq<seq<int>>, width: nat) {
    forall j :: 0 <= j < |rows| ==> |rows[j]| == width && AreDigits(rows[j])
  }

  lemma {:induction false} PaddingKeepsSum(digits: seq<int>, n: nat)
    ensures DigitSum(digits + seq(n, _ => 0)) == DigitSum(digits)
  {
    if n == 0 {
      assert digits + seq(0, _ => 0) == digits;
    } else {
      PaddingKeepsSum(digits, n - 1);
      DigitSumNext(digits + seq(n - 1, _ => 0), 0);
      assert digits + seq(n, _ => 0) == digits + seq(n - 1, _ => 0) + [0];
    }
  }

  /** The length of the longest digit list. */
  function MaxLength(es: seq<int>): nat {
    if es == [] then 0 else
      var rest, last := MaxLength(es[..|es| - 1]), |Digits(es[|es| - 1])|;
      if rest < last then last else rest
  }

  lemma {:induction false} LongestIsReached(es: seq<int>)
    requires es != []
    ensures exists i :: 0 <= i < |es| && |Digits(es[i])| == MaxLength(es)
  {
    hide Digits;
    var n := |es| - 1;
    if MaxLength(es) != |Digits(es[n])| {
      assert es[..n] != [] by { EmptyIsShort(es); }
      LongestIsReached(es[..n]);
      var i :| 0 <= i < n && |Digits(es[..n][i])| == MaxLength(es[..n]);
      assert es[i] == es[..n][i];
    }
  }

  lemma EmptyIsShort(es: seq<int>)
    requires es != [] && MaxLength(es) != |Digits(es[|es| - 1])|
    ensures es[..|es| - 1] != []
  {
  }

  /** Row j holds digit j of every scalar, 0 beyond its last digit. */
  function DigitRows(es: seq<int>): (rows: seq<seq<int>>)
    ensures |rows| == MaxLength(es) && forall j :: 0 <= j < |rows| ==> |rows[j]| == |es|
  {
    seq(MaxLength(es), j requires 0 <= j => seq(|es|, i requires 0 <= i < |es| => if j < |Digits(es[i])| then Digits(es[i])[j] else 0))
  }

  /** construct_digit_vectors: fails exactly on no scalars; otherwise row j holds digit j of
      every scalar, all padded to the longest. */
  method ConstructDigitVectors(es: seq<int>) returns (res: Result<seq<seq<int>>>)
    ensures (res.Err? <==> es == []) && (res.Err? ==> res.failure == ValueError)
    ensures res.Ok? ==> res.value == DigitRows(es) && res.value != [] && IsMatrix(res.value, |es|)
    ensures res.Ok? ==> forall i :: 0 <= i < |es| ==> DigitSum(Column(res.value, i)) == es[i]
    ensures res.Ok? ==> exists i :: 0 <= i < |es| && |Digits(es[i])| == |res.value|
  {
    hide Digits, DigitSum, AreDigits;
    if |es| == 0 {
      return Err(ValueError);
    }
    var columns: seq<seq<int>> := [];
    var maxLen := 0;
    for k := 0 to |es|
      invariant |columns| == k && (k > 0 ==> maxLen > 0) && maxLen == MaxLength(es[..k])
      invariant forall i :: 0 <= i < k ==> columns[i] == Digits(es[i])
      invariant forall i :: 0 <= i < k ==> |columns[i]| <= maxLen && AreDigits(columns[i]) && DigitSum(columns[i]) == es[i]
    {
      var digits := Neg3BaseLe(es[k]);
      assert es[..k + 1][..k] == es[..k];
      columns := columns + [digits];
      maxLen := if maxLen < |digits| then |digits| else maxLen;
    }
    assert es[..|es|] == es;
    var padded := seq(|es|, i requires 0 <= i < |es| => columns[i] + seq(maxLen - |columns[i]|, _ => 0));
    var rows := seq(maxLen, j requires 0 <= j < maxLen => seq(|es|, i requires 0 <= i < |es| => padded[i][j]));
    PaddedColumns(es, columns, padded, rows);
    LongestIsReached(es);
    return Ok(rows);
  }

  lemma PaddedColumns(es: seq<int>, columns: seq<seq<int>>, padded: seq<seq<int>>, rows: seq<seq<int>>)
    requires |columns| == |padded| == |es| && |rows| == MaxLength(es)
    requires forall i :: 0 <= i < |es| ==> columns[i] == Digits(es[i]) && AreDigits(columns[i]) && DigitSum(columns[i]) == es[i]
    requires forall i :: 0 <= i < |es| ==> |columns[i]| <= MaxLength(es)
    requires forall i :: 0 <= i < |es| ==> padded[i] == columns[i] + seq(MaxLength(es) - |columns[i]|, _ => 0)
    requires forall j :: 0 <= j < |rows| ==> |rows[j]| == |es| && forall i :: 0 <= i < |es| ==> rows[j][i] == padded[i][j]
    ensures rows == DigitRows(es) && IsMatrix(rows, |es|)
    ensures forall i :: 0 <= i < |es| ==> DigitSum(Column(rows, i)) == es[i]
  {
    hide Digits, MaxLength, DigitSum;
    forall j | 0 <= j < |rows|
      ensures rows[j] == DigitRows(es)[j] && AreDigits(rows[j])
    {
    }
    forall i | 0 <= i < |es|
      ensures DigitSum(Column(rows, i)) == es[i]
    {
      assert Column(rows, i) == padded[i];
      PaddingKeepsSum(columns[i], MaxLength(es) - |columns[i]|);
    }
  }

  // ----- multiplicities -----

  /** The sum of (-3)^i over the places i that hold the digit d. */
  function Multiplicity(digits: seq<int>, d: int): int {
    if digits == [] then 0
    else Multiplicity(digits[..|digits| - 1], d) + if digits[|digits| - 1] == d then NegPow(|digits| - 1) else 0
  }

  /** Where d occurs, as digits 0 and 1. */
  function Occurrences(digits: seq<int>, d: int): (os: seq<int>)
    ensures |os| == |digits|
  {
    seq(|digits|, i requires 0 <= i < |digits| => if digits[i] == d then 1 else 0)
  }

  lemma {:induction false} MultiplicityIsSum(digits: seq<int>, d: int)
    ensures Multiplicity(digits, d) == DigitSum(Occurrences(digits, d))
  {
    if digits != [] {
      var n := |digits| - 1;
      MultiplicityIsSum(digits[..n], d);
      assert Occurrences(digits, d)[..n] == Occurrences(digits[..n], d);
    }
  }

  /** positive_negative_multiplicities: ep - en is the scalar the digits denote. */
  function PositiveNegativeMultiplicities(digits: seq<int>): (int, int) {
    (Multiplicity(digits, 1), Multiplicity(digits, -1))
  }

  lemma {:induction false} MultiplicitiesDiffer(digits: seq<int>)
    requires AreDigits(digits)
    ensures var (ep, en) := PositiveNegativeMultiplicities(digits); ep - en == DigitSum(digits)
  {
    if digits != [] {
      MultiplicitiesDiffer(digits[..|digits| - 1]);
    }
  }
}
