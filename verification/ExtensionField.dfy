/** The extension-field circuit: polynomial identities  P_1 ... P_n == Q * P_irr + R  are
    recorded as they are used, and checked all at once at a single point by a random linear
    combination. */
module ExtensionField {
  import opened Fields
  import opened IntMath
  import opened ModuloCircuits
  import opened Polynomials
  import PolynomialAlgorithms
  import opened Results
  import opened ValueSegments

  // ----- sparsities -----

  /** The coefficients a sparsity list stands for: 1 keeps the element, 2 means one, anything
      else zero. An empty list carries no information. */
  function Encoded<F(!new)>(f: Field<F>, X: seq<Element<F>>, sparsity: seq<int>): seq<F>
    requires sparsity == [] || |sparsity| == |X|
  {
    if sparsity == [] then Values(X) else
      seq(|X|, i requires 0 <= i < |X| =>
        if sparsity[i] == 1 then X[i].value else if sparsity[i] == 2 then f.one else f.zero)
  }

  /** Elements that may be used as operands: all of them, or those marked 1. */
  ghost predicate IsUsable<F(!new)>(segment: map<int, Item<F>>, X: seq<Element<F>>, sparsity: seq<int>) {
    && (sparsity == [] || |sparsity| == |X|)
    && forall i :: 0 <= i < |X| && (sparsity == [] || sparsity[i] == 1) ==> IsElement(segment, X[i])
  }

  predicate HasValidCodes(sparsity: seq<int>) {
    forall i :: 0 <= i < |sparsity| ==> 0 <= sparsity[i] <= 2
  }

  predicate IsAllZero(sparsity: seq<int>) {
    forall i :: 0 <= i < |sparsity| ==> sparsity[i] == 0
  }

  /** Zeros and ones are where the sparsity says they are. */
  predicate IsAccurate<F(==, !new)>(f: Field<F>, X: seq<Element<F>>, sparsity: seq<int>) {
    sparsity != [] ==>
      && |sparsity| == |X|
      && forall i :: 0 <= i < |X| ==> (sparsity[i] == 0 ==> X[i].value == f.zero) && (sparsity[i] == 2 ==> X[i].value == f.one)
  }

  lemma AccurateIsExact<F(!new)>(f: Field<F>, X: seq<Element<F>>, sparsity: seq<int>)
    requires IsAccurate(f, X, sparsity) && HasValidCodes(sparsity)
    ensures Encoded(f, X, sparsity) == Values(X)
  {
  }

  /** The check of the factors passes exactly when the sparsity encodes the elements themselves. */
  lemma AccurateExactly<F(!new)>(f: Field<F>, X: seq<Element<F>>, sparsity: seq<int>)
    requires HasValidCodes(sparsity) && (sparsity == [] || |sparsity| == |X|)
    ensures IsAccurate(f, X, sparsity) <==> Encoded(f, X, sparsity) == Values(X)
  {
    if Encoded(f, X, sparsity) == Values(X) && sparsity != [] {
      forall i | 0 <= i < |X|
        ensures (sparsity[i] == 0 ==> X[i].value == f.zero) && (sparsity[i] == 2 ==> X[i].value == f.one)
      {
        assert Encoded(f, X, sparsity)[i] == Values(X)[i];
      }
    }
  }

  lemma UsableStays<F(!new)>(before: map<int, Item<F>>, after: map<int, Item<F>>, X: seq<Element<F>>, sparsity: seq<int>)
    requires IsUsable(before, X, sparsity) && Grows(before, after)
    ensures IsUsable(after, X, sparsity)
  {
  }

  lemma ElementsStay<F(!new)>(before: map<int, Item<F>>, after: map<int, Item<F>>, es: seq<Element<F>>)
    requires AreElements(before, es) && Grows(before, after)
    ensures AreElements(after, es)
  {
  }

  // ----- evaluation at the powers of z -----

  method FirstNonZero(sparsity: seq<int>) returns (index: Option<nat>)
    ensures index.None? <==> IsAllZero(sparsity)
    ensures index.Some? ==> index.value < |sparsity| && sparsity[index.value] != 0 && IsAllZero(sparsity[..index.value])
  {
    for i := 0 to |sparsity|
      invariant IsAllZero(sparsity[..i])
    {
      if sparsity[i] != 0 {
        return Some(i);
      }
    }
    assert sparsity[..|sparsity|] == sparsity;
    return None;
  }

  lemma {:induction false} ValueOfZeros<F(!new)>(f: Field<F>, p: seq<F>, z: F)
    requires f.IsField() && forall i :: 0 <= i < |p| ==> p[i] == f.zero
    ensures PolyValue(f, p, z) == f.zero
  {
    if p != [] {
      ValueOfZeros(f, p[1..], z);
      MulZero(f, z);
      AddZero(f, f.zero);
    }
  }

  /** The term of place i of a sparse polynomial, absent when its code is 0. */
  method SparseTerm<F(==, !new)>(circuit: ModuloCircuit<F>, X: seq<Element<F>>, sparsity: seq<int>, i: nat,
      zPowers: seq<Element<F>>, ghost z: F)
    returns (res: Result<Option<Element<F>>>)
    requires circuit.Valid() && i < |X| == |sparsity| <= |zPowers| + 1 && IsUsable(circuit.Segment(), X, sparsity)
    requires AreElements(circuit.Segment(), zPowers) && ArePowers(circuit.field, z, zPowers)
    modifies circuit`calls, circuit`constants, circuit.valuesSegment`segment, circuit.valuesSegment`stacks,
      circuit.valuesSegment`offset, circuit.valuesSegment`log
    ensures circuit.Valid() && Grows(old(circuit.Segment()), circuit.Segment())
    ensures (res.Err? <==> !(0 <= sparsity[i] <= 2)) && (res.Err? ==> res.failure == ValueError)
    ensures res.Ok? ==> (res.value.None? <==> sparsity[i] == 0)
    ensures res.Ok? && res.value.Some? ==> IsElement(circuit.Segment(), res.value.value)
    ensures res.Ok? ==>
      ValueOr0(circuit.field, res.value) == circuit.field.mul(Encoded(circuit.field, X, sparsity)[i], Power(circuit.field, z, i))
  {
    hide ModuloCircuit.Valid, Power;
    var f := circuit.field;
    ValidIsField(circuit);
    PowerAt(f, z, zPowers, i);
    if sparsity[i] == 1 {
      MulOne(f, X[i].value);
      if i == 0 {
        return Ok(Some(X[0]));
      }
      var term := circuit.MulElements(X[i], zPowers[i - 1]);
      return Ok(Some(term));
    } else if sparsity[i] == 2 {
      MulOne(f, Power(f, z, i));
      if i == 0 {
        var one := circuit.SetOrGetConstant(f.one);
        return Ok(Some(one));
      }
      return Ok(Some(zPowers[i - 1]));
    } else if sparsity[i] == 0 {
      MulZero(f, Power(f, z, i));
      return Ok(None);
    }
    return Err(ValueError);
  }

  lemma PowerAt<F(!new)>(f: Field<F>, z: F, powers: seq<Element<F>>, i: nat)
    requires ArePowers(f, z, powers) && i <= |powers|
    ensures i == 0 ==> Power(f, z, i) == f.one
    ensures i > 0 ==> Power(f, z, i) == powers[i - 1].value
  {
  }

  lemma ValidIsField<F(!new)>(circuit: ModuloCircuit<F>)
    requires circuit.Valid()
    ensures circuit.field.IsField()
  {
  }

  /** eval_poly_in_precomputed_Z with a sparsity: an all-zero one finds no first term, a code
      other than 0, 1, 2 is invalid; otherwise the value at z of the encoded polynomial. */
  method EvalSparse<F(==, !new)>(circuit: ModuloCircuit<F>, X: seq<Element<F>>, sparsity: seq<int>,
      zPowers: seq<Element<F>>, ghost z: F)
    returns (res: Result<Element<F>>)
    requires circuit.Valid() && 0 < |X| == |sparsity| <= |zPowers| + 1 && IsUsable(circuit.Segment(), X, sparsity)
    requires AreElements(circuit.Segment(), zPowers) && ArePowers(circuit.field, z, zPowers)
    modifies circuit`calls, circuit`constants, circuit.valuesSegment`segment, circuit.valuesSegment`stacks,
      circuit.valuesSegment`offset, circuit.valuesSegment`log
    ensures circuit.Valid() && Grows(old(circuit.Segment()), circuit.Segment())
    ensures res.Ok? <==> HasValidCodes(sparsity) && !IsAllZero(sparsity)
    ensures res.Err? ==> res.failure == if IsAllZero(sparsity) then TypeError else ValueError
    ensures res.Ok? ==> IsElement(circuit.Segment(), res.value)
    ensures res.Ok? ==> res.value.value == PolyValue(circuit.field, Encoded(circuit.field, X, sparsity), z)
  {
    hide ModuloCircuit.Valid, Power, PolyValue, IsUsable, AreElements, ArePowers, Encoded;
    var f := circuit.field;
    ValidIsField(circuit);
    EncodedLength(f, X, sparsity);
    ghost var coeffs := Encoded(f, X, sparsity);
    var first := FirstNonZero(sparsity);
    if first.None? {
      return Err(TypeError);
    }
    var start := SparseTerm(circuit, X, sparsity, first.value, zPowers, z);
    if start.Err? {
      return Err(start.failure);
    }
    var acc := start.value.value;
    FirstTerm(f, X, sparsity, first.value, z);
    for i := first.value + 1 to |X|
      invariant circuit.Valid() && Grows(old(circuit.Segment()), circuit.Segment())
      invariant IsElement(circuit.Segment(), acc) && acc.value == PolyValue(f, coeffs[..i], z)
      invariant HasValidCodes(sparsity[..i])
    {
      UsableStays(old(circuit.Segment()), circuit.Segment(), X, sparsity);
      ElementsStay(old(circuit.Segment()), circuit.Segment(), zPowers);
      var term := SparseTerm(circuit, X, sparsity, i, zPowers, z);
      if term.Err? {
        return Err(term.failure);
      }
      AppendTerm(f, coeffs, i, z);
      AddZero(f, acc.value);
      if term.value.Some? {
        acc := circuit.AddElements(acc, term.value.value);
      }
    }
    assert coeffs[..|X|] == coeffs && sparsity[..|X|] == sparsity;
    return Ok(acc);
  }

  lemma FirstTerm<F(!new)>(f: Field<F>, X: seq<Element<F>>, sparsity: seq<int>, first: nat, z: F)
    requires f.IsField() && first < |X| == |sparsity| && IsAllZero(sparsity[..first])
    ensures PolyValue(f, Encoded(f, X, sparsity)[..first + 1], z) == f.mul(Encoded(f, X, sparsity)[first], Power(f, z, first))
  {
    hide Power, PolyValue;
    var coeffs := Encoded(f, X, sparsity);
    forall i | 0 <= i < first
      ensures coeffs[..first][i] == f.zero
    {
      assert sparsity[..first][i] == 0;
    }
    ValueOfZeros(f, coeffs[..first], z);
    AppendTerm(f, coeffs, first, z);
    AddZero(f, f.mul(coeffs[first], Power(f, z, first)));
  }

  lemma AppendTerm<F(!new)>(f: Field<F>, coeffs: seq<F>, i: nat, z: F)
    requires f.IsField() && i < |coeffs|
    ensures PolyValue(f, coeffs[..i + 1], z) == f.add(PolyValue(f, coeffs[..i], z), f.mul(coeffs[i], Power(f, z, i)))
  {
    assert coeffs[..i + 1] == coeffs[..i] + [coeffs[i]];
    PolySnoc(f, coeffs[..i], coeffs[i], z);
  }

  /** eval_poly_in_precomputed_Z on polynomials without absent coefficients. */
  method EvalInZ<F(==, !new)>(circuit: ModuloCircuit<F>, X: seq<Element<F>>, sparsity: seq<int>,
      zPowers: seq<Element<F>>, ghost z: F)
    returns (r: Element<F>)
    requires circuit.Valid() && 0 < |X| <= |zPowers| + 1 && IsUsable(circuit.Segment(), X, sparsity)
    requires sparsity != [] ==> HasValidCodes(sparsity) && !IsAllZero(sparsity)
    requires AreElements(circuit.Segment(), zPowers) && ArePowers(circuit.field, z, zPowers)
    modifies circuit`calls, circuit`constants, circuit.valuesSegment`segment, circuit.valuesSegment`stacks,
      circuit.valuesSegment`offset, circuit.valuesSegment`log
    ensures circuit.Valid() && Grows(old(circuit.Segment()), circuit.Segment()) && IsElement(circuit.Segment(), r)
    ensures r.value == PolyValue(circuit.field, Encoded(circuit.field, X, sparsity), z)
  {
    hide ModuloCircuit.Valid, Power, PolyValue;
    if |sparsity| != 0 {
      var sparse := EvalSparse(circuit, X, sparsity, zPowers, z);
      return sparse.value;
    }
    var optional := seq(|X|, i requires 0 <= i < |X| => Some(X[i]));
    var dense := circuit.EvalPoly(optional, zPowers, z);
    assert Coefficients(circuit.field, optional) == Values(X) && optional[0] != None;
    return dense.value.value;
  }

  // ----- recorded identities -----

  datatype IdentityKind = MulIdentity | DivIdentity | SquareTorus

  /** One recorded identity. Sparsities are empty lists where the source passes none. */
  datatype Identity<F> = Identity(
    kind: IdentityKind, Pis: seq<seq<Element<F>>>, Q: seq<F>, R: seq<Element<F>>, sparsities: seq<seq<int>>, rSparsity: seq<int>)

  /** The sparsity of factor k. */
  function SparsityAt(sparsities: seq<seq<int>>, k: nat): seq<int>
    requires sparsities == [] || k < |sparsities|
  {
    if sparsities == [] then [] else sparsities[k]
  }

  /** What recording checks of an identity over lists of length d, apart from the values. */
  ghost predicate IsIdentity<F(!new)>(segment: map<int, Item<F>>, d: nat, t: Identity<F>) {
    && t.Pis != [] && (t.sparsities == [] || |t.sparsities| == |t.Pis|)
    && (forall k :: 0 <= k < |t.Pis| ==>
         && 0 < |t.Pis[k]| <= d && IsUsable(segment, t.Pis[k], SparsityAt(t.sparsities, k))
         && (SparsityAt(t.sparsities, k) != [] ==>
              HasValidCodes(SparsityAt(t.sparsities, k)) && !IsAllZero(SparsityAt(t.sparsities, k))))
    && |t.R| == d && IsUsable(segment, t.R, t.rSparsity)
  }

  /** Every factor's sparsity tells the truth about its elements. */
  predicate FactorsAreAccurate<F(==, !new)>(f: Field<F>, t: Identity<F>)
    requires t.sparsities == [] || |t.sparsities| == |t.Pis|
  {
    forall k :: 0 <= k < |t.Pis| ==> IsAccurate(f, t.Pis[k], SparsityAt(t.sparsities, k))
  }

  lemma RecordedStays<F(!new)>(before: map<int, Item<F>>, after: map<int, Item<F>>, d: nat, t: Identity<F>)
    requires IsIdentity(before, d, t) && Grows(before, after)
    ensures IsIdentity(after, d, t)
  {
    hide IsUsable, HasValidCodes, IsAllZero, Grows;
    forall k | 0 <= k < |t.Pis|
      ensures IsUsable(after, t.Pis[k], SparsityAt(t.sparsities, k))
    {
      UsableStays(before, after, t.Pis[k], SparsityAt(t.sparsities, k));
    }
    UsableStays(before, after, t.R, t.rSparsity);
  }

  /** The product of the values at z of the first n factors. */
  function ProductAt<F(!new)>(f: Field<F>, Pis: seq<seq<Element<F>>>, z: F, n: nat): F
    requires n <= |Pis|
  {
    if n == 0 then f.one else f.mul(ProductAt(f, Pis, z, n - 1), PolyValue(f, Values(Pis[n - 1]), z))
  }

  // ----- the two sides of the check -----

  datatype Accumulator<F> = Accumulator(lhs: Element<F>, R: seq<Option<Element<F>>>, REvaluated: Element<F>)

  ghost predicate IsAccumulator<F(!new)>(segment: map<int, Item<F>>, acc: Accumulator<F>) {
    IsElement(segment, acc.lhs) && IsElement(segment, acc.REvaluated) && AreOptional(segment, acc.R)
  }

  lemma AccumulatorStays<F(!new)>(before: map<int, Item<F>>, after: map<int, Item<F>>, acc: Accumulator<F>)
    requires IsAccumulator(before, acc) && Grows(before, after)
    ensures IsAccumulator(after, acc)
  {
  }

  /** The value at z of everything accumulated on the right but the Q*P_irr part. */
  function RightValue<F(!new)>(f: Field<F>, acc: Accumulator<F>, z: F): F {
    f.add(PolyValue(f, Coefficients(f, acc.R), z), acc.REvaluated.value)
  }

  /** The value at z of factor i; a factor equal to the one before reuses its value. */
  method EvalFactor<F(==, !new)>(circuit: ModuloCircuit<F>, t: Identity<F>, i: nat, previous: Option<Element<F>>,
      zPowers: seq<Element<F>>, ghost z: F, ghost d: nat)
    returns (r: Element<F>)
    requires circuit.Valid() && IsIdentity(circuit.Segment(), d, t) && d <= |zPowers| && i < |t.Pis|
    requires FactorsAreAccurate(circuit.field, t)
    requires AreElements(circuit.Segment(), zPowers) && ArePowers(circuit.field, z, zPowers)
    requires previous.Some? <==> i > 0
    requires i > 0 ==> IsElement(circuit.Segment(), previous.value)
    requires i > 0 ==> previous.value.value == PolyValue(circuit.field, Values(t.Pis[i - 1]), z)
    modifies circuit`calls, circuit`constants, circuit.valuesSegment`segment, circuit.valuesSegment`stacks,
      circuit.valuesSegment`offset, circuit.valuesSegment`log
    ensures circuit.Valid() && Grows(old(circuit.Segment()), circuit.Segment()) && IsElement(circuit.Segment(), r)
    ensures r.value == PolyValue(circuit.field, Values(t.Pis[i]), z)
    ensures i > 0 && t.Pis[i - 1] == t.Pis[i] ==>
      r == previous.value && circuit.calls == old(circuit.calls) && circuit.Segment() == old(circuit.Segment())
  {
    hide ModuloCircuit.Valid, PolyValue, IsUsable, ArePowers, Encoded, HasValidCodes, IsAllZero, IsAccurate, AreElements;
    if i > 0 && t.Pis[i - 1] == t.Pis[i] {
      return previous.value;
    }
    FactorCodes(circuit.Segment(), d, circuit.field, t, i);
    AccurateIsExact(circuit.field, t.Pis[i], SparsityAt(t.sparsities, i));
    r := EvalInZ(circuit, t.Pis[i], SparsityAt(t.sparsities, i), zPowers, z);
  }

  /** The product of all factors, evaluated inside the circuit. */
  method EvalFactors<F(==, !new)>(circuit: ModuloCircuit<F>, t: Identity<F>, zPowers: seq<Element<F>>, ghost z: F, ghost d: nat)
    returns (lhs: Element<F>, firstOfZ: Element<F>)
    requires circuit.Valid() && IsIdentity(circuit.Segment(), d, t) && d <= |zPowers|
    requires FactorsAreAccurate(circuit.field, t)
    requires AreElements(circuit.Segment(), zPowers) && ArePowers(circuit.field, z, zPowers)
    modifies circuit`calls, circuit`constants, circuit.valuesSegment`segment, circuit.valuesSegment`stacks,
      circuit.valuesSegment`offset, circuit.valuesSegment`log
    ensures circuit.Valid() && Grows(old(circuit.Segment()), circuit.Segment())
    ensures IsElement(circuit.Segment(), lhs) && IsElement(circuit.Segment(), firstOfZ)
    ensures lhs.value == ProductAt(circuit.field, t.Pis, z, |t.Pis|)
    ensures firstOfZ.value == PolyValue(circuit.field, Values(t.Pis[0]), z)
  {
    hide ModuloCircuit.Valid, PolyValue, IsIdentity, ArePowers, ProductAt, IsAccurate, AreElements, FactorsAreAccurate;
    var f := circuit.field;
    RecordedShape(circuit.Segment(), d, t);
    firstOfZ := EvalFactor(circuit, t, 0, None, zPowers, z, d);
    lhs := firstOfZ;
    FirstProduct(circuit, t, z);
    var current := firstOfZ;
    for i := 1 to |t.Pis|
      invariant circuit.Valid() && Grows(old(circuit.Segment()), circuit.Segment())
      invariant IsElement(circuit.Segment(), lhs) && IsElement(circuit.Segment(), firstOfZ) && IsElement(circuit.Segment(), current)
      invariant lhs.value == ProductAt(f, t.Pis, z, i)
      invariant current.value == PolyValue(f, Values(t.Pis[i - 1]), z)
    {
      RecordedStays(old(circuit.Segment()), circuit.Segment(), d, t);
      ElementsStay(old(circuit.Segment()), circuit.Segment(), zPowers);
      current := EvalFactor(circuit, t, i, Some(current), zPowers, z, d);
      lhs := circuit.MulElements(lhs, current);
      NextProduct(f, t, z, i);
    }
  }

  lemma FirstProduct<F(!new)>(circuit: ModuloCircuit<F>, t: Identity<F>, z: F)
    requires circuit.Valid() && t.Pis != []
    ensures ProductAt(circuit.field, t.Pis, z, 1) == PolyValue(circuit.field, Values(t.Pis[0]), z)
  {
    assert ProductAt(circuit.field, t.Pis, z, 0) == circuit.field.one;
    MulOne(circuit.field, PolyValue(circuit.field, Values(t.Pis[0]), z));
  }

  lemma NextProduct<F(!new)>(f: Field<F>, t: Identity<F>, z: F, i: nat)
    requires i < |t.Pis|
    ensures ProductAt(f, t.Pis, z, i + 1) == f.mul(ProductAt(f, t.Pis, z, i), PolyValue(f, Values(t.Pis[i]), z))
  {
  }

  lemma FactorCodes<F(!new)>(segment: map<int, Item<F>>, d: nat, f: Field<F>, t: Identity<F>, k: nat)
    requires IsIdentity(segment, d, t) && k < |t.Pis| && FactorsAreAccurate(f, t)
    ensures 0 < |t.Pis[k]| <= d && IsUsable(segment, t.Pis[k], SparsityAt(t.sparsities, k))
    ensures HasValidCodes(SparsityAt(t.sparsities, k)) && IsAccurate(f, t.Pis[k], SparsityAt(t.sparsities, k))
    ensures SparsityAt(t.sparsities, k) != [] ==> !IsAllZero(SparsityAt(t.sparsities, k))
  {
  }

  /** update_LHS_state: rejects inaccurate factor sparsities; otherwise adds s1 times the
      product of the factors at z, and keeps the value of the first factor. */
  method UpdateLhs<F(==, !new)>(circuit: ModuloCircuit<F>, s1: Element<F>, t: Identity<F>, acc: Accumulator<F>,
      zPowers: seq<Element<F>>, ghost z: F, ghost d: nat)
    returns (res: Result<Accumulator<F>>, firstOfZ: Option<Element<F>>)
    requires circuit.Valid() && IsIdentity(circuit.Segment(), d, t) && d <= |zPowers|
    requires IsElement(circuit.Segment(), s1) && IsAccumulator(circuit.Segment(), acc)
    requires AreElements(circuit.Segment(), zPowers) && ArePowers(circuit.field, z, zPowers)
    modifies circuit`calls, circuit`constants, circuit.valuesSegment`segment, circuit.valuesSegment`stacks,
      circuit.valuesSegment`offset, circuit.valuesSegment`log
    ensures circuit.Valid() && Grows(old(circuit.Segment()), circuit.Segment())
    ensures (res.Ok? <==> FactorsAreAccurate(circuit.field, t)) && (res.Err? ==> res.failure == AssertionError)
    ensures res.Ok? ==> IsAccumulator(circuit.Segment(), res.value) && res.value == acc.(lhs := res.value.lhs)
    ensures res.Ok? ==>
      res.value.lhs.value == circuit.field.add(acc.lhs.value, circuit.field.mul(s1.value, ProductAt(circuit.field, t.Pis, z, |t.Pis|)))
    ensures res.Ok? ==> firstOfZ.Some? && IsElement(circuit.Segment(), firstOfZ.value)
    ensures res.Ok? ==> firstOfZ.value.value == PolyValue(circuit.field, Values(t.Pis[0]), z)
  {
    hide ModuloCircuit.Valid, PolyValue, IsIdentity, ArePowers, ProductAt, IsAccurate;
    assert t.Pis != [] && (t.sparsities == [] || |t.sparsities| == |t.Pis|) by { RecordedShape(circuit.Segment(), d, t); }
    if !FactorsAreAccurate(circuit.field, t) {
      return Err(AssertionError), None;
    }
    var lhs, first := EvalFactors(circuit, t, zPowers, z, d);
    var scaled := circuit.MulElements(s1, lhs);
    var sum := circuit.AddElements(acc.lhs, scaled);
    AccumulatorStays(old(circuit.Segment()), circuit.Segment(), acc);
    return Ok(acc.(lhs := sum)), Some(first);
  }

  lemma RecordedShape<F(!new)>(segment: map<int, Item<F>>, d: nat, t: Identity<F>)
    requires IsIdentity(segment, d, t)
    ensures t.Pis != [] && (t.sparsities == [] || |t.sparsities| == |t.Pis|) && |t.R| == d && IsUsable(segment, t.R, t.rSparsity)
  {
  }

  /** R_acc[i] + s1 * r for one coefficient, by its code (1 when there is no sparsity). */
  method AddCoefficient<F(==, !new)>(circuit: ModuloCircuit<F>, s1: Element<F>, r: Element<F>, code: int, rAcc: Option<Element<F>>)
    returns (sum: Option<Element<F>>)
    requires circuit.Valid() && IsElement(circuit.Segment(), s1) && (code == 1 ==> IsElement(circuit.Segment(), r))
    requires rAcc.Some? ==> IsElement(circuit.Segment(), rAcc.value)
    modifies circuit`calls, circuit`constants, circuit.valuesSegment`segment, circuit.valuesSegment`stacks,
      circuit.valuesSegment`offset, circuit.valuesSegment`log
    ensures circuit.Valid() && Grows(old(circuit.Segment()), circuit.Segment())
    ensures sum.Some? ==> IsElement(circuit.Segment(), sum.value)
    ensures
      var f, c := circuit.field, if code == 1 then r.value else if code == 2 then circuit.field.one else circuit.field.zero;
      ValueOr0(f, sum) == f.add(ValueOr0(f, rAcc), f.mul(s1.value, c))
  {
    hide ModuloCircuit.Valid;
    ValidIsField(circuit);
    MulOne(circuit.field, s1.value);
    MulZero(circuit.field, s1.value);
    AddZero(circuit.field, ValueOr0(circuit.field, rAcc));
    if code == 1 {
      var product := circuit.MulElements(s1, r);
      var res := circuit.Add(rAcc, Some(product));
      return Some(res.value);
    } else if code == 2 {
      var res := circuit.Add(rAcc, Some(s1));
      return Some(res.value);
    }
    return rAcc;
  }

  /** after[i] == before[i] + s1 * coeffs[i], as far as `after` goes. */
  ghost predicate IsCombined<F(!new)>(f: Field<F>, before: seq<Option<Element<F>>>, after: seq<Option<Element<F>>>, s1: F, coeffs: seq<F>) {
    && |after| <= |before| == |coeffs|
    && forall i :: 0 <= i < |after| ==> ValueOr0(f, after[i]) == f.add(ValueOr0(f, before[i]), f.mul(s1, coeffs[i]))
  }

  /** R_acc + s1 * R, coefficient by coefficient. */
  method AddToR<F(==, !new)>(circuit: ModuloCircuit<F>, s1: Element<F>, R: seq<Element<F>>, rSparsity: seq<int>, accR: seq<Option<Element<F>>>)
    returns (newR: seq<Option<Element<F>>>)
    requires circuit.Valid() && IsElement(circuit.Segment(), s1) && IsUsable(circuit.Segment(), R, rSparsity)
    requires |accR| == |R| && AreOptional(circuit.Segment(), accR)
    modifies circuit`calls, circuit`constants, circuit.valuesSegment`segment, circuit.valuesSegment`stacks,
      circuit.valuesSegment`offset, circuit.valuesSegment`log
    ensures circuit.Valid() && Grows(old(circuit.Segment()), circuit.Segment())
    ensures |newR| == |R| && AreOptional(circuit.Segment(), newR)
    ensures IsCombined(circuit.field, accR, newR, s1.value, Encoded(circuit.field, R, rSparsity))
  {
    hide ModuloCircuit.Valid;
    newR := [];
    for i := 0 to |R|
      invariant circuit.Valid() && Grows(old(circuit.Segment()), circuit.Segment())
      invariant |newR| == i && AreOptional(circuit.Segment(), newR)
      invariant IsCombined(circuit.field, accR, newR, s1.value, Encoded(circuit.field, R, rSparsity))
    {
      ghost var segment := circuit.Segment();
      var sum := AddCoefficient(circuit, s1, R[i], if rSparsity == [] then 1 else rSparsity[i], accR[i]);
      OptionalStay(segment, circuit.Segment(), newR);
      newR := newR + [sum];
    }
  }

  lemma OptionalStay<F(!new)>(before: map<int, Item<F>>, after: map<int, Item<F>>, es: seq<Option<Element<F>>>)
    requires AreOptional(before, es) && Grows(before, after)
    ensures AreOptional(after, es)
  {
  }

  lemma CombinedValue<F(!new)>(f: Field<F>, before: seq<Option<Element<F>>>, after: seq<Option<Element<F>>>, s1: F, coeffs: seq<F>, z: F)
    requires f.IsField() && |before| == |after| && IsCombined(f, before, after, s1, coeffs)
    ensures PolyValue(f, Coefficients(f, after), z)
      == f.add(PolyValue(f, Coefficients(f, before), z), f.mul(s1, PolyValue(f, coeffs, z)))
  {
    var sum := Polynomials.Add(f, Coefficients(f, before), Scale(f, coeffs, s1));
    forall i | 0 <= i < |coeffs|
      ensures Coefficients(f, after)[i] == sum[i]
    {
      MulComm(f, s1, coeffs[i]);
    }
    assert Coefficients(f, after) == sum;
    ValueOfSum(f, Coefficients(f, before), Scale(f, coeffs, s1), z);
    ValueOfScaled(f, coeffs, s1, z);
    MulComm(f, s1, PolyValue(f, coeffs, z));
  }

  // ----- which R an identity contributes -----

  /** R is taken from the evaluation of the next identity's first factor when that is the
      same list of elements, except for a torus squaring. */
  predicate ReusesNext<F(==, !new)>(ts: seq<Identity<F>>, i: nat)
    requires i < |ts|
  {
    ts[i].kind != SquareTorus && i + 1 < |ts| && ts[i + 1].Pis != [] && ts[i + 1].Pis[0] == ts[i].R
  }

  /** The R an identity contributes: the elements themselves when reused, otherwise what the
      sparsity encodes. */
  function EffectiveR<F(==, !new)>(f: Field<F>, ts: seq<Identity<F>>, i: nat): seq<F>
    requires i < |ts| && (ts[i].rSparsity == [] || |ts[i].rSparsity| == |ts[i].R|)
  {
    if ReusesNext(ts, i) then Values(ts[i].R) else Encoded(f, ts[i].R, ts[i].rSparsity)
  }

  /** The check made on R: zeros where the sparsity says zero. */
  predicate RPassesCheck<F(==, !new)>(f: Field<F>, t: Identity<F>)
    requires t.rSparsity == [] || |t.rSparsity| == |t.R|
  {
    t.kind != SquareTorus && t.rSparsity != [] ==> forall i :: 0 <= i < |t.R| && t.rSparsity[i] == 0 ==> t.R[i].value == f.zero
  }

  /** It passes exactly when the encoding keeps every coefficient that is not marked as a one. */
  lemma RCheckIsExact<F(!new)>(f: Field<F>, t: Identity<F>)
    requires HasValidCodes(t.rSparsity) && (t.rSparsity == [] || |t.rSparsity| == |t.R|)
    ensures t.kind == SquareTorus || t.rSparsity == [] ==> RPassesCheck(f, t)
    ensures t.kind != SquareTorus && t.rSparsity != [] ==>
      (RPassesCheck(f, t) <==>
        forall i :: 0 <= i < |t.R| && t.rSparsity[i] != 2 ==> Encoded(f, t.R, t.rSparsity)[i] == t.R[i].value)
  {
    if t.rSparsity != [] {
      forall i | 0 <= i < |t.R| && t.rSparsity[i] != 2
        ensures Encoded(f, t.R, t.rSparsity)[i] == if t.rSparsity[i] == 0 then f.zero else t.R[i].value
      {
        assert t.rSparsity[i] in t.rSparsity;
      }
    }
  }

  /** update_RHS_state: adds s1 times the R of identity i, either to the accumulated
      polynomial or, when the next identity has already evaluated it, to the accumulated value. */
  method UpdateRhs<F(==, !new)>(circuit: ModuloCircuit<F>, s1: Element<F>, ts: seq<Identity<F>>, i: nat, firstsOfZ: seq<Element<F>>,
      acc: Accumulator<F>, ghost z: F, ghost d: nat)
    returns (res: Result<Accumulator<F>>)
    requires circuit.Valid() && i < |ts| == |firstsOfZ| && IsIdentity(circuit.Segment(), d, ts[i]) && |acc.R| == d
    requires IsElement(circuit.Segment(), s1) && IsAccumulator(circuit.Segment(), acc) && AreElements(circuit.Segment(), firstsOfZ)
    requires i + 1 < |ts| ==> ts[i + 1].Pis != [] && firstsOfZ[i + 1].value == PolyValue(circuit.field, Values(ts[i + 1].Pis[0]), z)
    modifies circuit`calls, circuit`constants, circuit.valuesSegment`segment, circuit.valuesSegment`stacks,
      circuit.valuesSegment`offset, circuit.valuesSegment`log
    ensures circuit.Valid() && Grows(old(circuit.Segment()), circuit.Segment())
    ensures res.Ok? <==> ReusesNext(ts, i) || RPassesCheck(circuit.field, ts[i])
    ensures res.Err? ==> res.failure == AssertionError
    ensures res.Ok? ==> IsAccumulator(circuit.Segment(), res.value) && |res.value.R| == d && res.value.lhs == acc.lhs
    ensures ts[i].kind != SquareTorus && i + 1 < |ts| && ts[i + 1].Pis[0] == ts[i].R ==>
      && res.Ok? && res.value.R == acc.R
      && res.value.REvaluated.value == circuit.field.add(acc.REvaluated.value, circuit.field.mul(s1.value, firstsOfZ[i + 1].value))
    ensures !(ts[i].kind != SquareTorus && i + 1 < |ts| && ts[i + 1].Pis[0] == ts[i].R) && res.Ok? ==>
      res.value.REvaluated == acc.REvaluated
    ensures res.Ok? ==>
      RightValue(circuit.field, res.value, z) == circuit.field.add(RightValue(circuit.field, acc, z), circuit.field.mul(s1.value, PolyValue(circuit.field, EffectiveR(circuit.field, ts, i), z)))
  {
    hide ModuloCircuit.Valid, PolyValue, IsIdentity, Encoded, IsUsable, Coefficients;
    var f := circuit.field;
    ValidIsField(circuit);
    RecordedShape(circuit.Segment(), d, ts[i]);
    UsableLength(circuit.Segment(), ts[i].R, ts[i].rSparsity);
    if ReusesNext(ts, i) {
      var product := circuit.MulElements(s1, firstsOfZ[i + 1]);
      var sum := circuit.AddElements(acc.REvaluated, product);
      AccumulatorStays(old(circuit.Segment()), circuit.Segment(), acc);
      AddAssoc(f, PolyValue(f, Coefficients(f, acc.R), z), acc.REvaluated.value, product.value);
      return Ok(acc.(REvaluated := sum));
    }
    if !RPassesCheck(f, ts[i]) {
      return Err(AssertionError);
    }
    ghost var coeffs := Encoded(f, ts[i].R, ts[i].rSparsity);
    var newR := AddToR(circuit, s1, ts[i].R, ts[i].rSparsity, acc.R);
    EncodedLength(f, ts[i].R, ts[i].rSparsity);
    CombinedValue(f, acc.R, newR, s1.value, coeffs, z);
    AccumulatorStays(old(circuit.Segment()), circuit.Segment(), acc);
    MiddleLast(f, PolyValue(f, Coefficients(f, acc.R), z), f.mul(s1.value, PolyValue(f, coeffs, z)), acc.REvaluated.value);
    return Ok(acc.(R := newR));
  }

  lemma UsableLength<F(!new)>(segment: map<int, Item<F>>, X: seq<Element<F>>, sparsity: seq<int>)
    requires IsUsable(segment, X, sparsity)
    ensures sparsity == [] || |sparsity| == |X|
  {
  }

  lemma EncodedLength<F(!new)>(f: Field<F>, X: seq<Element<F>>, sparsity: seq<int>)
    requires sparsity == [] || |sparsity| == |X|
    ensures |Encoded(f, X, sparsity)| == |X|
  {
  }

  lemma MiddleLast<F(!new)>(f: Field<F>, a: F, b: F, c: F)
    requires f.IsField()
    ensures f.add(f.add(a, b), c) == f.add(f.add(a, c), b)
  {
    AddAssoc(f, a, b, c);
    AddComm(f, b, c);
    AddAssoc(f, a, c, b);
  }

  // ----- the random linear combination -----

  /** The sum of c_i * P_i1(z) ... P_in(z) over the first n identities. */
  function LeftSum<F(!new)>(f: Field<F>, ts: seq<Identity<F>>, cs: seq<F>, z: F, n: nat): F
    requires n <= |ts| && n <= |cs|
  {
    if n == 0 then f.zero
    else f.add(LeftSum(f, ts, cs, z, n - 1), f.mul(cs[n - 1], ProductAt(f, ts[n - 1].Pis, z, |ts[n - 1].Pis|)))
  }

  /** The sum of c_i * R_i(z) over the first n identities. */
  function RightSum<F(==, !new)>(f: Field<F>, ts: seq<Identity<F>>, cs: seq<F>, z: F, n: nat): F
    requires n <= |ts| && n <= |cs|
    requires forall i :: 0 <= i < |ts| ==> ts[i].rSparsity == [] || |ts[i].rSparsity| == |ts[i].R|
  {
    if n == 0 then f.zero
    else f.add(RightSum(f, ts, cs, z, n - 1), f.mul(cs[n - 1], PolyValue(f, EffectiveR(f, ts, n - 1), z)))
  }

  /** The sum of c_i * Q_i(z) over the first n identities. */
  function QuotientSum<F(!new)>(f: Field<F>, ts: seq<Identity<F>>, cs: seq<F>, z: F, n: nat): F
    requires n <= |ts| && n <= |cs|
  {
    if n == 0 then f.zero
    else f.add(QuotientSum(f, ts, cs, z, n - 1), f.mul(cs[n - 1], PolyValue(f, ts[n - 1].Q, z)))
  }

  ghost predicate HaveShape<F(!new)>(ts: seq<Identity<F>>) {
    forall i :: 0 <= i < |ts| ==> ts[i].rSparsity == [] || |ts[i].rSparsity| == |ts[i].R|
  }

  /** Identity i as it enters the combination, at one point. */
  ghost predicate HoldsAt<F(!new)>(f: Field<F>, ts: seq<Identity<F>>, i: nat, irreducible: F, z: F)
    requires i < |ts| && HaveShape(ts)
  {
    ProductAt(f, ts[i].Pis, z, |ts[i].Pis|)
      == f.add(f.mul(PolyValue(f, ts[i].Q, z), irreducible), PolyValue(f, EffectiveR(f, ts, i), z))
  }

  /** When every identity holds at z, so does every linear combination of them. */
  lemma {:induction false} CombinationHolds<F(!new)>(f: Field<F>, ts: seq<Identity<F>>, cs: seq<F>, irreducible: F, z: F, n: nat)
    requires f.IsField() && HaveShape(ts) && n <= |ts| && n <= |cs|
    requires forall i: nat :: i < n ==> HoldsAt(f, ts, i, irreducible, z)
    ensures LeftSum(f, ts, cs, z, n) == f.add(f.mul(QuotientSum(f, ts, cs, z, n), irreducible), RightSum(f, ts, cs, z, n))
  {
    if n == 0 {
      MulZero(f, irreducible);
      AddZero(f, f.zero);
    } else {
      CombinationHolds(f, ts, cs, irreducible, z, n - 1);
      assert HoldsAt(f, ts, n - 1, irreducible, z);
      CombineOne(f, QuotientSum(f, ts, cs, z, n - 1), RightSum(f, ts, cs, z, n - 1), cs[n - 1],
        PolyValue(f, ts[n - 1].Q, z), irreducible, PolyValue(f, EffectiveR(f, ts, n - 1), z));
    }
  }

  lemma CombineOne<F(!new)>(f: Field<F>, q: F, r: F, c: F, qi: F, p: F, ri: F)
    requires f.IsField()
    ensures f.add(f.add(f.mul(q, p), r), f.mul(c, f.add(f.mul(qi, p), ri)))
      == f.add(f.mul(f.add(q, f.mul(c, qi)), p), f.add(r, f.mul(c, ri)))
  {
    Distrib(f, c, f.mul(qi, p), ri);
    MulAssoc(f, c, qi, p);
    Distrib(f, p, q, f.mul(c, qi));
    AddInterchange(f, f.mul(q, p), r, f.mul(c, f.mul(qi, p)), f.mul(c, ri));
  }

  /** base, base^2, ..., base^n as circuit elements: the combination coefficients from c0 and
      the powers of z (create_powers_of_Z) are made this way. */
  method CreatePowers<F(==, !new)>(circuit: ModuloCircuit<F>, base: Element<F>, n: nat) returns (powers: seq<Element<F>>)
    requires circuit.Valid() && IsElement(circuit.Segment(), base) && n > 0
    modifies circuit`calls, circuit.valuesSegment`segment, circuit.valuesSegment`stacks,
      circuit.valuesSegment`offset, circuit.valuesSegment`log
    ensures circuit.Valid() && Grows(old(circuit.Segment()), circuit.Segment())
    ensures |powers| == n && AreElements(circuit.Segment(), powers)
    ensures forall i :: 0 <= i < n ==> powers[i].value == Power(circuit.field, base.value, i + 1)
  {
    hide ModuloCircuit.Valid;
    ValidIsField(circuit);
    powers := [base];
    MulOne(circuit.field, base.value);
    assert Power(circuit.field, base.value, 1) == circuit.field.mul(Power(circuit.field, base.value, 0), base.value);
    for i := 1 to n
      invariant circuit.Valid() && Grows(old(circuit.Segment()), circuit.Segment())
      invariant |powers| == i && AreElements(circuit.Segment(), powers) && IsElement(circuit.Segment(), base)
      invariant forall k :: 0 <= k < i ==> powers[k].value == Power(circuit.field, base.value, k + 1)
    {
      ghost var segment := circuit.Segment();
      var next := circuit.MulElements(powers[i - 1], base);
      ElementsStay(segment, circuit.Segment(), powers);
      powers := powers + [next];
    }
  }

  /** The coefficient of x^i in the sum of c_k * Q_k over the first n identities. */
  ghost function QuotientCoef<F(!new)>(f: Field<F>, ts: seq<Identity<F>>, cs: seq<F>, i: int, n: nat): F
    requires n <= |ts| == |cs|
  {
    if n == 0 then f.zero else f.add(QuotientCoef(f, ts, cs, i, n - 1), f.mul(Coef(f, ts[n - 1].Q, i), cs[n - 1]))
  }

  ghost predicate IsCombination<F(!new)>(f: Field<F>, q: seq<F>, ts: seq<Identity<F>>, cs: seq<F>, n: nat)
    requires n <= |ts| == |cs|
  {
    forall i :: Coef(f, q, i) == QuotientCoef(f, ts, cs, i, n)
  }

  lemma FirstQuotient<F(!new)>(f: Field<F>, ts: seq<Identity<F>>, cs: seq<F>)
    requires f.IsField() && 0 < |ts| == |cs|
    ensures IsCombination(f, Scale(f, ts[0].Q, cs[0]), ts, cs, 1)
  {
    hide Field.IsField, Coef, Scale;
    forall i
      ensures Coef(f, Scale(f, ts[0].Q, cs[0]), i) == QuotientCoef(f, ts, cs, i, 1)
    {
      CoefScale(f, ts[0].Q, cs[0], i);
      AddZero(f, f.mul(Coef(f, ts[0].Q, i), cs[0]));
      assert QuotientCoef(f, ts, cs, i, 0) == f.zero;
    }
  }

  lemma NextQuotient<F(!new)>(f: Field<F>, q: seq<F>, ts: seq<Identity<F>>, cs: seq<F>, n: nat)
    requires f.IsField() && n < |ts| == |cs| && IsCombination(f, q, ts, cs, n)
    ensures IsCombination(f, Polynomials.Add(f, q, Scale(f, ts[n].Q, cs[n])), ts, cs, n + 1)
  {
    hide Field.IsField, Coef, Scale, Polynomials.Add;
    forall i
      ensures Coef(f, Polynomials.Add(f, q, Scale(f, ts[n].Q, cs[n])), i) == QuotientCoef(f, ts, cs, i, n + 1)
    {
      CoefScale(f, ts[n].Q, cs[n], i);
      CoefAdd(f, q, Scale(f, ts[n].Q, cs[n]), i);
    }
  }

  lemma SameCombination<F(!new)>(f: Field<F>, q: seq<F>, r: seq<F>, ts: seq<Identity<F>>, cs: seq<F>)
    requires |ts| == |cs| && IsCombination(f, q, ts, cs, |ts|) && Same(f, r, q)
    ensures IsCombination(f, r, ts, cs, |ts|)
  {
    hide QuotientCoef;
  }

  lemma PaddedCombination<F(!new)>(f: Field<F>, q: seq<F>, ts: seq<Identity<F>>, cs: seq<F>, k: nat)
    requires |ts| == |cs| && IsCombination(f, q, ts, cs, |ts|)
    ensures IsCombination(f, q + seq(k, _ => f.zero), ts, cs, |ts|)
  {
    hide QuotientCoef;
    forall i
      ensures Coef(f, q + seq(k, _ => f.zero), i) == Coef(f, q, i)
    {
    }
  }

  /** Q = sum of c_i * Q_i as a polynomial, trimmed. */
  method CombineQuotients<F(==, !new)>(f: Field<F>, ts: seq<Identity<F>>, cs: seq<F>, ghost z: F) returns (q: seq<F>)
    requires f.IsField() && 0 < |ts| == |cs|
    ensures PolyValue(f, q, z) == QuotientSum(f, ts, cs, z, |ts|) && q != []
    ensures IsCombination(f, q, ts, cs, |ts|) && PolynomialAlgorithms.IsTrimmed(f, q)
  {
    hide PolyValue, IsCombination;
    FirstQuotient(f, ts, cs);
    q := Scale(f, ts[0].Q, cs[0]);
    ValueOfScaled(f, ts[0].Q, cs[0], z);
    MulComm(f, cs[0], PolyValue(f, ts[0].Q, z));
    AddZero(f, f.mul(cs[0], PolyValue(f, ts[0].Q, z)));
    assert QuotientSum(f, ts, cs, z, 0) == f.zero;
    for i := 1 to |ts|
      invariant PolyValue(f, q, z) == QuotientSum(f, ts, cs, z, i) && IsCombination(f, q, ts, cs, i)
    {
      NextQuotient(f, q, ts, cs, i);
      var scaled := Scale(f, ts[i].Q, cs[i]);
      ValueOfSum(f, q, scaled, z);
      ValueOfScaled(f, ts[i].Q, cs[i], z);
      MulComm(f, cs[i], PolyValue(f, ts[i].Q, z));
      q := Polynomials.Add(f, q, scaled);
    }
    ghost var sum := q;
    q := PolynomialAlgorithms.Trim(f, q);
    ValueIsCongruent(f, q, sum, z);
    SameCombination(f, sum, q, ts, cs);
  }

  lemma PaddingKeepsValue<F(!new)>(f: Field<F>, q: seq<F>, n: nat, z: F)
    requires f.IsField()
    ensures PolyValue(f, q + seq(n, _ => f.zero), z) == PolyValue(f, q, z)
  {
    var padded := q + seq(n, _ => f.zero);
    forall i
      ensures Coef(f, padded, i) == Coef(f, q, i)
    {
    }
    ValueIsCongruent(f, padded, q, z);
  }

  method WriteElements<F(==, !new)>(circuit: ModuloCircuit<F>, values: seq<F>, source: WriteSource) returns (es: seq<Element<F>>)
    requires circuit.Valid() && source != BUILTIN
    modifies circuit`calls, circuit.valuesSegment`segment, circuit.valuesSegment`stacks,
      circuit.valuesSegment`offset, circuit.valuesSegment`log
    ensures circuit.Valid() && Grows(old(circuit.Segment()), circuit.Segment())
    ensures Values(es) == values && AreElements(circuit.Segment(), es)
  {
    hide ModuloCircuit.Valid;
    es := [];
    for i := 0 to |values|
      invariant circuit.Valid() && Grows(old(circuit.Segment()), circuit.Segment())
      invariant |es| == i && AreElements(circuit.Segment(), es) && forall k :: 0 <= k < i ==> es[k].value == values[k]
    {
      ghost var segment := circuit.Segment();
      var e := circuit.WriteElement(values[i], source, None, Supplied);
      ElementsStay(segment, circuit.Segment(), es);
      es := es + [e];
    }
  }

  // ----- the check of one list of identities -----

  ghost predicate AreRecorded<F(!new)>(segment: map<int, Item<F>>, d: nat, ts: seq<Identity<F>>) {
    forall i :: 0 <= i < |ts| ==> IsIdentity(segment, d, ts[i])
  }

  lemma AllStay<F(!new)>(before: map<int, Item<F>>, after: map<int, Item<F>>, d: nat, ts: seq<Identity<F>>)
    requires AreRecorded(before, d, ts) && Grows(before, after)
    ensures AreRecorded(after, d, ts)
  {
    hide IsIdentity, Grows;
    forall i | 0 <= i < |ts|
      ensures IsIdentity(after, d, ts[i])
    {
      RecordedStays(before, after, d, ts[i]);
    }
  }

  lemma RecordedHaveShape<F(!new)>(segment: map<int, Item<F>>, d: nat, ts: seq<Identity<F>>)
    requires AreRecorded(segment, d, ts)
    ensures HaveShape(ts)
    ensures forall i :: 0 <= i < |ts| ==> ts[i].Pis != [] && (ts[i].sparsities == [] || |ts[i].sparsities| == |ts[i].Pis|)
  {
    forall i | 0 <= i < |ts|
      ensures ts[i].rSparsity == [] || |ts[i].rSparsity| == |ts[i].R|
      ensures ts[i].Pis != [] && (ts[i].sparsities == [] || |ts[i].sparsities| == |ts[i].Pis|)
    {
      RecordedShape(segment, d, ts[i]);
      UsableLength(segment, ts[i].R, ts[i].rSparsity);
    }
  }

  ghost predicate FactorsAreShaped<F(!new)>(ts: seq<Identity<F>>) {
    forall i :: 0 <= i < |ts| ==> ts[i].Pis != [] && (ts[i].sparsities == [] || |ts[i].sparsities| == |ts[i].Pis|)
  }

  /** The checks finalization makes on the values of the first n identities' sparsities. */
  ghost predicate AllFactorsAccurate<F(!new)>(f: Field<F>, ts: seq<Identity<F>>, n: nat)
    requires n <= |ts| && FactorsAreShaped(ts)
  {
    forall i :: 0 <= i < n ==> FactorsAreAccurate(f, ts[i])
  }

  ghost predicate AllRPass<F(!new)>(f: Field<F>, ts: seq<Identity<F>>, n: nat)
    requires n <= |ts| && HaveShape(ts)
  {
    forall i :: 0 <= i < n ==> ReusesNext(ts, i) || RPassesCheck(f, ts[i])
  }

  lemma MoreElements<F(!new)>(before: map<int, Item<F>>, after: map<int, Item<F>>, es: seq<Element<F>>, e: Element<F>)
    requires AreElements(before, es) && Grows(before, after) && IsElement(after, e)
    ensures AreElements(after, es + [e])
  {
  }

  lemma NoElements<F(!new)>(segment: map<int, Item<F>>)
    ensures AreElements(segment, [])
  {
  }

  lemma ElementAt<F(!new)>(segment: map<int, Item<F>>, es: seq<Element<F>>, i: nat)
    requires AreElements(segment, es) && i < |es|
    ensures IsElement(segment, es[i])
  {
  }

  lemma RecordedAt<F(!new)>(segment: map<int, Item<F>>, d: nat, ts: seq<Identity<F>>, i: nat)
    requires AreRecorded(segment, d, ts) && i < |ts|
    ensures IsIdentity(segment, d, ts[i])
  {
  }

  lemma NothingLeft<F(!new)>(f: Field<F>, ts: seq<Identity<F>>, cs: seq<F>, z: F)
    requires FactorsAreShaped(ts)
    ensures LeftSum(f, ts, cs, z, 0) == f.zero && AllFactorsAccurate(f, ts, 0)
  {
  }

  lemma NextLeft<F(!new)>(f: Field<F>, ts: seq<Identity<F>>, cs: seq<F>, z: F, i: nat)
    requires FactorsAreShaped(ts) && i < |ts| && i < |cs|
    ensures LeftSum(f, ts, cs, z, i + 1) == f.add(LeftSum(f, ts, cs, z, i), f.mul(cs[i], ProductAt(f, ts[i].Pis, z, |ts[i].Pis|)))
    ensures AllFactorsAccurate(f, ts, i + 1) <==> AllFactorsAccurate(f, ts, i) && FactorsAreAccurate(f, ts[i])
    ensures AllFactorsAccurate(f, ts, |ts|) ==> FactorsAreAccurate(f, ts[i])
  {
  }

  method SumLeft<F(==, !new)>(circuit: ModuloCircuit<F>, ts: seq<Identity<F>>, cs: seq<Element<F>>, start: Accumulator<F>,
      zPowers: seq<Element<F>>, ghost z: F, ghost d: nat)
    returns (res: Result<Accumulator<F>>, firsts: seq<Element<F>>)
    requires circuit.Valid() && AreRecorded(circuit.Segment(), d, ts) && FactorsAreShaped(ts) && |cs| == |ts| && d <= |zPowers|
    requires AreElements(circuit.Segment(), cs) && IsAccumulator(circuit.Segment(), start) && start.lhs.value == circuit.field.zero
    requires AreElements(circuit.Segment(), zPowers) && ArePowers(circuit.field, z, zPowers)
    modifies circuit`calls, circuit`constants, circuit.valuesSegment`segment, circuit.valuesSegment`stacks,
      circuit.valuesSegment`offset, circuit.valuesSegment`log
    ensures circuit.Valid() && Grows(old(circuit.Segment()), circuit.Segment())
    ensures (res.Ok? <==> AllFactorsAccurate(circuit.field, ts, |ts|)) && (res.Err? ==> res.failure == AssertionError)
    ensures res.Ok? ==> IsAccumulator(circuit.Segment(), res.value) && res.value == start.(lhs := res.value.lhs)
    ensures res.Ok? ==> res.value.lhs.value == LeftSum(circuit.field, ts, Values(cs), z, |ts|)
    ensures res.Ok? ==> |firsts| == |ts| && AreElements(circuit.Segment(), firsts)
    ensures res.Ok? ==> forall i :: 0 <= i < |ts| ==> firsts[i].value == PolyValue(circuit.field, Values(ts[i].Pis[0]), z)
  {
    hide ModuloCircuit.Valid, PolyValue, IsIdentity, ArePowers, IsAccumulator, FactorsAreAccurate, AreElements, AreRecorded, IsElement, LeftSum, AllFactorsAccurate, ProductAt;
    var acc := start;
    firsts := [];
    NoElements(circuit.Segment());
    NothingLeft(circuit.field, ts, Values(cs), z);
    for i := 0 to |ts|
      invariant circuit.Valid() && Grows(old(circuit.Segment()), circuit.Segment())
      invariant IsAccumulator(circuit.Segment(), acc) && acc == start.(lhs := acc.lhs)
      invariant acc.lhs.value == LeftSum(circuit.field, ts, Values(cs), z, i)
      invariant |firsts| == i && AreElements(circuit.Segment(), firsts)
      invariant forall k :: 0 <= k < i ==> firsts[k].value == PolyValue(circuit.field, Values(ts[k].Pis[0]), z)
      invariant AllFactorsAccurate(circuit.field, ts, i)
    {
      ghost var segment := circuit.Segment();
      AllStay(old(circuit.Segment()), segment, d, ts);
      ElementsStay(old(circuit.Segment()), segment, zPowers);
      ElementsStay(old(circuit.Segment()), segment, cs);
      ElementAt(segment, cs, i);
      RecordedAt(segment, d, ts, i);
      NextLeft(circuit.field, ts, Values(cs), z, i);
      var updated, first := UpdateLhs(circuit, cs[i], ts[i], acc, zPowers, z, d);
      if updated.Err? {
        return Err(AssertionError), [];
      }
      MoreElements(segment, circuit.Segment(), firsts, first.value);
      acc := updated.value;
      firsts := firsts + [first.value];
    }
    return Ok(acc), firsts;
  }

  method SumRight<F(==, !new)>(circuit: ModuloCircuit<F>, ts: seq<Identity<F>>, cs: seq<Element<F>>, start: Accumulator<F>,
      firsts: seq<Element<F>>, ghost z: F, ghost d: nat)
    returns (res: Result<Accumulator<F>>)
    requires circuit.Valid() && AreRecorded(circuit.Segment(), d, ts) && HaveShape(ts) && FactorsAreShaped(ts)
    requires |cs| == |ts| == |firsts| && AreElements(circuit.Segment(), cs) && AreElements(circuit.Segment(), firsts)
    requires forall i :: 0 <= i < |ts| ==> firsts[i].value == PolyValue(circuit.field, Values(ts[i].Pis[0]), z)
    requires IsAccumulator(circuit.Segment(), start) && |start.R| == d && RightValue(circuit.field, start, z) == circuit.field.zero
    modifies circuit`calls, circuit`constants, circuit.valuesSegment`segment, circuit.valuesSegment`stacks,
      circuit.valuesSegment`offset, circuit.valuesSegment`log
    ensures circuit.Valid() && Grows(old(circuit.Segment()), circuit.Segment())
    ensures (res.Ok? <==> AllRPass(circuit.field, ts, |ts|)) && (res.Err? ==> res.failure == AssertionError)
    ensures res.Ok? ==> IsAccumulator(circuit.Segment(), res.value) && |res.value.R| == d && res.value.lhs == start.lhs
    ensures res.Ok? ==> RightValue(circuit.field, res.value, z) == RightSum(circuit.field, ts, Values(cs), z, |ts|)
  {
    hide ModuloCircuit.Valid, PolyValue, IsIdentity, IsAccumulator, RightValue, EffectiveR, ReusesNext, RPassesCheck;
    var acc := start;
    for i := 0 to |ts|
      invariant circuit.Valid() && Grows(old(circuit.Segment()), circuit.Segment())
      invariant IsAccumulator(circuit.Segment(), acc) && |acc.R| == d && acc.lhs == start.lhs
      invariant RightValue(circuit.field, acc, z) == RightSum(circuit.field, ts, Values(cs), z, i)
      invariant AllRPass(circuit.field, ts, i)
    {
      AllStay(old(circuit.Segment()), circuit.Segment(), d, ts);
      ElementsStay(old(circuit.Segment()), circuit.Segment(), cs);
      ElementsStay(old(circuit.Segment()), circuit.Segment(), firsts);
      var updated := UpdateRhs(circuit, cs[i], ts, i, firsts, acc, z, d);
      if updated.Err? {
        return Err(AssertionError);
      }
      acc := updated.value;
    }
    return Ok(acc);
  }

  /** write_sparse_constant_elements: only coefficients other than 0 and 1 are written. */
  method WriteSparseConstants<F(==, !new)>(circuit: ModuloCircuit<F>, coeffs: seq<F>) returns (es: seq<Element<F>>, sparsity: seq<int>)
    requires circuit.Valid()
    modifies circuit`calls, circuit`constants, circuit.valuesSegment`segment, circuit.valuesSegment`stacks,
      circuit.valuesSegment`offset, circuit.valuesSegment`log
    ensures circuit.Valid() && Grows(old(circuit.Segment()), circuit.Segment())
    ensures |es| == |sparsity| == |coeffs| && IsUsable(circuit.Segment(), es, sparsity) && HasValidCodes(sparsity)
    ensures coeffs != [] ==> Encoded(circuit.field, es, sparsity) == coeffs
    ensures forall i :: 0 <= i < |coeffs| ==> (sparsity[i] == 0 <==> coeffs[i] == circuit.field.zero)
    ensures forall i :: 0 <= i < |coeffs| ==> (sparsity[i] == 2 <==> coeffs[i] == circuit.field.one)
    ensures forall i :: 0 <= i < |coeffs| && sparsity[i] != 1 ==> es[i] == Element(coeffs[i], -1)
  {
    hide ModuloCircuit.Valid;
    PolynomialAlgorithms.OneIsNotZero(circuit.field) by { ValidIsField(circuit); }
    es, sparsity := [], [];
    for i := 0 to |coeffs|
      invariant circuit.Valid() && Grows(old(circuit.Segment()), circuit.Segment())
      invariant |es| == |sparsity| == i && HasValidCodes(sparsity)
      invariant forall k :: 0 <= k < i ==> (sparsity[k] == 0 <==> coeffs[k] == circuit.field.zero)
      invariant forall k :: 0 <= k < i && sparsity[k] == 1 ==> IsElement(circuit.Segment(), es[k]) && es[k].value == coeffs[k]
      invariant forall k :: 0 <= k < i ==> (sparsity[k] == 2 <==> coeffs[k] == circuit.field.one)
      invariant forall k :: 0 <= k < i && sparsity[k] != 1 ==> es[k] == Element(coeffs[k], -1)
    {
      if coeffs[i] == circuit.field.one {
        es, sparsity := es + [Element(circuit.field.one, -1)], sparsity + [2];
      } else if coeffs[i] == circuit.field.zero {
        es, sparsity := es + [Element(circuit.field.zero, -1)], sparsity + [0];
      } else {
        var e := circuit.SetOrGetConstant(coeffs[i]);
        es, sparsity := es + [e], sparsity + [1];
      }
    }
  }

  /** A nonzero polynomial whose last coefficient does not vanish, of d + 1 coefficients. */
  predicate HasDegree<F(==, !new)>(f: Field<F>, p: seq<F>, d: nat) {
    |p| == d + 1 && p[d] != f.zero
  }

  /** The value at z of a constant polynomial written sparsely. */
  method EvalConstant<F(==, !new)>(circuit: ModuloCircuit<F>, coeffs: seq<F>, zPowers: seq<Element<F>>, ghost z: F, ghost d: nat)
    returns (r: Element<F>)
    requires circuit.Valid() && HasDegree(circuit.field, coeffs, d) && d <= |zPowers|
    requires AreElements(circuit.Segment(), zPowers) && ArePowers(circuit.field, z, zPowers)
    modifies circuit`calls, circuit`constants, circuit.valuesSegment`segment, circuit.valuesSegment`stacks,
      circuit.valuesSegment`offset, circuit.valuesSegment`log
    ensures circuit.Valid() && Grows(old(circuit.Segment()), circuit.Segment()) && IsElement(circuit.Segment(), r)
    ensures r.value == PolyValue(circuit.field, coeffs, z)
  {
    hide ModuloCircuit.Valid, PolyValue, IsUsable, Encoded, HasValidCodes;
    var es, sparsity := WriteSparseConstants(circuit, coeffs);
    ElementsStay(old(circuit.Segment()), circuit.Segment(), zPowers);
    assert sparsity[d] != 0;
    r := EvalInZ(circuit, es, sparsity, zPowers, z);
  }

  /** The right-hand side Q(z) * P_irr(z) + (R(z) + R_evaluated). */
  method EvalRight<F(==, !new)>(circuit: ModuloCircuit<F>, Q: seq<Element<F>>, irreducible: seq<F>, acc: Accumulator<F>,
      zPowers: seq<Element<F>>, ghost z: F, ghost d: nat)
    returns (rhs: Element<F>)
    requires circuit.Valid() && HasDegree(circuit.field, irreducible, d) && 0 < d <= |zPowers|
    requires AreElements(circuit.Segment(), Q) && 0 < |Q| <= |zPowers| + 1
    requires IsAccumulator(circuit.Segment(), acc) && |acc.R| == d
    requires AreElements(circuit.Segment(), zPowers) && ArePowers(circuit.field, z, zPowers)
    modifies circuit`calls, circuit`constants, circuit.valuesSegment`segment, circuit.valuesSegment`stacks,
      circuit.valuesSegment`offset, circuit.valuesSegment`log
    ensures circuit.Valid() && Grows(old(circuit.Segment()), circuit.Segment()) && IsElement(circuit.Segment(), rhs)
    ensures rhs.value == circuit.field.add(
      circuit.field.mul(PolyValue(circuit.field, Values(Q), z), PolyValue(circuit.field, irreducible, z)),
      RightValue(circuit.field, acc, z))
  {
    hide ModuloCircuit.Valid, PolyValue, Coefficients, Power;
    var qOfZ := EvalInZ(circuit, Q, [], zPowers, z);
    var pOfZ := EvalConstant(circuit, irreducible, zPowers, z, d);
    AccumulatorStays(old(circuit.Segment()), circuit.Segment(), acc);
    ElementsStay(old(circuit.Segment()), circuit.Segment(), zPowers);
    var rOfZ := circuit.EvalPoly(acc.R, zPowers, z);
    var product := circuit.MulElements(qOfZ, pOfZ);
    var rest := circuit.Add(rOfZ.value, Some(acc.REvaluated));
    rhs := circuit.AddElements(product, rest.value);
  }

  /** The combined check of one list of identities: factor and R sparsities must be accurate,
      and the combination must balance at z. */
  ghost predicate Balances<F(!new)>(f: Field<F>, ts: seq<Identity<F>>, cs: seq<F>, irreducible: seq<F>, z: F)
    requires |cs| == |ts| && HaveShape(ts) && FactorsAreShaped(ts)
  {
    && AllFactorsAccurate(f, ts, |ts|) && AllRPass(f, ts, |ts|)
    && LeftSum(f, ts, cs, z, |ts|)
      == f.add(f.mul(QuotientSum(f, ts, cs, z, |ts|), PolyValue(f, irreducible, z)), RightSum(f, ts, cs, z, |ts|))
  }

  /** The part of finalize_circuit for one accumulator: it succeeds exactly when the
      combination balances, and then leaves an assertion that holds. */
  method CheckIdentities<F(==, !new)>(circuit: ModuloCircuit<F>, ts: seq<Identity<F>>, cs: seq<Element<F>>, Q: seq<Element<F>>,
      irreducible: seq<F>, start: Accumulator<F>, zPowers: seq<Element<F>>, ghost z: F, ghost d: nat)
    returns (res: Result<bool>)
    requires circuit.Valid() && circuit.compilationMode == CairoZero
    requires AreRecorded(circuit.Segment(), d, ts) && HaveShape(ts) && FactorsAreShaped(ts) && |cs| == |ts|
    requires AreElements(circuit.Segment(), cs) && AreElements(circuit.Segment(), Q) && 0 < |Q| <= |zPowers| + 1
    requires PolyValue(circuit.field, Values(Q), z) == QuotientSum(circuit.field, ts, Values(cs), z, |ts|)
    requires HasDegree(circuit.field, irreducible, d) && 0 < d <= |zPowers|
    requires IsAccumulator(circuit.Segment(), start) && |start.R| == d && start.lhs.value == circuit.field.zero
    requires RightValue(circuit.field, start, z) == circuit.field.zero
    requires AreElements(circuit.Segment(), zPowers) && ArePowers(circuit.field, z, zPowers)
    modifies circuit`calls, circuit`constants, circuit.valuesSegment`segment, circuit.valuesSegment`stacks,
      circuit.valuesSegment`offset, circuit.valuesSegment`log, circuit.valuesSegment`assertEqInstructions
    ensures circuit.Valid() && Grows(old(circuit.Segment()), circuit.Segment())
    ensures res.Ok? <==> Balances(circuit.field, ts, Values(cs), irreducible, z)
    ensures res.Err? ==> res.failure == AssertionError
    ensures res.Ok? ==> res.value
    ensures res.Ok? ==>
      var before, after := old(circuit.valuesSegment.assertEqInstructions), circuit.valuesSegment.assertEqInstructions;
      && |after| == |before| + 1 && after[..|before|] == before && IsClosed(circuit.valuesSegment.log, after[|before|])
      && Holds(circuit.valuesSegment.log, Apply(circuit.field), after[|before|])
  {
    hide PolyValue, Coefficients, Power, AreRecorded, IsIdentity, AllFactorsAccurate, AllRPass, LeftSum, RightSum, QuotientSum,
      IsAccumulator, RightValue, ArePowers, AreElements, HasDegree, IsCircuit, AreLinked, AreConstants, MapOf, Tiled, Stack, Grows;
    var f := circuit.field;
    var left, firsts := SumLeft(circuit, ts, cs, start, zPowers, z, d);
    if left.Err? {
      return Err(AssertionError);
    }
    ghost var afterLeft := circuit.Segment();
    KeepAll(old(circuit.Segment()), afterLeft, d, ts, cs, Q, zPowers);
    StartValue(f, start, left.value, z);
    var right := SumRight(circuit, ts, cs, left.value, firsts, z, d);
    ghost var afterRight := circuit.Segment();
    GrowsThrough(old(circuit.Segment()), afterLeft, afterRight);
    if right.Err? {
      return Err(AssertionError);
    }
    KeepAll(afterLeft, circuit.Segment(), d, ts, cs, Q, zPowers);
    var lhs := right.value.lhs;
    var rhs := EvalRight(circuit, Q, irreducible, right.value, zPowers, z, d);
    AccumulatorStays(afterRight, circuit.Segment(), right.value);
    LhsIsElement(circuit.Segment(), right.value);
    GrowsThrough(old(circuit.Segment()), afterRight, circuit.Segment());
    if lhs.value != rhs.value {
      return Err(AssertionError);
    }
    ghost var beforeZero := circuit.Segment();
    var zero := circuit.SetOrGetConstant(f.zero);
    ElementStays(beforeZero, circuit.Segment(), lhs);
    ElementStays(beforeZero, circuit.Segment(), rhs);
    GrowsThrough(old(circuit.Segment()), beforeZero, circuit.Segment());
    var checked := circuit.SubAndAssert(lhs, rhs, zero);
    AddZero(f, rhs.value);
    return Ok(true);
  }

  lemma KeepAll<F(!new)>(before: map<int, Item<F>>, after: map<int, Item<F>>, d: nat, ts: seq<Identity<F>>,
      cs: seq<Element<F>>, Q: seq<Element<F>>, zPowers: seq<Element<F>>)
    requires Grows(before, after) && AreRecorded(before, d, ts)
    requires AreElements(before, cs) && AreElements(before, Q) && AreElements(before, zPowers)
    ensures AreRecorded(after, d, ts) && AreElements(after, cs) && AreElements(after, Q) && AreElements(after, zPowers)
  {
    AllStay(before, after, d, ts);
  }

  lemma StartValue<F(!new)>(f: Field<F>, start: Accumulator<F>, acc: Accumulator<F>, z: F)
    requires acc == start.(lhs := acc.lhs)
    ensures RightValue(f, acc, z) == RightValue(f, start, z)
  {
  }

  lemma LhsIsElement<F(!new)>(segment: map<int, Item<F>>, acc: Accumulator<F>)
    requires IsAccumulator(segment, acc)
    ensures IsElement(segment, acc.lhs)
  {
  }

  lemma ElementStays<F(!new)>(before: map<int, Item<F>>, after: map<int, Item<F>>, e: Element<F>)
    requires Grows(before, after) && IsElement(before, e)
    ensures IsElement(after, e)
  {
  }

  lemma GrowsThrough<F(!new)>(a: map<int, Item<F>>, b: map<int, Item<F>>, c: map<int, Item<F>>)
    requires Grows(a, b) && Grows(b, c)
    ensures Grows(a, c)
  {
  }

  // ----- sound identities -----

  /** The product of the first n factors as a polynomial. */
  function ProductOf<F(!new)>(f: Field<F>, factors: seq<seq<F>>, n: nat): seq<F>
    requires n <= |factors|
  {
    if n == 0 then [f.one] else Times(f, ProductOf(f, factors, n - 1), factors[n - 1])
  }

  function AllValues<F>(Pis: seq<seq<Element<F>>>): seq<seq<F>> {
    seq(|Pis|, i requires 0 <= i < |Pis| => Values(Pis[i]))
  }

  lemma {:induction false} ValueOfFactors<F(!new)>(f: Field<F>, Pis: seq<seq<Element<F>>>, z: F, n: nat)
    requires f.IsField() && n <= |Pis|
    ensures PolyValue(f, ProductOf(f, AllValues(Pis), n), z) == ProductAt(f, Pis, z, n)
  {
    if n == 0 {
      PolynomialAlgorithms.ValueOfConstant(f, f.one, z);
    } else {
      ValueOfFactors(f, Pis, z, n - 1);
      ValueOfProduct(f, ProductOf(f, AllValues(Pis), n - 1), Values(Pis[n - 1]), z);
    }
  }

  /** R's sparsity tells the truth, so that what it encodes is R itself. */
  predicate RIsAccurate<F(==, !new)>(f: Field<F>, t: Identity<F>)
    requires t.rSparsity == [] || |t.rSparsity| == |t.R|
  {
    t.kind != SquareTorus ==> HasValidCodes(t.rSparsity) && IsAccurate(f, t.R, t.rSparsity)
  }

  /** The recorded identity is one of polynomials: P_1 ... P_n == Q * P_irr + R, with R as its
      sparsity encodes it. */
  ghost predicate IsSound<F(!new)>(f: Field<F>, irreducible: seq<F>, t: Identity<F>)
    requires t.Pis != [] && (t.sparsities == [] || |t.sparsities| == |t.Pis|)
    requires t.rSparsity == [] || |t.rSparsity| == |t.R|
  {
    && FactorsAreAccurate(f, t) && RIsAccurate(f, t)
    && Same(f, ProductOf(f, AllValues(t.Pis), |t.Pis|), Polynomials.Add(f, Times(f, t.Q, irreducible), Encoded(f, t.R, t.rSparsity)))
  }

  lemma SoundHoldsAt<F(!new)>(f: Field<F>, irreducible: seq<F>, ts: seq<Identity<F>>, i: nat, z: F)
    requires f.IsField() && HaveShape(ts) && FactorsAreShaped(ts) && i < |ts| && IsSound(f, irreducible, ts[i])
    ensures HoldsAt(f, ts, i, PolyValue(f, irreducible, z), z)
    ensures ReusesNext(ts, i) || RPassesCheck(f, ts[i])
  {
    hide Times, Polynomials.Add, PolyValue, ProductOf, ProductAt;
    var t := ts[i];
    ValueOfFactors(f, t.Pis, z, |t.Pis|);
    ValueIsCongruent(f, ProductOf(f, AllValues(t.Pis), |t.Pis|), Polynomials.Add(f, Times(f, t.Q, irreducible), Encoded(f, t.R, t.rSparsity)), z);
    ValueOfSum(f, Times(f, t.Q, irreducible), Encoded(f, t.R, t.rSparsity), z);
    ValueOfProduct(f, t.Q, irreducible, z);
    if ReusesNext(ts, i) {
      AccurateIsExact(f, t.R, t.rSparsity);
    }
  }

  ghost predicate AreSound<F(!new)>(f: Field<F>, irreducible: seq<F>, ts: seq<Identity<F>>) {
    && HaveShape(ts) && FactorsAreShaped(ts)
    && forall i :: 0 <= i < |ts| ==> IsSound(f, irreducible, ts[i])
  }

  lemma SoundGrows<F(!new)>(f: Field<F>, irreducible: seq<F>, ts: seq<Identity<F>>, t: Identity<F>)
    requires t.Pis != [] && (t.sparsities == [] || |t.sparsities| == |t.Pis|)
    requires t.rSparsity == [] || |t.rSparsity| == |t.R|
    requires AreSound(f, irreducible, ts) && IsSound(f, irreducible, t)
    ensures AreSound(f, irreducible, ts + [t])
  {
    hide IsSound;
  }

  /** Sound identities balance for every combination coefficients and at every point. */
  lemma SoundBalances<F(!new)>(f: Field<F>, irreducible: seq<F>, ts: seq<Identity<F>>, cs: seq<F>, z: F)
    requires f.IsField() && AreSound(f, irreducible, ts) && |cs| == |ts|
    ensures Balances(f, ts, cs, irreducible, z)
  {
    hide IsSound, HoldsAt, PolyValue, RPassesCheck, FactorsAreAccurate, LeftSum, RightSum, QuotientSum;
    forall i: nat | i < |ts|
      ensures HoldsAt(f, ts, i, PolyValue(f, irreducible, z), z) && (ReusesNext(ts, i) || RPassesCheck(f, ts[i]))
      ensures FactorsAreAccurate(f, ts[i])
    {
      SoundHoldsAt(f, irreducible, ts, i, z);
      SoundFactors(f, irreducible, ts[i]);
    }
    CombinationHolds(f, ts, cs, PolyValue(f, irreducible, z), z, |ts|);
  }

  lemma SoundFactors<F(!new)>(f: Field<F>, irreducible: seq<F>, t: Identity<F>)
    requires t.Pis != [] && (t.sparsities == [] || |t.sparsities| == |t.Pis|)
    requires t.rSparsity == [] || |t.rSparsity| == |t.R|
    requires IsSound(f, irreducible, t)
    ensures FactorsAreAccurate(f, t)
  {
  }

  // ----- the circuit -----

  /** The combination coefficients c0, c0^2, ... */
  function Combination<F(!new)>(f: Field<F>, c0: F, n: nat): seq<F> {
    seq(n, i requires 0 <= i < n => Power(f, c0, i + 1))
  }

  /** The coefficients and the combined, padded quotient of one list of identities. */
  method PrepareQuotient<F(==, !new)>(circuit: ModuloCircuit<F>, ts: seq<Identity<F>>, c0: Element<F>, minLength: nat, ghost z: F)
    returns (cs: seq<Element<F>>, q: seq<F>)
    requires circuit.Valid() && IsElement(circuit.Segment(), c0) && ts != []
    modifies circuit`calls, circuit.valuesSegment`segment, circuit.valuesSegment`stacks,
      circuit.valuesSegment`offset, circuit.valuesSegment`log
    ensures circuit.Valid() && Grows(old(circuit.Segment()), circuit.Segment()) && AreElements(circuit.Segment(), cs)
    ensures Values(cs) == Combination(circuit.field, c0.value, |ts|) && q != []
    ensures PolyValue(circuit.field, q, z) == QuotientSum(circuit.field, ts, Values(cs), z, |ts|)
    ensures |q| >= minLength && (|q| > minLength ==> PolynomialAlgorithms.IsTrimmed(circuit.field, q))
    ensures |cs| == |ts| && IsCombination(circuit.field, q, ts, Values(cs), |ts|)
  {
    hide ModuloCircuit.Valid, PolyValue, Power, QuotientSum, IsCombination;
    ValidIsField(circuit);
    cs := CreatePowers(circuit, c0, |ts|);
    q := CombineQuotients(circuit.field, ts, Values(cs), z);
    if |q| < minLength {
      PaddingKeepsValue(circuit.field, q, minLength - |q|, z);
      PaddedCombination(circuit.field, q, ts, Values(cs), minLength - |q|);
      q := q + seq(minLength - |q|, _ => circuit.field.zero);
    }
  }

  /** write_elements with a sparsity: places marked 0 get the constant zero instead. */
  method WriteSparse<F(==, !new)>(circuit: ModuloCircuit<F>, values: seq<F>, sparsity: seq<int>) returns (es: seq<Element<F>>)
    requires circuit.Valid() && |sparsity| == |values|
    modifies circuit`calls, circuit`constants, circuit.valuesSegment`segment, circuit.valuesSegment`stacks,
      circuit.valuesSegment`offset, circuit.valuesSegment`log
    ensures circuit.Valid() && Grows(old(circuit.Segment()), circuit.Segment())
    ensures |es| == |values| && AreElements(circuit.Segment(), es)
    ensures forall i :: 0 <= i < |values| ==> es[i].value == if sparsity[i] != 0 then values[i] else circuit.field.zero
  {
    hide ModuloCircuit.Valid;
    es := [];
    for i := 0 to |values|
      invariant circuit.Valid() && Grows(old(circuit.Segment()), circuit.Segment())
      invariant |es| == i && AreElements(circuit.Segment(), es)
      invariant forall k :: 0 <= k < i ==> es[k].value == if sparsity[k] != 0 then values[k] else circuit.field.zero
    {
      ghost var segment := circuit.Segment();
      var e;
      if sparsity[i] != 0 {
        e := circuit.WriteElement(values[i], COMMIT, None, Supplied);
      } else {
        e := circuit.SetOrGetConstant(circuit.field.zero);
      }
      MoreElements(segment, circuit.Segment(), es, e);
      es := es + [e];
    }
  }

  /** A sparsity list that describes a list of values correctly. */
  predicate Describes<F(==, !new)>(f: Field<F>, sparsity: seq<int>, values: seq<F>) {
    sparsity != [] ==>
      && |sparsity| == |values| && HasValidCodes(sparsity) && !IsAllZero(sparsity)
      && forall i :: 0 <= i < |values| ==> (sparsity[i] == 0 ==> values[i] == f.zero) && (sparsity[i] == 2 ==> values[i] == f.one)
  }

  /** The factors of a product in the extension field: usable operands with correct sparsities. */
  ghost predicate AreFactors<F(!new)>(f: Field<F>, segment: map<int, Item<F>>, d: nat, Pis: seq<seq<Element<F>>>, sparsities: seq<seq<int>>) {
    && Pis != [] && |sparsities| == |Pis|
    && forall k :: 0 <= k < |Pis| ==>
        0 < |Pis[k]| <= d && IsUsable(segment, Pis[k], sparsities[k]) && Describes(f, sparsities[k], Values(Pis[k]))
  }

  /** The contract of the foreign hint: the product of the factors is quotient * P_irr + remainder. */
  ghost predicate IsHint<F(!new)>(f: Field<F>, irreducible: seq<F>, factors: seq<seq<F>>, quotient: seq<F>, remainder: seq<F>) {
    Same(f, ProductOf(f, factors, |factors|), Polynomials.Add(f, Times(f, quotient, irreducible), remainder))
  }

  /** An identity over correct factors and a correct R is recorded properly and sound. */
  lemma HintIsSound<F(!new)>(f: Field<F>, segment: map<int, Item<F>>, d: nat, irreducible: seq<F>, t: Identity<F>, remainder: seq<F>)
    requires AreFactors(f, segment, d, t.Pis, t.sparsities) && t.kind != SquareTorus
    requires IsHint(f, irreducible, AllValues(t.Pis), t.Q, remainder)
    requires |t.R| == |remainder| == d && Values(t.R) == remainder && Describes(f, t.rSparsity, remainder)
    requires IsUsable(segment, t.R, t.rSparsity)
    ensures IsIdentity(segment, d, t) && IsSound(f, irreducible, t)
  {
    hide Times, Polynomials.Add, ProductOf, IsElement;
    forall k | 0 <= k < |t.Pis|
      ensures IsAccurate(f, t.Pis[k], SparsityAt(t.sparsities, k))
    {
    }
    AccurateIsExact(f, t.R, t.rSparsity);
  }

  lemma FactorsStay<F(!new)>(
      f: Field<F>, before: map<int, Item<F>>, after: map<int, Item<F>>, d: nat, Pis: seq<seq<Element<F>>>, sparsities: seq<seq<int>>)
    requires AreFactors(f, before, d, Pis, sparsities) && Grows(before, after)
    ensures AreFactors(f, after, d, Pis, sparsities)
  {
    hide Describes, Grows, IsUsable;
    forall k | 0 <= k < |Pis|
      ensures IsUsable(after, Pis[k], sparsities[k])
    {
      UsableStays(before, after, Pis[k], sparsities[k]);
    }
  }

  class ExtensionFieldModuloCircuit<F(==, !new)> {
    const circuit: ModuloCircuit<F>
    const extensionDegree: nat
    const irreducible: seq<seq<F>>  // of degree extensionDegree and twice that
    var acc: seq<Accumulator<F>>
    var identities: seq<seq<Identity<F>>>  // accumulate_poly_instructions

    function Length(k: nat): nat {
      (k + 1) * extensionDegree
    }

    ghost predicate IsInitial(acc: Accumulator<F>, k: nat) {
      && acc.lhs.value == circuit.field.zero && acc.REvaluated.value == circuit.field.zero
      && acc.R == seq(Length(k), _ => None)
    }

    /** List k: its accumulator is still empty and its identities are recorded properly. */
    ghost predicate IsReady(k: nat)
      requires k < |irreducible| && k < |acc| && k < |identities|
      reads this, circuit, circuit.valuesSegment
    {
      && HasDegree(circuit.field, irreducible[k], Length(k))
      && IsAccumulator(circuit.Segment(), acc[k]) && IsInitial(acc[k], k)
      && AreRecorded(circuit.Segment(), Length(k), identities[k])
    }

    ghost predicate Valid()
      reads this, circuit, circuit.valuesSegment
    {
      && circuit.Valid() && circuit.compilationMode == CairoZero && extensionDegree > 0
      && |irreducible| == |acc| == |identities| == 2
      && IsReady(0) && IsReady(1)
    }

    /** Every recorded identity is one of polynomials. */
    ghost predicate IsSoundCircuit()
      reads this
    {
      && |irreducible| == |identities| == 2
      && AreSound(circuit.field, irreducible[0], identities[0]) && AreSound(circuit.field, irreducible[1], identities[1])
    }

    constructor (circuit: ModuloCircuit<F>, extensionDegree: nat, irreducible: seq<seq<F>>)
      requires circuit.Valid() && circuit.compilationMode == CairoZero && extensionDegree > 0 && |irreducible| == 2
      requires HasDegree(circuit.field, irreducible[0], extensionDegree) && HasDegree(circuit.field, irreducible[1], 2 * extensionDegree)
      modifies circuit`calls, circuit`constants, circuit.valuesSegment`segment, circuit.valuesSegment`stacks,
        circuit.valuesSegment`offset, circuit.valuesSegment`log
      ensures Valid() && IsSoundCircuit() && identities == [[], []]
      ensures this.circuit == circuit && this.extensionDegree == extensionDegree && this.irreducible == irreducible
    {
      hide ModuloCircuit.Valid;
      var zero := circuit.SetOrGetConstant(circuit.field.zero);
      this.circuit, this.extensionDegree, this.irreducible := circuit, extensionDegree, irreducible;
      acc := [
        Accumulator(zero, seq(extensionDegree, _ => None), zero),
        Accumulator(zero, seq(2 * extensionDegree, _ => None), zero)];
      identities := [[], []];
    }

    lemma StaysReady(before: map<int, Item<F>>, k: nat)
      requires k < |irreducible| && k < |acc| && k < |identities| && circuit.Valid()
      requires HasDegree(circuit.field, irreducible[k], Length(k)) && IsInitial(acc[k], k)
      requires IsAccumulator(before, acc[k]) && AreRecorded(before, Length(k), identities[k]) && Grows(before, circuit.Segment())
      ensures IsReady(k)
    {
      hide ModuloCircuit.Valid;
      AccumulatorStays(before, circuit.Segment(), acc[k]);
      AllStay(before, circuit.Segment(), Length(k), identities[k]);
    }

    /** What Append needs to know of the state before the new values were written. */
    ghost predicate WasReady(before: map<int, Item<F>>)
      reads this
    {
      && |irreducible| == |acc| == |identities| == 2
      && forall j: nat :: j < 2 ==>
        && HasDegree(circuit.field, irreducible[j], Length(j)) && IsInitial(acc[j], j)
        && IsAccumulator(before, acc[j]) && AreRecorded(before, Length(j), identities[j])
    }

    lemma ReadyNow()
      requires Valid()
      ensures WasReady(circuit.Segment())
    {
      hide IsAccumulator, AreRecorded, HasDegree, IsInitial, ModuloCircuit.Valid;
      assert IsReady(0) && IsReady(1);
    }

    /** accumulate_poly_instructions[k].append */
    method Append(k: nat, t: Identity<F>, ghost before: map<int, Item<F>>)
      requires k < 2 && circuit.Valid() && circuit.compilationMode == CairoZero && extensionDegree > 0
      requires WasReady(before) && Grows(before, circuit.Segment())
      requires IsIdentity(circuit.Segment(), Length(k), t) && IsSound(circuit.field, irreducible[k], t) && IsSoundCircuit()
      modifies this`identities
      ensures Valid() && IsSoundCircuit() && identities == old(identities)[k := old(identities[k]) + [t]]
    {
      hide ModuloCircuit.Valid, IsAccumulator, IsIdentity, IsSound, HasDegree, IsInitial, Grows;
      RecordedShape(circuit.Segment(), Length(k), t);
      UsableLength(circuit.Segment(), t.R, t.rSparsity);
      SoundGrows(circuit.field, irreducible[k], identities[k], t);
      StaysReady(before, 0);
      StaysReady(before, 1);
      identities := identities[k := identities[k] + [t]];
    }

    /** extf_mul: commits to the remainder the hint supplies and records the identity. */
    method ExtfMul(Ps: seq<seq<Element<F>>>, degree: nat, sparsities: seq<seq<int>>, rSparsity: seq<int>, accIndex: nat,
        quotient: seq<F>, remainder: seq<F>)
      returns (res: Result<seq<Element<F>>>)
      requires Valid() && IsSoundCircuit() && accIndex < 2 && degree == Length(accIndex)
      requires |sparsities| == |Ps| ==> AreFactors(circuit.field, circuit.Segment(), degree, Ps, sparsities)
      requires IsHint(circuit.field, irreducible[accIndex], AllValues(Ps), quotient, remainder)
      requires |remainder| == degree && (|rSparsity| == degree ==> Describes(circuit.field, rSparsity, remainder))
      modifies this`identities, circuit`calls, circuit`constants, circuit.valuesSegment`segment, circuit.valuesSegment`stacks,
        circuit.valuesSegment`offset, circuit.valuesSegment`log
      ensures Valid() && IsSoundCircuit()
      ensures res.Ok? <==> degree > 2 && |sparsities| == |Ps| && (rSparsity == [] || |rSparsity| == degree)
      ensures res.Err? ==> res.failure == AssertionError && identities == old(identities)
      ensures res.Ok? ==> Values(res.value) == remainder && AreElements(circuit.Segment(), res.value)
      ensures res.Ok? ==>
        identities == old(identities)[accIndex := old(identities[accIndex]) + [Identity(MulIdentity, Ps, quotient, res.value, sparsities, rSparsity)]]
    {
      hide ModuloCircuit.Valid, IsIdentity, IsSound, Grows, AreFactors, IsHint, Describes, WasReady, IsReady, IsSoundCircuit;
      ReadyNow();
      ghost var before := circuit.Segment();
      if degree <= 2 || |sparsities| != |Ps| || (rSparsity != [] && |rSparsity| != degree) {
        return Err(AssertionError);
      }
      var R;
      if |rSparsity| != 0 {
        R := WriteSparse(circuit, remainder, rSparsity);
        DescribedValues(circuit.field, rSparsity, remainder, R);
      } else {
        R := WriteElements(circuit, remainder, COMMIT);
      }
      NoSparsity(circuit.field, remainder);
      FactorsStay(circuit.field, before, circuit.Segment(), degree, Ps, sparsities);
      var t := Identity(MulIdentity, Ps, quotient, R, sparsities, rSparsity);
      HintIsSound(circuit.field, circuit.Segment(), degree, irreducible[accIndex], t, remainder);
      Append(accIndex, t, before);
      return Ok(R);
    }

    /** extf_div: commits to the quotient x/y the hint supplies; the recorded identity is
        quotient * y == Q * P_irr + x. */
    method ExtfDiv(X: seq<Element<F>>, Y: seq<Element<F>>, accIndex: nat, xOverY: seq<F>, quotient: seq<F>)
      returns (r: seq<Element<F>>)
      requires Valid() && IsSoundCircuit() && accIndex < 2
      requires AreElements(circuit.Segment(), X) && |X| == Length(accIndex)
      requires AreElements(circuit.Segment(), Y) && 0 < |Y| <= Length(accIndex) && 0 < |xOverY| <= Length(accIndex)
      requires IsHint(circuit.field, irreducible[accIndex], [xOverY, Values(Y)], quotient, Values(X))
      modifies this`identities, circuit`calls, circuit`constants, circuit.valuesSegment`segment, circuit.valuesSegment`stacks,
        circuit.valuesSegment`offset, circuit.valuesSegment`log
      ensures Valid() && IsSoundCircuit() && Values(r) == xOverY && AreElements(circuit.Segment(), r)
      ensures identities == old(identities)[accIndex := old(identities[accIndex]) + [Identity(DivIdentity, [r, Y], quotient, X, [[], []], [])]]
    {
      hide ModuloCircuit.Valid, IsIdentity, IsSound, Grows, IsHint, Describes, WasReady, IsReady, IsSoundCircuit, AreElements;
      ReadyNow();
      ghost var before := circuit.Segment();
      r := WriteElements(circuit, xOverY, COMMIT);
      ElementsStay(before, circuit.Segment(), X);
      ElementsStay(before, circuit.Segment(), Y);
      PairOfFactors(circuit.field, circuit.Segment(), Length(accIndex), r, Y);
      NoSparsity(circuit.field, Values(X));
      AllUsable(circuit.Segment(), X);
      var t := Identity(DivIdentity, [r, Y], quotient, X, [[], []], []);
      HintIsSound(circuit.field, circuit.Segment(), Length(accIndex), irreducible[accIndex], t, Values(X));
      Append(accIndex, t, before);
    }

    /** extf_inv: the recorded identity is inverse * y == Q * P_irr + 1. The one is mocked: its
        elements are not in the circuit, and its sparsity keeps them from ever being operands. */
    method ExtfInv(Y: seq<Element<F>>, accIndex: nat, inverse: seq<F>, quotient: seq<F>)
      returns (r: seq<Element<F>>)
      requires Valid() && IsSoundCircuit() && accIndex < 2
      requires AreElements(circuit.Segment(), Y) && 0 < |Y| <= Length(accIndex) && 0 < |inverse| <= Length(accIndex)
      requires IsHint(circuit.field, irreducible[accIndex], [inverse, Values(Y)], quotient,
        [circuit.field.one] + seq(Length(accIndex) - 1, _ => circuit.field.zero))
      modifies this`identities, circuit`calls, circuit`constants, circuit.valuesSegment`segment, circuit.valuesSegment`stacks,
        circuit.valuesSegment`offset, circuit.valuesSegment`log
      ensures Valid() && IsSoundCircuit() && Values(r) == inverse && AreElements(circuit.Segment(), r)
      ensures identities == old(identities)[accIndex := old(identities[accIndex]) + [Identity(DivIdentity, [r, Y], quotient,
        [Element(circuit.field.one, -1)] + seq(Length(accIndex) - 1, _ => Element(circuit.field.zero, -1)),
        [[], []], [2] + seq(Length(accIndex) - 1, _ => 0))]]
    {
      hide ModuloCircuit.Valid, IsIdentity, IsSound, Grows, IsHint, WasReady, IsReady, IsSoundCircuit, AreElements;
      ReadyNow();
      ghost var before := circuit.Segment();
      var d := Length(accIndex);
      var one := [Element(circuit.field.one, -1)] + seq(d - 1, _ => Element(circuit.field.zero, -1));
      r := WriteElements(circuit, inverse, COMMIT);
      ElementsStay(before, circuit.Segment(), Y);
      PairOfFactors(circuit.field, circuit.Segment(), d, r, Y);
      var sparsity := [2] + seq(d - 1, _ => 0);
      ghost var remainder := [circuit.field.one] + seq(d - 1, _ => circuit.field.zero);
      assert Values(one) == remainder;
      assert sparsity[0] == 2;
      var t := Identity(DivIdentity, [r, Y], quotient, one, [[], []], sparsity);
      HintIsSound(circuit.field, circuit.Segment(), d, irreducible[accIndex], t, remainder);
      Append(accIndex, t, before);
    }

    /** List k passes the combined check at z with coefficients c0, c0^2, ... */
    ghost predicate Passes(k: nat, c0: F, z: F)
      requires k < |irreducible| && k < |identities|
      reads this
    {
      && HaveShape(identities[k]) && FactorsAreShaped(identities[k])
      && Balances(circuit.field, identities[k], Combination(circuit.field, c0, |identities[k]|), irreducible[k], z)
    }

    /** finalize_circuit, for the coefficient c0 and the point z the transcript supplies. It
        succeeds exactly when every list in use passes the combined check; in particular it
        succeeds for every c0 and z when all recorded identities are sound. */
    method Finalize(c0: F, z: F) returns (res: Result<bool>)
      requires Valid()
      modifies circuit`calls, circuit`constants, circuit.valuesSegment`segment, circuit.valuesSegment`stacks,
        circuit.valuesSegment`offset, circuit.valuesSegment`log, circuit.valuesSegment`assertEqInstructions
      ensures circuit.Valid()
      ensures res.Ok? <==> identities[0] != [] && Passes(0, c0, z) && (identities[1] != [] ==> Passes(1, c0, z))
      ensures res.Err? ==> res.failure == if identities[0] == [] then IndexError else AssertionError
      ensures res.Ok? ==> res.value
      ensures IsSoundCircuit() && identities[0] != [] ==> res.Ok?
    {
      hide ModuloCircuit.Valid, IsAccumulator, IsIdentity, IsSound, HasDegree, Grows, AreRecorded, AreElements, ArePowers, PolyValue,
        Balances, QuotientSum, Power, Combination, HaveShape, FactorsAreShaped, AreSound;
      SoundPasses(0, c0, z);
      SoundPasses(1, c0, z);
      if |identities[0]| == 0 {
        return Err(IndexError);
      }
      res := FinalizeNonEmpty(c0, z);
    }

    /** The combination coefficients and the committed combined quotient of list k. */
    ghost predicate IsPrepared(segment: map<int, Item<F>>, k: nat, cs: seq<Element<F>>, Q: seq<Element<F>>, c0: F, z: F)
      requires k < |identities|
      reads this
    {
      && AreElements(segment, cs) && AreElements(segment, Q) && Q != []
      && Values(cs) == Combination(circuit.field, c0, |identities[k]|)
      && PolyValue(circuit.field, Values(Q), z) == QuotientSum(circuit.field, identities[k], Values(cs), z, |identities[k]|)
    }

    /** The coefficients and the quotient of list k; the quotient is committed to. */
    method Prepare(k: nat, c0: Element<F>, ghost z: F) returns (cs: seq<Element<F>>, Q: seq<Element<F>>)
      requires k < |identities| && identities[k] != [] && extensionDegree > 0
      requires circuit.Valid() && IsElement(circuit.Segment(), c0)
      modifies circuit`calls, circuit.valuesSegment`segment, circuit.valuesSegment`stacks,
        circuit.valuesSegment`offset, circuit.valuesSegment`log
      ensures circuit.Valid() && Grows(old(circuit.Segment()), circuit.Segment()) && IsPrepared(circuit.Segment(), k, cs, Q, c0.value, z)
      ensures |cs| == |identities[k]| && IsCombination(circuit.field, Values(Q), identities[k], Values(cs), |identities[k]|)
      ensures |Q| >= (k + 1) * extensionDegree - 1
      ensures |Q| > (k + 1) * extensionDegree - 1 ==> PolynomialAlgorithms.IsTrimmed(circuit.field, Values(Q))
    {
      hide ModuloCircuit.Valid, PolyValue, QuotientSum, Combination, Grows, IsCombination;
      var q;
      cs, q := PrepareQuotient(circuit, identities[k], c0, Length(k) - 1, z);
      ghost var before := circuit.Segment();
      Q := WriteElements(circuit, q, COMMIT);
      ElementsStay(before, circuit.Segment(), cs);
      GrowsThrough(old(circuit.Segment()), before, circuit.Segment());
      assert |Values(Q)| == |Q| && |Values(cs)| == |cs|;
    }

    /** The check of list k once everything is prepared. */
    method Check(k: nat, cs: seq<Element<F>>, Q: seq<Element<F>>, zPowers: seq<Element<F>>, ghost c0: F, ghost z: F) returns (res: Result<bool>)
      requires Valid() && k < 2 && IsPrepared(circuit.Segment(), k, cs, Q, c0, z)
      requires Length(k) <= |zPowers| && |Q| <= |zPowers| + 1
      requires AreElements(circuit.Segment(), zPowers) && ArePowers(circuit.field, z, zPowers)
      modifies circuit`calls, circuit`constants, circuit.valuesSegment`segment, circuit.valuesSegment`stacks,
        circuit.valuesSegment`offset, circuit.valuesSegment`log, circuit.valuesSegment`assertEqInstructions
      ensures circuit.Valid() && Grows(old(circuit.Segment()), circuit.Segment())
      ensures (res.Ok? <==> Passes(k, c0, z)) && (res.Err? ==> res.failure == AssertionError) && (res.Ok? ==> res.value)
    {
      hide ModuloCircuit.Valid, PolyValue, QuotientSum, Grows, IsIdentity, AreElements, ArePowers, Balances, HasDegree, IsAccumulator,
        AreRecorded, Coefficients, RightValue;
      assert IsReady(k);
      RecordedHaveShape(circuit.Segment(), Length(k), identities[k]);
      InitialIsZero(circuit, acc[k], Length(k), z);
      CombinationLength(circuit.field, c0, |identities[k]|);
      assert |Values(cs)| == |cs|;
      res := CheckIdentities(circuit, identities[k], cs, Q, irreducible[k], acc[k], zPowers, z, Length(k));
    }

    lemma PreparedStays(
        before: map<int, Item<F>>, after: map<int, Item<F>>, k: nat, cs: seq<Element<F>>, Q: seq<Element<F>>, c0: F, z: F)
      requires k < |identities| && IsPrepared(before, k, cs, Q, c0, z) && Grows(before, after)
      ensures IsPrepared(after, k, cs, Q, c0, z) && Q != []
    {
      ElementsStay(before, after, cs);
      ElementsStay(before, after, Q);
    }

    lemma StaysValid(before: map<int, Item<F>>)
      requires WasReady(before) && Grows(before, circuit.Segment())
      requires circuit.Valid() && circuit.compilationMode == CairoZero && extensionDegree > 0
      ensures Valid()
    {
      hide ModuloCircuit.Valid, IsInitial, HasDegree, IsAccumulator, AreRecorded, Grows;
      StaysReady(before, 0);
      StaysReady(before, 1);
    }

    method FinalizeNonEmpty(c0: F, z: F) returns (res: Result<bool>)
      requires Valid() && identities[0] != []
      modifies circuit`calls, circuit`constants, circuit.valuesSegment`segment, circuit.valuesSegment`stacks,
        circuit.valuesSegment`offset, circuit.valuesSegment`log, circuit.valuesSegment`assertEqInstructions
      ensures circuit.Valid()
      ensures res.Ok? <==> Passes(0, c0, z) && (identities[1] != [] ==> Passes(1, c0, z))
      ensures (res.Err? ==> res.failure == AssertionError) && (res.Ok? ==> res.value)
    {
      hide ModuloCircuit.Valid, Grows, Passes, IsPrepared, IsReady, WasReady, AreElements, ArePowers;
      ReadyNow();
      ghost var atStart := circuit.Segment();
      var c0e := circuit.WriteElement(c0, FELT, None, Supplied);
      ghost var s0 := circuit.Segment();
      var cs0, Q0 := Prepare(0, c0e, z);
      ghost var s1 := circuit.Segment();
      GrowsThrough(atStart, s0, s1);
      var double := |identities[1]| > 0;
      var cs1, Q1 := [], [];
      if double {
        ElementStays(s0, s1, c0e);
        cs1, Q1 := Prepare(1, c0e, z);
      }
      ghost var s2 := circuit.Segment();
      ReflexiveGrowth(s1);
      GrowsThrough(atStart, s1, s2);
      var upTo := Max(Max(|Q0|, if double then |Q1| else 1) - 1, extensionDegree);
      if double {
        upTo := Max(upTo, 2 * extensionDegree);
      }
      var ze := circuit.WriteElement(z, FELT, None, Supplied);
      ghost var s3 := circuit.Segment();
      GrowsThrough(atStart, s2, s3);
      var zPowers := CreatePowers(circuit, ze, upTo);
      ghost var s4 := circuit.Segment();
      GrowsThrough(atStart, s3, s4);
      GrowsThrough(s2, s3, s4);
      GrowsThrough(s1, s2, s4);
      PreparedStays(s1, s4, 0, cs0, Q0, c0, z);
      StaysValid(atStart);
      ListedPowers(circuit.field, z, zPowers);
      res := Check(0, cs0, Q0, zPowers, c0, z);
      if res.Ok? && double {
        ghost var s5 := circuit.Segment();
        GrowsThrough(atStart, s4, s5);
        GrowsThrough(s2, s4, s5);
        PreparedStays(s2, s5, 1, cs1, Q1, c0, z);
        StaysValid(atStart);
        ElementsStay(s4, s5, zPowers);
        res := Check(1, cs1, Q1, zPowers, c0, z);
      }
    }

    lemma SoundPasses(k: nat, c0: F, z: F)
      requires Valid() && k < 2
      ensures IsSoundCircuit() ==> Passes(k, c0, z)
    {
      hide ModuloCircuit.Valid, IsAccumulator, IsIdentity, IsSound, HasDegree, AreRecorded, Balances;
      ValidIsField(circuit);
      if IsSoundCircuit() {
        SoundBalances(circuit.field, irreducible[k], identities[k], Combination(circuit.field, c0, |identities[k]|), z);
      }
    }
  }

  lemma ListedPowers<F(!new)>(f: Field<F>, z: F, powers: seq<Element<F>>)
    requires forall i :: 0 <= i < |powers| ==> powers[i].value == Power(f, z, i + 1)
    ensures ArePowers(f, z, powers)
  {
  }

  lemma ReflexiveGrowth<F(!new)>(segment: map<int, Item<F>>)
    ensures Grows(segment, segment)
  {
  }

  lemma CombinationLength<F(!new)>(f: Field<F>, c0: F, n: nat)
    ensures |Combination(f, c0, n)| == n
  {
  }

  lemma InitialIsZero<F(!new)>(circuit: ModuloCircuit<F>, acc: Accumulator<F>, d: nat, z: F)
    requires circuit.Valid() && acc.REvaluated.value == circuit.field.zero && acc.R == seq(d, _ => None)
    ensures RightValue(circuit.field, acc, z) == circuit.field.zero
  {
    hide ModuloCircuit.Valid;
    ValidIsField(circuit);
    ValueOfZeros(circuit.field, Coefficients(circuit.field, acc.R), z);
    AddZero(circuit.field, circuit.field.zero);
  }

  lemma AllUsable<F(!new)>(segment: map<int, Item<F>>, X: seq<Element<F>>)
    requires AreElements(segment, X)
    ensures IsUsable(segment, X, [])
  {
  }

  lemma PairOfFactors<F(!new)>(f: Field<F>, segment: map<int, Item<F>>, d: nat, X: seq<Element<F>>, Y: seq<Element<F>>)
    requires AreElements(segment, X) && AreElements(segment, Y) && 0 < |X| <= d && 0 < |Y| <= d
    ensures AreFactors(f, segment, d, [X, Y], [[], []])
    ensures AllValues([X, Y]) == [Values(X), Values(Y)]
  {
  }

  lemma NoSparsity<F(!new)>(f: Field<F>, values: seq<F>)
    ensures Describes(f, [], values)
  {
  }

  lemma DescribedValues<F(!new)>(f: Field<F>, sparsity: seq<int>, values: seq<F>, es: seq<Element<F>>)
    requires sparsity != [] && Describes(f, sparsity, values) && |es| == |values|
    requires forall i :: 0 <= i < |values| ==> es[i].value == if sparsity[i] != 0 then values[i] else f.zero
    ensures Values(es) == values
  {
  }
}
