/** The polynomial algorithms that work by loops: product, division with remainder, the
    extended Euclidean algorithm, evaluation and interpolation. */
module PolynomialAlgorithms {
  import opened Fields
  import opened Polynomials
  import opened Results

  // ----- product -----

  lemma {:induction false} ConvolutionIsStable<F(!new)>(f: Field<F>, p: seq<F>, q: seq<F>, k: int, m: nat, n: nat)
    requires f.IsField() && m <= n && (|p| <= m || k < m)
    ensures Convolution(f, p, q, k, n) == Convolution(f, p, q, k, m)
  {
    if m < n {
      ConvolutionIsStable(f, p, q, k, m, n - 1);
      MulZero(f, Coef(f, p, n - 1));
      MulZero(f, Coef(f, q, k - (n - 1)));
      AddZero(f, Convolution(f, p, q, k, m));
    }
  }

  lemma FullConvolution<F(!new)>(f: Field<F>, p: seq<F>, q: seq<F>, k: nat)
    requires f.IsField()
    ensures Convolution(f, p, q, k, |p|) == ProductCoef(f, p, q, k)
  {
    if |p| <= k + 1 {
      ConvolutionIsStable(f, p, q, k, |p|, k + 1);
    } else {
      ConvolutionIsStable(f, p, q, k, k + 1, |p|);
    }
  }

  /** The coefficient of x^k after the rows before i and the first j terms of row i. */
  function PartialRow<F(!new)>(f: Field<F>, p: seq<F>, q: seq<F>, k: int, i: nat, j: nat): F
    requires j <= |q|
  {
    f.add(Convolution(f, p, q, k, i), if 0 <= k - i < j then f.mul(Coef(f, p, i), Coef(f, q, k - i)) else f.zero)
  }

  lemma RowStarts<F(!new)>(f: Field<F>, p: seq<F>, q: seq<F>, k: int, i: nat)
    requires f.IsField()
    ensures PartialRow(f, p, q, k, i, 0) == Convolution(f, p, q, k, i)
  {
    AddZero(f, Convolution(f, p, q, k, i));
  }

  lemma RowSteps<F(!new)>(f: Field<F>, p: seq<F>, q: seq<F>, k: int, i: nat, j: nat)
    requires f.IsField() && j < |q|
    ensures k == i + j ==>
      PartialRow(f, p, q, k, i, j + 1) == f.add(PartialRow(f, p, q, k, i, j), f.mul(Coef(f, p, i), Coef(f, q, j)))
    ensures k != i + j ==> PartialRow(f, p, q, k, i, j + 1) == PartialRow(f, p, q, k, i, j)
  {
    AddZero(f, Convolution(f, p, q, k, i));
  }

  lemma RowEnds<F(!new)>(f: Field<F>, p: seq<F>, q: seq<F>, k: int, i: nat)
    requires f.IsField()
    ensures PartialRow(f, p, q, k, i, |q|) == Convolution(f, p, q, k, i + 1)
    ensures Coef(f, p, i) == f.zero ==> Convolution(f, p, q, k, i + 1) == Convolution(f, p, q, k, i)
  {
    MulZero(f, Coef(f, p, i));
    MulZero(f, Coef(f, q, k - i));
    AddZero(f, Convolution(f, p, q, k, i));
  }

  /** A row of the schoolbook product is added into the buffer. */
  method AddRow<F(!new)>(f: Field<F>, p: seq<F>, q: seq<F>, i: nat, buf: array<F>)
    requires f.IsField() && i < |p| && buf.Length == |p| + |q| - 1
    requires forall k :: 0 <= k < buf.Length ==> buf[k] == Convolution(f, p, q, k, i)
    modifies buf
    ensures forall k :: 0 <= k < buf.Length ==> buf[k] == Convolution(f, p, q, k, i + 1)
  {
    hide *;
    forall k | 0 <= k < buf.Length
      ensures buf[k] == PartialRow(f, p, q, k, i, 0)
    {
      RowStarts(f, p, q, k, i);
    }
    for j := 0 to |q|
      invariant forall k :: 0 <= k < buf.Length ==> buf[k] == PartialRow(f, p, q, k, i, j)
    {
      forall k | 0 <= k < buf.Length
        ensures k == i + j ==> PartialRow(f, p, q, k, i, j + 1) == f.add(buf[k], f.mul(p[i], q[j]))
        ensures k != i + j ==> PartialRow(f, p, q, k, i, j + 1) == buf[k]
      {
        RowSteps(f, p, q, k, i, j);
        InRange(f, p, i);
        InRange(f, q, j);
      }
      buf[i + j] := f.add(buf[i + j], f.mul(p[i], q[j]));
    }
    forall k | 0 <= k < buf.Length
      ensures buf[k] == Convolution(f, p, q, k, i + 1)
    {
      RowEnds(f, p, q, k, i);
    }
  }

  lemma InRange<F(!new)>(f: Field<F>, p: seq<F>, i: nat)
    requires i < |p|
    ensures Coef(f, p, i) == p[i]
  {
  }

  /** Trailing zeros are dropped; the zero polynomial is [0]. */
  ghost predicate IsTrimmed<F(!new)>(f: Field<F>, p: seq<F>) {
    p == [f.zero] || (p != [] && p[|p| - 1] != f.zero)
  }

  /** __mul__: the product, trimmed; rows of zero coefficients are skipped. */
  method Mul<F(==, !new)>(f: Field<F>, p: seq<F>, q: seq<F>) returns (r: seq<F>)
    requires f.IsField()
    ensures Same(f, r, Times(f, p, q)) && IsTrimmed(f, r)
    ensures p != [] && q != [] ==> |r| <= |p| + |q| - 1
  {
    if p == [] || q == [] {
      EmptyProduct(f, p, q);
      return [f.zero];
    }
    var buf := new F[|p| + |q| - 1](_ => f.zero);
    for i := 0 to |p|
      invariant forall k :: 0 <= k < buf.Length ==> buf[k] == Convolution(f, p, q, k, i)
    {
      if p[i] != f.zero {
        AddRow(f, p, q, i, buf);
      } else {
        forall k | 0 <= k < buf.Length
          ensures buf[k] == Convolution(f, p, q, k, i + 1)
        {
          RowEnds(f, p, q, k, i);
        }
      }
    }
    r := buf[..];
    BufferIsProduct(f, p, q, r);
    r := Trim(f, r);
  }

  lemma EmptyProduct<F(!new)>(f: Field<F>, p: seq<F>, q: seq<F>)
    requires f.IsField() && (p == [] || q == [])
    ensures Same(f, [f.zero], Times(f, p, q))
  {
    forall k
      ensures Coef(f, [f.zero], k) == Coef(f, Times(f, p, q), k)
    {
      CoefTimes(f, p, q, k);
      if k >= 0 {
        FullConvolution(f, p, q, k);
        if p != [] {
          EmptyRows(f, p, k, |p|);
        }
      }
    }
  }

  lemma {:induction false} EmptyRows<F(!new)>(f: Field<F>, p: seq<F>, k: int, n: nat)
    requires f.IsField()
    ensures Convolution(f, p, [], k, n) == f.zero
  {
    if n > 0 {
      EmptyRows(f, p, k, n - 1);
      MulZero(f, Coef(f, p, n - 1));
      AddZero(f, f.zero);
    }
  }

  lemma BufferIsProduct<F(!new)>(f: Field<F>, p: seq<F>, q: seq<F>, r: seq<F>)
    requires f.IsField() && p != [] && q != [] && |r| == |p| + |q| - 1
    requires forall k :: 0 <= k < |r| ==> r[k] == Convolution(f, p, q, k, |p|)
    ensures Same(f, r, Times(f, p, q))
  {
    forall k
      ensures Coef(f, r, k) == Coef(f, Times(f, p, q), k)
    {
      CoefTimes(f, p, q, k);
      if k >= 0 {
        FullConvolution(f, p, q, k);
        if k >= |r| {
          HighRows(f, p, q, k, |p|);
        }
      }
    }
  }

  lemma {:induction false} HighRows<F(!new)>(f: Field<F>, p: seq<F>, q: seq<F>, k: int, n: nat)
    requires f.IsField() && n <= |p| && k >= |p| + |q| - 1
    ensures Convolution(f, p, q, k, n) == f.zero
  {
    if n > 0 {
      HighRows(f, p, q, k, n - 1);
      MulZero(f, Coef(f, p, n - 1));
      AddZero(f, f.zero);
    }
  }

  /** get_coeffs: pop zero coefficients off the end; all gone means the zero polynomial. */
  method Trim<F(==, !new)>(f: Field<F>, p: seq<F>) returns (r: seq<F>)
    ensures Same(f, r, p) && IsTrimmed(f, r)
    ensures p != [] ==> |r| <= |p|
  {
    r := p;
    while |r| > 0 && r[|r| - 1] == f.zero
      invariant Same(f, r, p) && |r| <= |p|
    {
      r := r[..|r| - 1];
    }
    if r == [] {
      r := [f.zero];
      assert forall i :: Coef(f, r, i) == Coef(f, [], i);
    }
  }

  // ----- division with remainder -----

  /** c * x^n */
  function Monomial<F(!new)>(f: Field<F>, c: F, n: nat): seq<F> {
    seq(n, _ => f.zero) + [c]
  }

  lemma {:induction false} MonomialTimes<F(!new)>(f: Field<F>, c: F, n: nat, q: seq<F>, k: int)
    requires f.IsField()
    ensures Coef(f, Times(f, Monomial(f, c, n), q), k) == f.mul(c, Coef(f, q, k - n))
  {
    if n == 0 {
      assert Monomial(f, c, 0) == [c];
      CoefTimes(f, [c], q, k);
      if k >= 0 {
        ConvolutionOfConstant(f, c, q, k, k + 1);
      } else {
        MulZero(f, c);
      }
    } else {
      MonomialTimes(f, c, n - 1, q, k - 1);
      assert Monomial(f, c, n) == Shift(f, Monomial(f, c, n - 1));
      TimesOfShifted(f, Monomial(f, c, n - 1), q);
      ShiftedCoef(f, Times(f, Monomial(f, c, n - 1), q), k);
      if k <= 0 {
        MulZero(f, c);
      }
    }
  }

  lemma ShiftedCoef<F(!new)>(f: Field<F>, p: seq<F>, k: int)
    ensures k > 0 ==> Coef(f, Shift(f, p), k) == Coef(f, p, k - 1)
    ensures k <= 0 ==> Coef(f, Shift(f, p), k) == f.zero
  {
  }

  /** self == q * den + r */
  ghost predicate IsDivision<F(!new)>(f: Field<F>, p: seq<F>, den: seq<F>, q: seq<F>, r: seq<F>) {
    Same(f, p, Add(f, Times(f, q, den), r))
  }

  lemma NothingDivided<F(!new)>(f: Field<F>, p: seq<F>, den: seq<F>, q: seq<F>)
    requires f.IsField() && Same(f, q, [])
    ensures IsDivision(f, p, den, q, p)
  {
    TimesOfZero(f, q, den);
    forall i
      ensures Coef(f, p, i) == Coef(f, Add(f, Times(f, q, den), p), i)
    {
      CoefAdd(f, Times(f, q, den), p, i);
      assert Coef(f, Times(f, q, den), i) == Coef(f, [], i);
      AddZero(f, Coef(f, p, i));
    }
  }

  /** Moving c * x^shift * den from the remainder to the quotient keeps the division. */
  lemma DivisionSteps<F(!new)>(
      f: Field<F>, p: seq<F>, den: seq<F>, q: seq<F>, r: seq<F>, shift: nat, c: F, subtractee: seq<F>)
    requires f.IsField() && IsDivision(f, p, den, q, r)
    requires shift < |q| && q[shift] == f.zero && Same(f, subtractee, Times(f, Monomial(f, c, shift), den))
    ensures IsDivision(f, p, den, q[shift := c], Sub(f, r, subtractee))
  {
    hide Field.IsField, Times, Monomial;
    var q' := q[shift := c];
    MonomialAdds(f, q, shift, c);
    TimesIsCongruent(f, q', den, Add(f, q, Monomial(f, c, shift)), den);
    TimesOfSum(f, q, Monomial(f, c, shift), den);
    forall i
      ensures Coef(f, p, i) == Coef(f, Add(f, Times(f, q', den), Sub(f, r, subtractee)), i)
    {
      CoefAdd(f, Times(f, q, den), r, i);
      CoefAdd(f, Times(f, q', den), Sub(f, r, subtractee), i);
      CoefAdd(f, Times(f, q, den), Times(f, Monomial(f, c, shift), den), i);
      CoefSub(f, r, subtractee, i);
      MoveAcross(f, Coef(f, Times(f, q, den), i), Coef(f, subtractee, i), Coef(f, r, i));
    }
  }

  lemma MoveAcross<F(!new)>(f: Field<F>, a: F, m: F, r: F)
    requires f.IsField()
    ensures f.add(f.add(a, m), f.Sub(r, m)) == f.add(a, r)
  {
    AddAssoc(f, a, m, f.Sub(r, m));
    SubThenAdd(f, r, m);
  }

  lemma MonomialAdds<F(!new)>(f: Field<F>, q: seq<F>, shift: nat, c: F)
    requires f.IsField() && shift < |q| && q[shift] == f.zero
    ensures Same(f, q[shift := c], Add(f, q, Monomial(f, c, shift)))
  {
    forall i
      ensures Coef(f, q[shift := c], i) == Coef(f, Add(f, q, Monomial(f, c, shift)), i)
    {
      CoefAdd(f, q, Monomial(f, c, shift), i);
      AddZero(f, Coef(f, q, i));
      AddZero(f, c);
    }
  }

  /** The leading term cancels, and nothing above it appears. */
  lemma DegreeDrops<F(!new)>(f: Field<F>, den: seq<F>, r: seq<F>, subtractee: seq<F>)
    requires f.IsField() && 0 <= Degree(f, den) <= Degree(f, r)
    requires var shift, c := Degree(f, r) - Degree(f, den), f.mul(r[Degree(f, r)], f.inv(den[Degree(f, den)]));
      Same(f, subtractee, Times(f, Monomial(f, c, shift), den))
    ensures Degree(f, Sub(f, r, subtractee)) < Degree(f, r)
  {
    hide Field.IsField, Times, Monomial, Degree, Sub;
    var d, n := Degree(f, den), Degree(f, r);
    var lead := den[d];
    var c := f.mul(r[n], f.inv(lead));
    var e := Degree(f, Sub(f, r, subtractee));
    if e >= n {
      MonomialTimes(f, c, n - d, den, e);
      CoefSub(f, r, subtractee, e);
      assert Coef(f, subtractee, e) == f.mul(c, Coef(f, den, e - (n - d)));
      if e == n {
        MulAssoc(f, r[n], f.inv(lead), lead);
        MulInv(f, lead);
        MulOne(f, r[n]);
        AddNeg(f, r[n]);
      } else {
        MulZero(f, c);
        AddNeg(f, f.zero);
      }
    }
  }

  /** __divmod__: fails exactly for the zero denominator; otherwise p == q * den + r with
      the degree of r below that of den. */
  method DivMod<F(==, !new)>(f: Field<F>, p: seq<F>, den: seq<F>) returns (res: Result<(seq<F>, seq<F>)>)
    requires f.IsField()
    ensures (res.Err? <==> Degree(f, den) == -1) && (res.Err? ==> res.failure == ValueError)
    ensures res.Ok? ==> IsDivision(f, p, den, res.value.0, res.value.1) && Degree(f, res.value.1) < Degree(f, den)
  {
    hide Field.IsField, Times, Monomial, Degree, IsDivision, Sub;
    var denDeg, numDeg := Degree(f, den), Degree(f, p);
    if denDeg == -1 {
      return Err(ValueError);
    }
    if numDeg < denDeg {
      ZeroIsEmpty(f);
      NothingDivided(f, p, den, [f.zero]);
      return Ok(([f.zero], p));
    }
    var remainder := p;
    var quotient := seq(numDeg - denDeg + 1, _ => f.zero);
    NothingDivided(f, p, den, quotient);
    var leadInverse := f.inv(den[denDeg]);
    var remDeg := numDeg;
    while remDeg >= denDeg
      invariant remDeg == Degree(f, remainder) <= numDeg && |quotient| == numDeg - denDeg + 1
      invariant IsDivision(f, p, den, quotient, remainder)
      invariant forall k :: 0 <= k <= remDeg - denDeg ==> quotient[k] == f.zero
      decreases remDeg
    {
      var shift := remDeg - denDeg;
      var coefficient := f.mul(remainder[remDeg], leadInverse);
      var subtractee := Mul(f, Monomial(f, coefficient, shift), den);
      DivisionSteps(f, p, den, quotient, remainder, shift, coefficient, subtractee);
      DegreeDrops(f, den, remainder, subtractee);
      quotient := quotient[shift := coefficient];
      remainder := Polynomials.Sub(f, remainder, subtractee);
      remDeg := Degree(f, remainder);
    }
    return Ok((quotient, remainder));
  }

  lemma ZeroIsEmpty<F(!new)>(f: Field<F>)
    ensures Same(f, [f.zero], [])
  {
  }

  // ----- divisibility -----

  ghost predicate IsMultiple<F(!new)>(f: Field<F>, d: seq<F>, k: seq<F>, p: seq<F>) {
    Same(f, p, Times(f, k, d))
  }

  ghost predicate Divides<F(!new)>(f: Field<F>, d: seq<F>, p: seq<F>) {
    exists k :: IsMultiple(f, d, k, p)
  }

  lemma DividesSame<F(!new)>(f: Field<F>, d: seq<F>, p: seq<F>, p': seq<F>)
    requires Divides(f, d, p) && Same(f, p, p')
    ensures Divides(f, d, p')
  {
    var k :| IsMultiple(f, d, k, p);
    assert IsMultiple(f, d, k, p');
  }

  lemma DividesItself<F(!new)>(f: Field<F>, p: seq<F>)
    requires f.IsField()
    ensures Divides(f, p, p)
  {
    forall i
      ensures Coef(f, p, i) == Coef(f, Times(f, [f.one], p), i)
    {
      CoefTimes(f, [f.one], p, i);
      if i >= 0 {
        ConvolutionOfConstant(f, f.one, p, i, i + 1);
        MulOne(f, Coef(f, p, i));
      }
    }
    assert IsMultiple(f, p, [f.one], p);
  }

  lemma DividesZero<F(!new)>(f: Field<F>, d: seq<F>, p: seq<F>)
    requires f.IsField() && Same(f, p, [])
    ensures Divides(f, d, p)
  {
    TimesOfZero(f, [], d);
    assert IsMultiple(f, d, [], p);
  }

  lemma DividesSum<F(!new)>(f: Field<F>, d: seq<F>, p: seq<F>, q: seq<F>)
    requires f.IsField() && Divides(f, d, p) && Divides(f, d, q)
    ensures Divides(f, d, Add(f, p, q))
  {
    hide Field.IsField, Times, Add, Coef;
    var j :| IsMultiple(f, d, j, p);
    var k :| IsMultiple(f, d, k, q);
    TimesOfSum(f, j, k, d);
    AddIsCongruent(f, p, q, Times(f, j, d), Times(f, k, d));
    assert IsMultiple(f, d, Add(f, j, k), Add(f, p, q));
  }

  lemma DividesProduct<F(!new)>(f: Field<F>, d: seq<F>, q: seq<F>, p: seq<F>)
    requires f.IsField() && Divides(f, d, p)
    ensures Divides(f, d, Times(f, q, p))
  {
    hide Field.IsField, Times, Coef;
    var k :| IsMultiple(f, d, k, p);
    TimesIsCongruent(f, q, p, q, Times(f, k, d));
    TimesIsAssociative(f, q, k, d);
    assert IsMultiple(f, d, Times(f, q, k), Times(f, q, p));
  }

  lemma DegreeIsCongruent<F(!new)>(f: Field<F>, p: seq<F>, q: seq<F>)
    requires Same(f, p, q)
    ensures Degree(f, p) == Degree(f, q)
    ensures Degree(f, p) == -1 <==> Same(f, p, [])
  {
    hide Degree;
    var d, e := Degree(f, p), Degree(f, q);
    assert d >= 0 ==> Coef(f, q, d) == p[d];
    assert e >= 0 ==> Coef(f, p, e) == q[e];
    if d == -1 {
      forall i
        ensures Coef(f, p, i) == Coef(f, [], i)
      {
      }
    } else {
      assert Coef(f, p, d) != Coef(f, [], d);
    }
  }

  // ----- the extended Euclidean algorithm -----

  /** r == s * x + t * y */
  ghost predicate IsCombination<F(!new)>(f: Field<F>, x: seq<F>, y: seq<F>, s: seq<F>, t: seq<F>, r: seq<F>) {
    Same(f, r, Add(f, Times(f, s, x), Times(f, t, y)))
  }

  lemma CombinationSteps<F(!new)>(
      f: Field<F>, x: seq<F>, y: seq<F>, s0: seq<F>, t0: seq<F>, r0: seq<F>, s1: seq<F>, t1: seq<F>, r1: seq<F>,
      q: seq<F>, qs: seq<F>, qt: seq<F>, qr: seq<F>)
    requires f.IsField() && IsCombination(f, x, y, s0, t0, r0) && IsCombination(f, x, y, s1, t1, r1)
    requires Same(f, qs, Times(f, q, s1)) && Same(f, qt, Times(f, q, t1)) && Same(f, qr, Times(f, q, r1))
    ensures IsCombination(f, x, y, Polynomials.Sub(f, s0, qs), Polynomials.Sub(f, t0, qt), Polynomials.Sub(f, r0, qr))
  {
    hide Field.IsField, Times, Add, Polynomials.Sub, Coef;
    var s1x, t1y := Times(f, s1, x), Times(f, t1, y);
    TimesOfDifference(f, s0, qs, x);
    TimesOfDifference(f, t0, qt, y);
    TimesIsCongruent(f, qs, x, Times(f, q, s1), x);
    TimesIsCongruent(f, qt, y, Times(f, q, t1), y);
    TimesIsAssociative(f, q, s1, x);
    TimesIsAssociative(f, q, t1, y);
    TimesIsCongruent(f, q, r1, q, Add(f, s1x, t1y));
    TimesOverSum(f, q, s1x, t1y);
    forall i
      ensures Coef(f, Polynomials.Sub(f, r0, qr), i)
        == Coef(f, Add(f, Times(f, Polynomials.Sub(f, s0, qs), x), Times(f, Polynomials.Sub(f, t0, qt), y)), i)
    {
      CoefSub(f, r0, qr, i);
      CoefAdd(f, Times(f, s0, x), Times(f, t0, y), i);
      CoefAdd(f, Times(f, q, s1x), Times(f, q, t1y), i);
      CoefAdd(f, Times(f, Polynomials.Sub(f, s0, qs), x), Times(f, Polynomials.Sub(f, t0, qt), y), i);
      CoefSub(f, Times(f, s0, x), Times(f, qs, x), i);
      CoefSub(f, Times(f, t0, y), Times(f, qt, y), i);
      SubOfSums(f, Coef(f, Times(f, s0, x), i), Coef(f, Times(f, t0, y), i), Coef(f, Times(f, q, s1x), i), Coef(f, Times(f, q, t1y), i));
    }
  }

  lemma SubOfSums<F(!new)>(f: Field<F>, a: F, b: F, c: F, d: F)
    requires f.IsField()
    ensures f.Sub(f.add(a, b), f.add(c, d)) == f.add(f.Sub(a, c), f.Sub(b, d))
  {
    AddInterchange(f, c, d, f.neg(c), f.neg(d));
    AddNeg(f, c);
    AddNeg(f, d);
    AddZero(f, f.zero);
    NegUnique(f, f.add(c, d), f.add(f.neg(c), f.neg(d)));
    AddInterchange(f, a, b, f.neg(c), f.neg(d));
  }

  /** A common divisor of the current pair of remainders divides both inputs. */
  ghost predicate CarriesDivisors<F(!new)>(f: Field<F>, x: seq<F>, y: seq<F>, r0: seq<F>, r1: seq<F>) {
    forall d :: Divides(f, d, r0) && Divides(f, d, r1) ==> Divides(f, d, x) && Divides(f, d, y)
  }

  lemma DivisorsCarryOver<F(!new)>(f: Field<F>, x: seq<F>, y: seq<F>, r0: seq<F>, r1: seq<F>, q: seq<F>, qr: seq<F>)
    requires f.IsField() && CarriesDivisors(f, x, y, r0, r1) && Same(f, qr, Times(f, q, r1))
    ensures CarriesDivisors(f, x, y, r1, Polynomials.Sub(f, r0, qr))
  {
    hide Field.IsField, Times, Add, Polynomials.Sub, Coef, Divides;
    var r2 := Polynomials.Sub(f, r0, qr);
    forall d | Divides(f, d, r1) && Divides(f, d, r2)
      ensures Divides(f, d, x) && Divides(f, d, y)
    {
      DividesProduct(f, d, q, r1);
      DividesSame(f, d, Times(f, q, r1), qr);
      DividesSum(f, d, r2, qr);
      DifferencePlus(f, r0, qr);
      DividesSame(f, d, Add(f, r2, qr), r0);
    }
  }

  /** The new remainder is the one the division found, so its degree drops. */
  lemma RemainderIsRecomputed<F(!new)>(f: Field<F>, p: seq<F>, den: seq<F>, q: seq<F>, r: seq<F>, product: seq<F>)
    requires f.IsField() && IsDivision(f, p, den, q, r) && Same(f, product, Times(f, q, den))
    ensures Same(f, Polynomials.Sub(f, p, product), r)
  {
    hide Field.IsField, Times, Add, Polynomials.Sub, Coef;
    forall i
      ensures Coef(f, Polynomials.Sub(f, p, product), i) == Coef(f, r, i)
    {
      CoefSub(f, p, product, i);
      CoefAdd(f, Times(f, q, den), r, i);
      AddComm(f, Coef(f, product, i), Coef(f, r, i));
      SumMinus(f, Coef(f, r, i), Coef(f, product, i));
    }
  }

  lemma UnitCombinations<F(!new)>(f: Field<F>, x: seq<F>, y: seq<F>)
    requires f.IsField()
    ensures IsCombination(f, x, y, [f.one], [f.zero], x) && IsCombination(f, x, y, [f.zero], [f.one], y)
  {
    ZeroIsEmpty(f);
    TimesOfZero(f, [f.zero], x);
    TimesOfZero(f, [f.zero], y);
    forall i
      ensures Coef(f, x, i) == Coef(f, Add(f, Times(f, [f.one], x), Times(f, [f.zero], y)), i)
      ensures Coef(f, y, i) == Coef(f, Add(f, Times(f, [f.zero], x), Times(f, [f.one], y)), i)
    {
      OneTimes(f, x, i);
      OneTimes(f, y, i);
      CoefAdd(f, Times(f, [f.one], x), Times(f, [f.zero], y), i);
      CoefAdd(f, Times(f, [f.zero], x), Times(f, [f.one], y), i);
      assert Coef(f, Times(f, [f.zero], x), i) == Coef(f, [], i) && Coef(f, Times(f, [f.zero], y), i) == Coef(f, [], i);
      AddZero(f, Coef(f, x, i));
      AddZero(f, Coef(f, y, i));
    }
  }

  lemma OneTimes<F(!new)>(f: Field<F>, p: seq<F>, i: int)
    requires f.IsField()
    ensures Coef(f, Times(f, [f.one], p), i) == Coef(f, p, i)
  {
    CoefTimes(f, [f.one], p, i);
    if i >= 0 {
      ConvolutionOfConstant(f, f.one, p, i, i + 1);
      MulOne(f, Coef(f, p, i));
    }
  }

  /** g is a greatest common divisor in normal form: monic, dividing both, and a combination of them. */
  ghost predicate IsMonicGcd<F(!new)>(f: Field<F>, x: seq<F>, y: seq<F>, a: seq<F>, b: seq<F>, g: seq<F>) {
    && Degree(f, g) >= 0 && g[Degree(f, g)] == f.one
    && Divides(f, g, x) && Divides(f, g, y)
    && IsCombination(f, x, y, a, b, g)
  }

  /** The state of xgcd: two combinations of the inputs whose common divisors divide the inputs. */
  ghost predicate Progress<F(!new)>(
      f: Field<F>, x: seq<F>, y: seq<F>, s0: seq<F>, t0: seq<F>, r0: seq<F>, s1: seq<F>, t1: seq<F>, r1: seq<F>)
  {
    IsCombination(f, x, y, s0, t0, r0) && IsCombination(f, x, y, s1, t1, r1) && CarriesDivisors(f, x, y, r0, r1)
  }

  lemma ProgressSteps<F(!new)>(
      f: Field<F>, x: seq<F>, y: seq<F>, s0: seq<F>, t0: seq<F>, r0: seq<F>, s1: seq<F>, t1: seq<F>, r1: seq<F>,
      q: seq<F>, rem: seq<F>, qs: seq<F>, qt: seq<F>, qr: seq<F>)
    requires f.IsField() && Progress(f, x, y, s0, t0, r0, s1, t1, r1)
    requires IsDivision(f, r0, r1, q, rem) && Degree(f, rem) < Degree(f, r1)
    requires Same(f, qs, Times(f, q, s1)) && Same(f, qt, Times(f, q, t1)) && Same(f, qr, Times(f, q, r1))
    ensures Progress(f, x, y, s1, t1, r1, Polynomials.Sub(f, s0, qs), Polynomials.Sub(f, t0, qt), Polynomials.Sub(f, r0, qr))
    ensures Degree(f, Polynomials.Sub(f, r0, qr)) < Degree(f, r1)
  {
    hide Field.IsField, Times, Add, Polynomials.Sub, Coef, Divides, IsCombination, CarriesDivisors, Degree, IsDivision;
    CombinationSteps(f, x, y, s0, t0, r0, s1, t1, r1, q, qs, qt, qr);
    DivisorsCarryOver(f, x, y, r0, r1, q, qr);
    RemainderIsRecomputed(f, r0, r1, q, rem, qr);
    DegreeIsCongruent(f, Polynomials.Sub(f, r0, qr), rem);
  }

  /** Dividing by the leading coefficient makes the last remainder the monic gcd. */
  lemma NormalizedGcd<F(!new)>(f: Field<F>, x: seq<F>, y: seq<F>, s: seq<F>, t: seq<F>, r: seq<F>, c: F)
    requires f.IsField() && IsCombination(f, x, y, s, t, r) && Divides(f, r, x) && Divides(f, r, y)
    requires Degree(f, r) >= 0 && c == f.inv(r[Degree(f, r)])
    ensures IsMonicGcd(f, x, y, Scale(f, s, c), Scale(f, t, c), Scale(f, r, c))
  {
    hide Field.IsField, Times, Add, Divides, Degree, IsDivision;
    var d, lead, g := Degree(f, r), r[Degree(f, r)], Scale(f, r, c);
    MulInv(f, lead);
    MulZero(f, lead);
    OneIsNotZero(f);
    ScaledDegree(f, r, c);
    ScaledDivides(f, r, c, lead, x);
    ScaledDivides(f, r, c, lead, y);
    TimesOfScaled(f, s, c, x);
    TimesOfScaled(f, t, c, y);
    forall i
      ensures Coef(f, g, i) == Coef(f, Add(f, Times(f, Scale(f, s, c), x), Times(f, Scale(f, t, c), y)), i)
    {
      CoefScale(f, r, c, i);
      CoefAdd(f, Times(f, s, x), Times(f, t, y), i);
      CoefAdd(f, Times(f, Scale(f, s, c), x), Times(f, Scale(f, t, c), y), i);
      CoefScale(f, Times(f, s, x), c, i);
      CoefScale(f, Times(f, t, y), c, i);
      Distrib(f, c, Coef(f, Times(f, s, x), i), Coef(f, Times(f, t, y), i));
    }
  }

  lemma OneIsNotZero<F(!new)>(f: Field<F>)
    requires f.IsField()
    ensures f.one != f.zero
  {
  }

  lemma ScaledDegree<F(!new)>(f: Field<F>, r: seq<F>, c: F)
    requires f.IsField() && c != f.zero
    ensures Degree(f, Scale(f, r, c)) == Degree(f, r)
  {
    hide Field.IsField, Degree;
    var d, e := Degree(f, r), Degree(f, Scale(f, r, c));
    if d >= 0 {
      NoZeroDivisors(f, r[d], c);
      assert Coef(f, Scale(f, r, c), d) == f.mul(r[d], c);
    }
    MulZero(f, c);
    assert e > d ==> Coef(f, r, e) == f.zero;
  }

  lemma {:induction false} ConvolutionByScaled<F(!new)>(f: Field<F>, p: seq<F>, q: seq<F>, c: F, k: int, n: nat)
    requires f.IsField()
    ensures Convolution(f, p, Scale(f, q, c), k, n) == f.mul(Convolution(f, p, q, k, n), c)
  {
    if n == 0 {
      MulZero(f, c);
    } else {
      ConvolutionByScaled(f, p, q, c, k, n - 1);
      var a, b := Coef(f, p, n - 1), Coef(f, q, k - (n - 1));
      CoefScale(f, q, c, k - (n - 1));
      MulAssoc(f, a, b, c);
      Distrib(f, c, Convolution(f, p, q, k, n - 1), f.mul(a, b));
    }
  }

  /** If r divides x, so does every nonzero scaling of r. */
  lemma ScaledDivides<F(!new)>(f: Field<F>, r: seq<F>, c: F, lead: F, x: seq<F>)
    requires f.IsField() && Divides(f, r, x) && f.mul(c, lead) == f.one
    ensures Divides(f, Scale(f, r, c), x)
  {
    hide Field.IsField, Times;
    var k :| IsMultiple(f, r, k, x);
    var k', g := Scale(f, k, lead), Scale(f, r, c);
    forall i
      ensures Coef(f, x, i) == Coef(f, Times(f, k', g), i)
    {
      CoefTimes(f, k', g, i);
      CoefTimes(f, k, r, i);
      if i >= 0 {
        ConvolutionOfScaled(f, k, lead, g, i, i + 1);
        ConvolutionByScaled(f, k, r, c, i, i + 1);
        var v := Convolution(f, k, r, i, i + 1);
        MulAssoc(f, v, c, lead);
        MulOne(f, v);
      }
    }
    assert IsMultiple(f, g, k', x);
  }

  /** xgcd: fails exactly when both inputs are the zero polynomial; otherwise returns the
      monic greatest common divisor with its coefficients. */
  method Xgcd<F(==, !new)>(f: Field<F>, x: seq<F>, y: seq<F>) returns (res: Result<(seq<F>, seq<F>, seq<F>)>)
    requires f.IsField()
    ensures (res.Err? <==> Degree(f, x) == -1 && Degree(f, y) == -1) && (res.Err? ==> res.failure == ValueError)
    ensures res.Ok? ==> IsMonicGcd(f, x, y, res.value.0, res.value.1, res.value.2)
  {
    hide Field.IsField, Times, Add, Polynomials.Sub, Coef, Degree, Divides, IsCombination, CarriesDivisors, IsDivision, Scale, IsMonicGcd, Same;
    var oldR, r, oldS, s, oldT, t := x, y, [f.one], [f.zero], [f.zero], [f.one];
    StartOfXgcd(f, x, y);
    while Degree(f, r) != -1
      invariant Progress(f, x, y, oldS, oldT, oldR, s, t, r)
      invariant Degree(f, r) == -1 && Degree(f, oldR) == -1 ==> Degree(f, x) == -1 && Degree(f, y) == -1
      invariant Degree(f, x) == -1 && Degree(f, y) == -1 ==> Degree(f, oldR) == -1
      decreases Degree(f, r)
    {
      var division := DivMod(f, oldR, r);
      var quotient := division.value.0;
      var qr := Mul(f, quotient, r);
      var qs := Mul(f, quotient, s);
      var qt := Mul(f, quotient, t);
      ProgressSteps(f, x, y, oldS, oldT, oldR, s, t, r, quotient, division.value.1, qs, qt, qr);
      ZeroInputs(f, x, y, s, t, r);
      oldR, r := r, Polynomials.Sub(f, oldR, qr);
      oldS, s := s, Polynomials.Sub(f, oldS, qs);
      oldT, t := t, Polynomials.Sub(f, oldT, qt);
    }
    var d := Degree(f, oldR);
    if d == -1 {
      return Err(ValueError);
    }
    var leadInverse := f.inv(oldR[d]);
    LastRemainderDivides(f, x, y, oldR, r);
    NormalizedGcd(f, x, y, oldS, oldT, oldR, leadInverse);
    return Ok((Scale(f, oldS, leadInverse), Scale(f, oldT, leadInverse), Scale(f, oldR, leadInverse)));
  }

  lemma StartOfXgcd<F(!new)>(f: Field<F>, x: seq<F>, y: seq<F>)
    requires f.IsField()
    ensures Progress(f, x, y, [f.one], [f.zero], x, [f.zero], [f.one], y)
  {
    UnitCombinations(f, x, y);
  }

  /** Combinations of zero are zero. */
  lemma ZeroInputs<F(!new)>(f: Field<F>, x: seq<F>, y: seq<F>, s: seq<F>, t: seq<F>, r: seq<F>)
    requires f.IsField() && IsCombination(f, x, y, s, t, r)
    ensures Degree(f, x) == -1 && Degree(f, y) == -1 ==> Degree(f, r) == -1
  {
    hide Field.IsField, Times, Add, Coef, Degree;
    DegreeIsCongruent(f, x, x);
    DegreeIsCongruent(f, y, y);
    if Degree(f, x) == -1 && Degree(f, y) == -1 {
      forall i
        ensures Coef(f, r, i) == Coef(f, [], i)
      {
        TimesByZero(f, s, x, i);
        TimesByZero(f, t, y, i);
        CoefAdd(f, Times(f, s, x), Times(f, t, y), i);
        AddZero(f, f.zero);
        CoefOfEmpty(f, i);
      }
      DegreeIsCongruent(f, r, []);
    }
  }

  lemma CoefOfEmpty<F(!new)>(f: Field<F>, i: int)
    ensures Coef(f, [], i) == f.zero
  {
  }

  lemma TimesByZero<F(!new)>(f: Field<F>, s: seq<F>, x: seq<F>, i: int)
    requires f.IsField() && Same(f, x, [])
    ensures Coef(f, Times(f, s, x), i) == f.zero
  {
    TimesIsCongruent(f, s, x, s, []);
    EmptyProduct(f, s, []);
    assert Coef(f, Times(f, s, []), i) == Coef(f, [f.zero], i);
  }

  lemma ZeroTimes<F(!new)>(f: Field<F>, s: seq<F>, x: seq<F>, i: int)
    requires f.IsField() && Same(f, s, [])
    ensures Coef(f, Times(f, s, x), i) == f.zero
  {
    TimesOfZero(f, s, x);
    assert Coef(f, Times(f, s, x), i) == Coef(f, [], i);
  }

  lemma LastRemainderDivides<F(!new)>(f: Field<F>, x: seq<F>, y: seq<F>, r0: seq<F>, r1: seq<F>)
    requires f.IsField() && CarriesDivisors(f, x, y, r0, r1) && Degree(f, r1) == -1
    ensures Divides(f, r0, x) && Divides(f, r0, y)
  {
    hide Degree;
    DividesItself(f, r0);
    DegreeIsCongruent(f, r1, r1);
    DividesZero(f, r0, r1);
  }

  // ----- inversion -----

  lemma {:induction false} TopConvolution<F(!new)>(f: Field<F>, p: seq<F>, q: seq<F>, n: nat)
    requires f.IsField() && Degree(f, p) >= 0 && Degree(f, q) >= 0
    ensures Convolution(f, p, q, Degree(f, p) + Degree(f, q), n)
      == if n <= Degree(f, p) then f.zero else f.mul(p[Degree(f, p)], q[Degree(f, q)])
  {
    hide Degree;
    if n > 0 {
      var a, b := Degree(f, p), Degree(f, q);
      var i := n - 1;
      TopConvolution(f, p, q, i);
      AddZero(f, f.zero);
      AddZero(f, f.mul(p[a], q[b]));
      MulZero(f, Coef(f, p, i));
      MulZero(f, Coef(f, q, a + b - i));
      assert i < a ==> Coef(f, q, a + b - i) == f.zero;
    }
  }

  /** Degrees add, so only constants divide a constant. */
  lemma DivisorOfOne<F(!new)>(f: Field<F>, d: seq<F>)
    requires f.IsField() && Divides(f, d, [f.one])
    ensures Degree(f, d) == 0
  {
    hide Degree, Times;
    OneIsNotZero(f);
    var k :| IsMultiple(f, d, k, [f.one]);
    DegreeIsCongruent(f, k, k);
    DegreeIsCongruent(f, d, d);
    assert Coef(f, Times(f, k, d), 0) == Coef(f, [f.one], 0) == f.one;
    if Degree(f, k) == -1 {
      ZeroTimes(f, k, d, 0);
    } else if Degree(f, d) == -1 {
      TimesByZero(f, k, d, 0);
    } else {
      var a, b := Degree(f, k), Degree(f, d);
      TopConvolution(f, k, d, a + b + 1);
      CoefTimes(f, k, d, a + b);
      NoZeroDivisors(f, k[a], d[b]);
      assert Coef(f, Times(f, k, d), a + b) == Coef(f, [f.one], a + b);
    }
  }

  /** Some multiple of x is 1 modulo m. */
  ghost predicate IsInvertible<F(!new)>(f: Field<F>, x: seq<F>, m: seq<F>) {
    exists a, b :: IsCombination(f, x, m, a, b, [f.one])
  }

  lemma GcdOfInvertible<F(!new)>(f: Field<F>, x: seq<F>, m: seq<F>, a: seq<F>, b: seq<F>, g: seq<F>)
    requires f.IsField() && IsMonicGcd(f, x, m, a, b, g)
    ensures IsInvertible(f, x, m) <==> Degree(f, g) == 0
    ensures Degree(f, g) == 0 ==> IsCombination(f, x, m, a, b, [f.one])
  {
    hide Times, Add, Degree, Divides;
    if Degree(f, g) == 0 {
      forall i
        ensures Coef(f, g, i) == Coef(f, [f.one], i)
      {
        CoefOfEmpty(f, i);
      }
      assert IsCombination(f, x, m, a, b, [f.one]);
    }
    if IsInvertible(f, x, m) {
      var u, v :| IsCombination(f, x, m, u, v, [f.one]);
      DividesProduct(f, g, u, x);
      DividesProduct(f, g, v, m);
      DividesSum(f, g, Times(f, u, x), Times(f, v, m));
      DividesSame(f, g, Add(f, Times(f, u, x), Times(f, v, m)), [f.one]);
      DivisorOfOne(f, g);
    }
  }

  /** inv: the zero polynomial is rejected; otherwise it succeeds exactly on polynomials that
      are invertible modulo m, and the result is such an inverse. */
  method Inv<F(==, !new)>(f: Field<F>, x: seq<F>, m: seq<F>) returns (res: Result<seq<F>>)
    requires f.IsField()
    ensures res.Ok? <==> Degree(f, x) != -1 && IsInvertible(f, x, m)
    ensures res.Err? ==> res.failure == if Degree(f, x) == -1 then ValueError else AssertionError
    ensures res.Ok? ==> exists b :: IsCombination(f, x, m, res.value, b, [f.one])
  {
    hide Degree, IsInvertible, IsCombination, Divides;
    if Degree(f, x) == -1 {
      return Err(ValueError);
    }
    var gcd := Xgcd(f, x, m);
    var (a, b, g) := gcd.value;
    GcdOfInvertible(f, x, m, a, b, g);
    if !(Degree(f, g) == 0 && g[0] == f.one) {
      return Err(AssertionError);
    }
    return Ok(a);
  }

  // ----- evaluation and interpolation -----

  /** evaluate: a running power and a running sum. */
  method Evaluate<F(!new)>(f: Field<F>, p: seq<F>, point: F) returns (value: F)
    requires f.IsField()
    ensures value == PolyValue(f, p, point)
  {
    var xi := f.one;
    value := f.zero;
    for i := 0 to |p|
      invariant xi == Power(f, point, i) && value == PolyValue(f, p[..i], point)
    {
      PolySnoc(f, p[..i], p[i], point);
      assert p[..i] + [p[i]] == p[..i + 1];
      value := f.add(value, f.mul(p[i], xi));
      xi := f.mul(xi, point);
    }
    assert p[..|p|] == p;
  }

  lemma ValueOfLinear<F(!new)>(f: Field<F>, d: F, z: F)
    requires f.IsField()
    ensures PolyValue(f, Polynomials.Sub(f, [f.zero, f.one], [d]), z) == f.Sub(z, d)
  {
    var p := Polynomials.Sub(f, [f.zero, f.one], [d]);
    assert p == [f.Sub(f.zero, d), f.one];
    assert p[1..] == [f.one] && p[1..][1..] == [];
    LastCoefficient(f, p, z);
    MulOne(f, z);
    AddZero(f, f.neg(d));
    AddComm(f, f.neg(d), z);
  }

  lemma ValueOfConstant<F(!new)>(f: Field<F>, c: F, z: F)
    requires f.IsField()
    ensures PolyValue(f, [c], z) == c
  {
    LastCoefficient(f, [c], z);
  }

  /** One factor (X - d_j)/(d_i - d_j) of a basis polynomial. */
  method BasisFactor<F(==, !new)>(f: Field<F>, prod: seq<F>, di: F, dj: F) returns (r: seq<F>)
    requires f.IsField() && di != dj && prod != []
    ensures forall z :: PolyValue(f, r, z) == f.mul(f.mul(PolyValue(f, prod, z), f.Sub(z, dj)), f.inv(f.Sub(di, dj)))
    ensures r != [] && |r| <= |prod| + 1
  {
    var linear := Polynomials.Sub(f, [f.zero, f.one], [dj]);
    var step := Mul(f, prod, linear);
    r := Mul(f, step, [f.inv(f.Sub(di, dj))]);
    hide Times, PolyValue, Polynomials.Sub;
    forall z
      ensures PolyValue(f, r, z) == f.mul(f.mul(PolyValue(f, prod, z), f.Sub(z, dj)), f.inv(f.Sub(di, dj)))
    {
      ValueIsCongruent(f, step, Times(f, prod, linear), z);
      ValueOfProduct(f, prod, linear, z);
      ValueOfLinear(f, dj, z);
      ValueIsCongruent(f, r, Times(f, step, [f.inv(f.Sub(di, dj))]), z);
      ValueOfProduct(f, step, [f.inv(f.Sub(di, dj))], z);
      ValueOfConstant(f, f.inv(f.Sub(di, dj)), z);
    }
  }

  lemma FactorValues<F(!new)>(f: Field<F>, v: F, di: F, dj: F)
    requires f.IsField() && di != dj
    ensures f.mul(f.mul(v, f.Sub(di, dj)), f.inv(f.Sub(di, dj))) == v
    ensures f.mul(f.mul(v, f.Sub(dj, dj)), f.inv(f.Sub(di, dj))) == f.zero
  {
    var d := f.Sub(di, dj);
    SubThenAdd(f, di, dj);
    AddZero(f, dj);
    AddNeg(f, dj);
    MulAssoc(f, v, d, f.inv(d));
    MulInv(f, d);
    MulOne(f, v);
    MulZero(f, v);
    MulZero(f, f.inv(d));
  }

  lemma ZeroTimesFactor<F(!new)>(f: Field<F>, a: F, b: F)
    requires f.IsField()
    ensures f.mul(f.mul(f.zero, a), b) == f.zero
  {
    MulZero(f, a);
    MulZero(f, b);
  }

  /** values[i] times the i-th basis polynomial; a repeated point makes a difference zero. */
  method BasisPolynomial<F(==, !new)>(f: Field<F>, domain: seq<F>, values: seq<F>, i: nat) returns (res: Option<seq<F>>)
    requires f.IsField() && i < |domain| == |values|
    ensures res.Some? <==> forall j :: 0 <= j < |domain| && j != i ==> domain[j] != domain[i]
    ensures res.Some? ==> forall k :: 0 <= k < |domain| ==>
      PolyValue(f, res.value, domain[k]) == if k == i then values[i] else f.zero
    ensures res.Some? ==> res.value != [] && |res.value| <= |domain|
  {
    hide PolyValue, Polynomials.Sub;
    var prod := [values[i]];
    ValueOfConstant(f, values[i], domain[i]);
    for j := 0 to |domain|
      invariant prod != [] && |prod| <= 1 + j - (if i < j then 1 else 0)
      invariant forall k :: 0 <= k < j && k != i ==> domain[k] != domain[i]
      invariant PolyValue(f, prod, domain[i]) == values[i]
      invariant forall k :: 0 <= k < j && k != i ==> PolyValue(f, prod, domain[k]) == f.zero
    {
      if j != i {
        if domain[i] == domain[j] {
          return None;
        }
        ghost var before := prod;
        prod := BasisFactor(f, prod, domain[i], domain[j]);
        FactorValues(f, values[i], domain[i], domain[j]);
        FactorValues(f, PolyValue(f, before, domain[j]), domain[i], domain[j]);
        forall k | 0 <= k < j && k != i
          ensures PolyValue(f, prod, domain[k]) == f.zero
        {
          ZeroTimesFactor(f, f.Sub(domain[k], domain[j]), f.inv(f.Sub(domain[i], domain[j])));
        }
      }
    }
    return Some(prod);
  }

  ghost predicate IsDistinct<F(!new)>(points: seq<F>) {
    forall i, j :: 0 <= i < j < |points| ==> points[i] != points[j]
  }

  /** lagrange_interpolation: succeeds exactly on as many values as points, at least one and
      all distinct; the result has degree below the number of points and passes through all. */
  method LagrangeInterpolation<F(==, !new)>(f: Field<F>, domain: seq<F>, values: seq<F>) returns (res: Result<seq<F>>)
    requires f.IsField()
    ensures res.Ok? <==> |domain| == |values| > 0 && IsDistinct(domain)
    ensures res.Err? ==> res.failure == if |domain| == |values| > 0 then ValueError else AssertionError
    ensures res.Ok? ==> Degree(f, res.value) < |domain|
    ensures res.Ok? ==> forall k :: 0 <= k < |domain| ==> PolyValue(f, res.value, domain[k]) == values[k]
  {
    hide PolyValue, Polynomials.Add;
    if |domain| != |values| || |domain| == 0 {
      return Err(AssertionError);
    }
    var acc := [f.zero];
    forall k | 0 <= k < |domain|
      ensures PolyValue(f, acc, domain[k]) == f.zero
    {
      ValueOfConstant(f, f.zero, domain[k]);
    }
    for i := 0 to |domain|
      invariant |acc| <= |domain|
      invariant forall k, j :: 0 <= k < i && 0 <= j < |domain| && j != k ==> domain[j] != domain[k]
      invariant forall k :: 0 <= k < |domain| ==> PolyValue(f, acc, domain[k]) == if k < i then values[k] else f.zero
    {
      var prod := BasisPolynomial(f, domain, values, i);
      if prod.None? {
        return Err(ValueError);
      }
      SumLength(f, acc, prod.value);
      ghost var before := acc;
      acc := Polynomials.Add(f, acc, prod.value);
      forall k | 0 <= k < |domain|
        ensures PolyValue(f, acc, domain[k]) == if k < i + 1 then values[k] else f.zero
      {
        ValueOfSum(f, before, prod.value, domain[k]);
        AddZero(f, values[k]);
        AddZero(f, f.zero);
      }
    }
    return Ok(acc);
  }

  lemma SumLength<F(!new)>(f: Field<F>, p: seq<F>, q: seq<F>)
    ensures |Polynomials.Add(f, p, q)| == if |p| >= |q| then |p| else |q|
  {
  }
}
