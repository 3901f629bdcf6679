/** Polynomials over a field as lists of coefficients, constant coefficient first.
    Lists that differ only in trailing zeros denote the same polynomial. */
module Polynomials {
  import opened Fields
  import opened Results

  function Coef<F(!new)>(f: Field<F>, p: seq<F>, i: int): F {
    if 0 <= i < |p| then p[i] else f.zero
  }

  ghost predicate Same<F(!new)>(f: Field<F>, p: seq<F>, q: seq<F>) {
    forall i :: Coef(f, p, i) == Coef(f, q, i)
  }

  /** degree(): -1 for the zero polynomial. */
  function Degree<F(==, !new)>(f: Field<F>, p: seq<F>): (d: int)
    ensures -1 <= d < |p|
    ensures d >= 0 ==> p[d] != f.zero
    ensures forall i :: d < i ==> Coef(f, p, i) == f.zero
  {
    if p == [] then -1
    else if p[|p| - 1] != f.zero then |p| - 1
    else
      var d := Degree(f, p[..|p| - 1]);
      assert forall i :: d < i ==> Coef(f, p, i) == Coef(f, p[..|p| - 1], i);
      d
  }

  function Add<F(!new)>(f: Field<F>, p: seq<F>, q: seq<F>): seq<F> {
    if |p| >= |q| then seq(|p|, i requires 0 <= i < |p| => if i < |q| then f.add(p[i], q[i]) else p[i])
    else seq(|q|, i requires 0 <= i < |q| => if i < |p| then f.add(q[i], p[i]) else q[i])
  }

  function Sub<F(!new)>(f: Field<F>, p: seq<F>, q: seq<F>): seq<F> {
    if |p| >= |q| then seq(|p|, i requires 0 <= i < |p| => if i < |q| then f.Sub(p[i], q[i]) else p[i])
    else seq(|q|, i requires 0 <= i < |q| => if i < |p| then f.Sub(p[i], q[i]) else f.neg(q[i]))
  }

  function Scale<F(!new)>(f: Field<F>, p: seq<F>, c: F): seq<F> {
    seq(|p|, i requires 0 <= i < |p| => f.mul(p[i], c))
  }

  lemma CoefAdd<F(!new)>(f: Field<F>, p: seq<F>, q: seq<F>, i: int)
    requires f.IsField()
    ensures Coef(f, Add(f, p, q), i) == f.add(Coef(f, p, i), Coef(f, q, i))
  {
    AddZero(f, Coef(f, p, i));
    AddZero(f, Coef(f, q, i));
    AddComm(f, Coef(f, p, i), Coef(f, q, i));
  }

  lemma CoefSub<F(!new)>(f: Field<F>, p: seq<F>, q: seq<F>, i: int)
    requires f.IsField()
    ensures Coef(f, Sub(f, p, q), i) == f.Sub(Coef(f, p, i), Coef(f, q, i))
  {
    AddNeg(f, f.zero);
    NegUnique(f, f.zero, f.zero) by { AddZero(f, f.zero); }
    AddZero(f, Coef(f, p, i));
    AddZero(f, f.neg(Coef(f, q, i)));
  }

  lemma CoefScale<F(!new)>(f: Field<F>, p: seq<F>, c: F, i: int)
    requires f.IsField()
    ensures Coef(f, Scale(f, p, c), i) == f.mul(Coef(f, p, i), c)
  {
    MulZero(f, c);
  }

  // ----- products -----

  /** The first n terms of the coefficient of x^k in p*q. */
  function Convolution<F(!new)>(f: Field<F>, p: seq<F>, q: seq<F>, k: int, n: nat): F {
    if n == 0 then f.zero
    else f.add(Convolution(f, p, q, k, n - 1), f.mul(Coef(f, p, n - 1), Coef(f, q, k - (n - 1))))
  }

  /** The coefficient of x^k in p*q. */
  function ProductCoef<F(!new)>(f: Field<F>, p: seq<F>, q: seq<F>, k: int): F {
    if k < 0 then f.zero else Convolution(f, p, q, k, k + 1)
  }

  /** The product, untrimmed. */
  function Times<F(!new)>(f: Field<F>, p: seq<F>, q: seq<F>): seq<F> {
    seq(|p| + |q|, k requires 0 <= k < |p| + |q| => ProductCoef(f, p, q, k))
  }

  lemma {:induction false} ConvolutionVanishes<F(!new)>(f: Field<F>, p: seq<F>, q: seq<F>, k: int, n: nat)
    requires f.IsField() && k >= |p| + |q|
    ensures Convolution(f, p, q, k, n) == f.zero
  {
    if n > 0 {
      ConvolutionVanishes(f, p, q, k, n - 1);
      MulZero(f, Coef(f, p, n - 1));
      MulZero(f, Coef(f, q, k - (n - 1)));
      AddZero(f, f.zero);
    }
  }

  lemma CoefTimes<F(!new)>(f: Field<F>, p: seq<F>, q: seq<F>, k: int)
    requires f.IsField()
    ensures Coef(f, Times(f, p, q), k) == ProductCoef(f, p, q, k)
  {
    if k >= |p| + |q| {
      ConvolutionVanishes(f, p, q, k, k + 1);
    }
  }

  lemma {:induction false} ConvolutionIsCongruent<F(!new)>(f: Field<F>, p: seq<F>, q: seq<F>, p': seq<F>, q': seq<F>, k: int, n: nat)
    requires Same(f, p, p') && Same(f, q, q')
    ensures Convolution(f, p, q, k, n) == Convolution(f, p', q', k, n)
  {
    if n > 0 {
      ConvolutionIsCongruent(f, p, q, p', q', k, n - 1);
    }
  }

  lemma TimesIsCongruent<F(!new)>(f: Field<F>, p: seq<F>, q: seq<F>, p': seq<F>, q': seq<F>)
    requires f.IsField() && Same(f, p, p') && Same(f, q, q')
    ensures Same(f, Times(f, p, q), Times(f, p', q'))
  {
    forall k
      ensures Coef(f, Times(f, p, q), k) == Coef(f, Times(f, p', q'), k)
    {
      CoefTimes(f, p, q, k);
      CoefTimes(f, p', q', k);
      if k >= 0 {
        ConvolutionIsCongruent(f, p, q, p', q', k, k + 1);
      }
    }
  }

  lemma {:induction false} ConvolutionOfSum<F(!new)>(f: Field<F>, p: seq<F>, p': seq<F>, q: seq<F>, k: int, n: nat)
    requires f.IsField()
    ensures Convolution(f, Add(f, p, p'), q, k, n) == f.add(Convolution(f, p, q, k, n), Convolution(f, p', q, k, n))
  {
    hide Add, Coef;
    if n == 0 {
      AddZero(f, f.zero);
    } else {
      ConvolutionOfSum(f, p, p', q, k, n - 1);
      var a, a', b := Coef(f, p, n - 1), Coef(f, p', n - 1), Coef(f, q, k - (n - 1));
      CoefAdd(f, p, p', n - 1);
      Distrib(f, b, a, a');
      AddInterchange(f, Convolution(f, p, q, k, n - 1), Convolution(f, p', q, k, n - 1), f.mul(a, b), f.mul(a', b));
    }
  }

  lemma TimesOfSum<F(!new)>(f: Field<F>, p: seq<F>, p': seq<F>, q: seq<F>)
    requires f.IsField()
    ensures Same(f, Times(f, Add(f, p, p'), q), Add(f, Times(f, p, q), Times(f, p', q)))
  {
    forall k
      ensures Coef(f, Times(f, Add(f, p, p'), q), k) == Coef(f, Add(f, Times(f, p, q), Times(f, p', q)), k)
    {
      CoefTimes(f, Add(f, p, p'), q, k);
      CoefAdd(f, Times(f, p, q), Times(f, p', q), k);
      CoefTimes(f, p, q, k);
      CoefTimes(f, p', q, k);
      if k >= 0 {
        ConvolutionOfSum(f, p, p', q, k, k + 1);
      } else {
        AddZero(f, f.zero);
      }
    }
  }

  lemma {:induction false} ConvolutionOfScaled<F(!new)>(f: Field<F>, p: seq<F>, c: F, q: seq<F>, k: int, n: nat)
    requires f.IsField()
    ensures Convolution(f, Scale(f, p, c), q, k, n) == f.mul(Convolution(f, p, q, k, n), c)
  {
    if n == 0 {
      MulZero(f, c);
    } else {
      ConvolutionOfScaled(f, p, c, q, k, n - 1);
      var a, b := Coef(f, p, n - 1), Coef(f, q, k - (n - 1));
      CoefScale(f, p, c, n - 1);
      MulAssoc(f, a, c, b);
      MulComm(f, c, b);
      MulAssoc(f, a, b, c);
      Distrib(f, c, Convolution(f, p, q, k, n - 1), f.mul(a, b));
    }
  }

  lemma TimesOfScaled<F(!new)>(f: Field<F>, p: seq<F>, c: F, q: seq<F>)
    requires f.IsField()
    ensures Same(f, Times(f, Scale(f, p, c), q), Scale(f, Times(f, p, q), c))
  {
    forall k
      ensures Coef(f, Times(f, Scale(f, p, c), q), k) == Coef(f, Scale(f, Times(f, p, q), c), k)
    {
      CoefTimes(f, Scale(f, p, c), q, k);
      CoefScale(f, Times(f, p, q), c, k);
      CoefTimes(f, p, q, k);
      if k >= 0 {
        ConvolutionOfScaled(f, p, c, q, k, k + 1);
      } else {
        MulZero(f, c);
      }
    }
  }

  function Shift<F(!new)>(f: Field<F>, p: seq<F>): seq<F> {
    [f.zero] + p
  }

  lemma {:induction false} ConvolutionOfShifted<F(!new)>(f: Field<F>, p: seq<F>, q: seq<F>, k: int, n: nat)
    requires f.IsField()
    ensures Convolution(f, Shift(f, p), q, k, n + 1) == Convolution(f, p, q, k - 1, n)
  {
    if n == 0 {
      MulZero(f, Coef(f, q, k));
      AddZero(f, f.zero);
      assert Convolution(f, Shift(f, p), q, k, 0) == f.zero;
    } else {
      ConvolutionOfShifted(f, p, q, k, n - 1);
      assert Coef(f, Shift(f, p), n) == Coef(f, p, n - 1);
    }
  }

  lemma TimesOfShifted<F(!new)>(f: Field<F>, p: seq<F>, q: seq<F>)
    requires f.IsField()
    ensures Same(f, Times(f, Shift(f, p), q), Shift(f, Times(f, p, q)))
  {
    forall k
      ensures Coef(f, Times(f, Shift(f, p), q), k) == Coef(f, Shift(f, Times(f, p, q)), k)
    {
      CoefTimes(f, Shift(f, p), q, k);
      CoefTimes(f, p, q, k - 1);
      if k >= 0 {
        ConvolutionOfShifted(f, p, q, k, k);
      }
    }
  }

  /** A polynomial is its constant coefficient plus x times the rest. */
  lemma HeadAndTail<F(!new)>(f: Field<F>, p: seq<F>)
    requires f.IsField() && p != []
    ensures Same(f, p, Add(f, [p[0]], Shift(f, p[1..])))
  {
    forall i
      ensures Coef(f, p, i) == Coef(f, Add(f, [p[0]], Shift(f, p[1..])), i)
    {
      CoefAdd(f, [p[0]], Shift(f, p[1..]), i);
      AddZero(f, Coef(f, p, i));
      AddZero(f, f.zero);
    }
  }

  lemma {:induction false} ConvolutionOfConstant<F(!new)>(f: Field<F>, c: F, q: seq<F>, k: int, n: nat)
    requires f.IsField() && n > 0
    ensures Convolution(f, [c], q, k, n) == f.mul(c, Coef(f, q, k))
  {
    if n == 1 {
      assert Convolution(f, [c], q, k, 0) == f.zero;
      AddZero(f, f.mul(c, Coef(f, q, k)));
    } else {
      ConvolutionOfConstant(f, c, q, k, n - 1);
      MulZero(f, Coef(f, q, k - (n - 1)));
      AddZero(f, f.mul(c, Coef(f, q, k)));
    }
  }

  /** A product, one coefficient of the left factor at a time. */
  lemma UnfoldTimes<F(!new)>(f: Field<F>, p: seq<F>, q: seq<F>)
    requires f.IsField() && p != []
    ensures Same(f, Times(f, p, q), Add(f, Scale(f, q, p[0]), Shift(f, Times(f, p[1..], q))))
  {
    var c, rest := p[0], p[1..];
    HeadAndTail(f, p);
    TimesIsCongruent(f, p, q, Add(f, [c], Shift(f, rest)), q);
    TimesOfSum(f, [c], Shift(f, rest), q);
    TimesOfShifted(f, rest, q);
    forall k
      ensures Coef(f, Times(f, p, q), k) == Coef(f, Add(f, Scale(f, q, c), Shift(f, Times(f, rest, q))), k)
    {
      CoefAdd(f, Times(f, [c], q), Times(f, Shift(f, rest), q), k);
      CoefAdd(f, Scale(f, q, c), Shift(f, Times(f, rest, q)), k);
      CoefTimes(f, [c], q, k);
      CoefScale(f, q, c, k);
      MulComm(f, c, Coef(f, q, k));
      if k >= 0 {
        ConvolutionOfConstant(f, c, q, k, k + 1);
      } else {
        MulZero(f, c);
      }
    }
  }

  lemma {:induction false} ConvolutionOfZero<F(!new)>(f: Field<F>, p: seq<F>, q: seq<F>, k: int, n: nat)
    requires f.IsField() && Same(f, p, [])
    ensures Convolution(f, p, q, k, n) == f.zero
  {
    if n > 0 {
      ConvolutionOfZero(f, p, q, k, n - 1);
      assert Coef(f, p, n - 1) == Coef(f, [], n - 1);
      MulZero(f, Coef(f, q, k - (n - 1)));
      AddZero(f, f.zero);
    }
  }

  lemma TimesOfZero<F(!new)>(f: Field<F>, p: seq<F>, q: seq<F>)
    requires f.IsField() && Same(f, p, [])
    ensures Same(f, Times(f, p, q), [])
  {
    forall k
      ensures Coef(f, Times(f, p, q), k) == Coef(f, [], k)
    {
      CoefTimes(f, p, q, k);
      if k >= 0 {
        ConvolutionOfZero(f, p, q, k, k + 1);
      }
    }
  }

  lemma AddIsCongruent<F(!new)>(f: Field<F>, p: seq<F>, q: seq<F>, p': seq<F>, q': seq<F>)
    requires f.IsField() && Same(f, p, p') && Same(f, q, q')
    ensures Same(f, Add(f, p, q), Add(f, p', q'))
  {
    forall i
      ensures Coef(f, Add(f, p, q), i) == Coef(f, Add(f, p', q'), i)
    {
      CoefAdd(f, p, q, i);
      CoefAdd(f, p', q', i);
    }
  }

  lemma ShiftIsCongruent<F(!new)>(f: Field<F>, p: seq<F>, p': seq<F>)
    requires Same(f, p, p')
    ensures Same(f, Shift(f, p), Shift(f, p'))
  {
    forall i
      ensures Coef(f, Shift(f, p), i) == Coef(f, Shift(f, p'), i)
    {
      assert Coef(f, p, i - 1) == Coef(f, p', i - 1);
    }
  }

  lemma {:induction false} TimesIsAssociative<F(!new)>(f: Field<F>, p: seq<F>, q: seq<F>, r: seq<F>)
    requires f.IsField()
    ensures Same(f, Times(f, Times(f, p, q), r), Times(f, p, Times(f, q, r)))
  {
    if p == [] {
      TimesOfZero(f, p, q);
      TimesOfZero(f, Times(f, p, q), r);
      TimesOfZero(f, p, Times(f, q, r));
    } else {
      hide Times, Add, Scale, Field.IsField;
      var c, rest := p[0], p[1..];
      var qr, restQ := Times(f, q, r), Times(f, rest, q);
      UnfoldTimes(f, p, q);
      TimesIsCongruent(f, Times(f, p, q), r, Add(f, Scale(f, q, c), Shift(f, restQ)), r);
      TimesOfSum(f, Scale(f, q, c), Shift(f, restQ), r);
      TimesOfScaled(f, q, c, r);
      TimesOfShifted(f, restQ, r);
      TimesIsAssociative(f, rest, q, r);
      ShiftIsCongruent(f, Times(f, restQ, r), Times(f, rest, qr));
      AddIsCongruent(f, Times(f, Scale(f, q, c), r), Times(f, Shift(f, restQ), r), Scale(f, qr, c), Shift(f, Times(f, rest, qr)));
      UnfoldTimes(f, p, qr);
    }
  }

  lemma {:induction false} ConvolutionOverSum<F(!new)>(f: Field<F>, p: seq<F>, q: seq<F>, q': seq<F>, k: int, n: nat)
    requires f.IsField()
    ensures Convolution(f, p, Add(f, q, q'), k, n) == f.add(Convolution(f, p, q, k, n), Convolution(f, p, q', k, n))
  {
    hide Add, Coef;
    if n == 0 {
      AddZero(f, f.zero);
    } else {
      ConvolutionOverSum(f, p, q, q', k, n - 1);
      var a, b, b' := Coef(f, p, n - 1), Coef(f, q, k - (n - 1)), Coef(f, q', k - (n - 1));
      CoefAdd(f, q, q', k - (n - 1));
      Distrib(f, a, b, b');
      AddInterchange(f, Convolution(f, p, q, k, n - 1), Convolution(f, p, q', k, n - 1), f.mul(a, b), f.mul(a, b'));
    }
  }

  lemma TimesOverSum<F(!new)>(f: Field<F>, p: seq<F>, q: seq<F>, q': seq<F>)
    requires f.IsField()
    ensures Same(f, Times(f, p, Add(f, q, q')), Add(f, Times(f, p, q), Times(f, p, q')))
  {
    forall k
      ensures Coef(f, Times(f, p, Add(f, q, q')), k) == Coef(f, Add(f, Times(f, p, q), Times(f, p, q')), k)
    {
      CoefTimes(f, p, Add(f, q, q'), k);
      CoefAdd(f, Times(f, p, q), Times(f, p, q'), k);
      CoefTimes(f, p, q, k);
      CoefTimes(f, p, q', k);
      if k >= 0 {
        ConvolutionOverSum(f, p, q, q', k, k + 1);
      } else {
        AddZero(f, f.zero);
      }
    }
  }

  /** Subtracting and adding back, one coefficient at a time. */
  lemma DifferencePlus<F(!new)>(f: Field<F>, p: seq<F>, q: seq<F>)
    requires f.IsField()
    ensures Same(f, Add(f, Sub(f, p, q), q), p)
  {
    forall i
      ensures Coef(f, Add(f, Sub(f, p, q), q), i) == Coef(f, p, i)
    {
      CoefAdd(f, Sub(f, p, q), q, i);
      CoefSub(f, p, q, i);
      SubThenAdd(f, Coef(f, p, i), Coef(f, q, i));
    }
  }

  lemma TimesOfDifference<F(!new)>(f: Field<F>, p: seq<F>, p': seq<F>, q: seq<F>)
    requires f.IsField()
    ensures Same(f, Times(f, Sub(f, p, p'), q), Sub(f, Times(f, p, q), Times(f, p', q)))
  {
    hide Field.IsField, Times, Add, Sub, Coef;
    var d := Sub(f, p, p');
    DifferencePlus(f, p, p');
    TimesIsCongruent(f, Add(f, d, p'), q, p, q);
    TimesOfSum(f, d, p', q);
    forall i
      ensures Coef(f, Times(f, d, q), i) == Coef(f, Sub(f, Times(f, p, q), Times(f, p', q)), i)
    {
      CoefSub(f, Times(f, p, q), Times(f, p', q), i);
      CoefAdd(f, Times(f, d, q), Times(f, p', q), i);
      SumMinus(f, Coef(f, Times(f, d, q), i), Coef(f, Times(f, p', q), i));
    }
  }

  lemma SumMinus<F(!new)>(f: Field<F>, x: F, y: F)
    requires f.IsField()
    ensures f.Sub(f.add(x, y), y) == x
  {
    AddAssoc(f, x, y, f.neg(y));
    AddNeg(f, y);
    AddZero(f, x);
  }

  // ----- values -----

  function PolyValue<F(!new)>(f: Field<F>, coeffs: seq<F>, z: F): F {
    if coeffs == [] then f.zero else f.add(coeffs[0], f.mul(PolyValue(f, coeffs[1..], z), z))
  }

  function Power<F(!new)>(f: Field<F>, z: F, n: nat): F {
    if n == 0 then f.one else f.mul(Power(f, z, n - 1), z)
  }

  lemma {:induction false} PolySnoc<F(!new)>(f: Field<F>, coeffs: seq<F>, c: F, z: F)
    requires f.IsField()
    ensures PolyValue(f, coeffs + [c], z) == f.add(PolyValue(f, coeffs, z), f.mul(c, Power(f, z, |coeffs|)))
  {
    hide Field.IsField;
    if coeffs == [] {
      assert ([c])[1..] == [];
      assert PolyValue(f, [c], z) == f.add(c, f.mul(f.zero, z));
      MulZero(f, z);
      MulOne(f, c);
      AddZero(f, c);
      assert coeffs + [c] == [c];
    } else {
      var rest, p := coeffs[1..], Power(f, z, |coeffs| - 1);
      PolySnoc(f, rest, c, z);
      assert (coeffs + [c])[1..] == rest + [c];
      Distrib(f, z, PolyValue(f, rest, z), f.mul(c, p));
      MulAssoc(f, c, p, z);
      AddAssoc(f, coeffs[0], f.mul(PolyValue(f, rest, z), z), f.mul(c, f.mul(p, z)));
    }
  }

  lemma LastCoefficient<F(!new)>(f: Field<F>, coeffs: seq<F>, z: F)
    requires f.IsField() && coeffs != []
    ensures PolyValue(f, coeffs[|coeffs| - 1..], z) == coeffs[|coeffs| - 1]
  {
    var c := coeffs[|coeffs| - 1];
    assert coeffs[|coeffs| - 1..] == [c];
    assert PolyValue(f, [c], z) == f.add(c, f.mul(f.zero, z));
    MulZero(f, z);
    AddZero(f, c);
  }

  lemma PolyStep<F(!new)>(f: Field<F>, coeffs: seq<F>, i: nat, z: F)
    requires i < |coeffs|
    ensures PolyValue(f, coeffs[i..], z) == f.add(coeffs[i], f.mul(PolyValue(f, coeffs[i + 1..], z), z))
  {
    assert coeffs[i..][1..] == coeffs[i + 1..];
  }

  function Tail<F(!new)>(p: seq<F>): seq<F> {
    if p == [] then [] else p[1..]
  }

  lemma UnfoldValue<F(!new)>(f: Field<F>, p: seq<F>, z: F)
    requires f.IsField()
    ensures PolyValue(f, p, z) == f.add(Coef(f, p, 0), f.mul(PolyValue(f, Tail(p), z), z))
  {
    if p == [] {
      MulZero(f, z);
      AddZero(f, f.zero);
    }
  }

  lemma SameTails<F(!new)>(f: Field<F>, p: seq<F>, q: seq<F>)
    requires Same(f, p, q)
    ensures Same(f, Tail(p), Tail(q))
  {
    forall i
      ensures Coef(f, Tail(p), i) == Coef(f, Tail(q), i)
    {
      assert i >= 0 ==> Coef(f, p, i + 1) == Coef(f, q, i + 1);
    }
  }

  /** Lists that denote the same polynomial have the same value everywhere. */
  lemma {:induction false} ValueIsCongruent<F(!new)>(f: Field<F>, p: seq<F>, q: seq<F>, z: F)
    requires f.IsField() && Same(f, p, q)
    ensures PolyValue(f, p, z) == PolyValue(f, q, z)
    decreases |p| + |q|
  {
    if p != [] || q != [] {
      SameTails(f, p, q);
      ValueIsCongruent(f, Tail(p), Tail(q), z);
      UnfoldValue(f, p, z);
      UnfoldValue(f, q, z);
      assert Coef(f, p, 0) == Coef(f, q, 0);
    }
  }

  lemma {:induction false} ValueOfSum<F(!new)>(f: Field<F>, p: seq<F>, q: seq<F>, z: F)
    requires f.IsField()
    ensures PolyValue(f, Add(f, p, q), z) == f.add(PolyValue(f, p, z), PolyValue(f, q, z))
    decreases |p| + |q|
  {
    if p == [] && q == [] {
      AddZero(f, f.zero);
    } else {
      var a, b := PolyValue(f, Tail(p), z), PolyValue(f, Tail(q), z);
      ValueOfSum(f, Tail(p), Tail(q), z);
      TailOfSum(f, p, q);
      ValueIsCongruent(f, Tail(Add(f, p, q)), Add(f, Tail(p), Tail(q)), z);
      UnfoldValue(f, p, z);
      UnfoldValue(f, q, z);
      UnfoldValue(f, Add(f, p, q), z);
      CoefAdd(f, p, q, 0);
      Distrib(f, z, a, b);
      AddInterchange(f, Coef(f, p, 0), Coef(f, q, 0), f.mul(a, z), f.mul(b, z));
    }
  }

  lemma TailOfSum<F(!new)>(f: Field<F>, p: seq<F>, q: seq<F>)
    requires f.IsField()
    ensures Same(f, Tail(Add(f, p, q)), Add(f, Tail(p), Tail(q)))
  {
    forall i
      ensures Coef(f, Tail(Add(f, p, q)), i) == Coef(f, Add(f, Tail(p), Tail(q)), i)
    {
      CoefAdd(f, Tail(p), Tail(q), i);
      if i >= 0 {
        CoefAdd(f, p, q, i + 1);
      } else {
        AddZero(f, f.zero);
      }
    }
  }

  lemma {:induction false} ValueOfScaled<F(!new)>(f: Field<F>, p: seq<F>, c: F, z: F)
    requires f.IsField()
    ensures PolyValue(f, Scale(f, p, c), z) == f.mul(PolyValue(f, p, z), c)
  {
    if p == [] {
      MulZero(f, c);
    } else {
      var v := PolyValue(f, p[1..], z);
      ValueOfScaled(f, p[1..], c, z);
      assert Scale(f, p, c)[1..] == Scale(f, p[1..], c);
      MulAssoc(f, v, c, z);
      MulComm(f, c, z);
      MulAssoc(f, v, z, c);
      Distrib(f, c, p[0], f.mul(v, z));
    }
  }

  lemma ValueOfShifted<F(!new)>(f: Field<F>, p: seq<F>, z: F)
    requires f.IsField()
    ensures PolyValue(f, Shift(f, p), z) == f.mul(PolyValue(f, p, z), z)
  {
    assert Shift(f, p)[1..] == p;
    AddZero(f, f.mul(PolyValue(f, p, z), z));
  }

  /** Evaluation turns products into products. */
  lemma {:induction false} ValueOfProduct<F(!new)>(f: Field<F>, p: seq<F>, q: seq<F>, z: F)
    requires f.IsField()
    ensures PolyValue(f, Times(f, p, q), z) == f.mul(PolyValue(f, p, z), PolyValue(f, q, z))
  {
    var v := PolyValue(f, q, z);
    if p == [] {
      TimesOfZero(f, p, q);
      ValueIsCongruent(f, Times(f, p, q), [], z);
      MulZero(f, v);
    } else {
      hide Times, Add, Scale;
      var c, rest := p[0], p[1..];
      UnfoldTimes(f, p, q);
      ValueIsCongruent(f, Times(f, p, q), Add(f, Scale(f, q, c), Shift(f, Times(f, rest, q))), z);
      ValueOfSum(f, Scale(f, q, c), Shift(f, Times(f, rest, q)), z);
      ValueOfScaled(f, q, c, z);
      ValueOfShifted(f, Times(f, rest, q), z);
      ValueOfProduct(f, rest, q, z);
      var w := PolyValue(f, rest, z);
      MulComm(f, v, c);
      MulAssoc(f, w, v, z);
      MulComm(f, v, z);
      MulAssoc(f, w, z, v);
      Distrib(f, v, c, f.mul(w, z));
    }
  }
}
