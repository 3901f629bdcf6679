/** Orders of vanishing of functions at the points of a smooth curve. Near a point every function is
    a power of a local one; the power is unique, exists for every function but zero, adds over
    products, and is the multiplicity in which a line meets the curve. */
module LocalOrders {
  import opened CurveDivisors
  import opened Fields
  import opened FunctionField
  import opened Groups
  import opened PolynomialRing
  import opened Polynomials

  /** No point of order two is a singular point. */
  ghost predicate IsSmooth<P(!new), F(!new), V(!new)>(c: Curve<P, F, V>) {
    var f := c.field;
    forall A :: A != c.points.zero && c.y(A) == f.zero ==>
      f.add(f.add(f.add(f.mul(c.x(A), c.x(A)), f.mul(c.x(A), c.x(A))), f.mul(c.x(A), c.x(A))), c.a) != f.zero
  }

  // ----- products of functions -----

  function One<F(!new)>(f: Field<F>): Fn<F> {
    Fn([f.one], [])
  }

  lemma OneIsFn<F(!new)>(f: Field<F>)
    requires f.IsField()
    ensures IsFn(f, One(f)) && One(f) != Fn([], [])
  {
    hide Field.IsField;
    OneIsNonzero(f);
    CanonOfNothing(f);
  }

  lemma ProductIsFn<P(!new), F(!new), V(!new)>(c: Curve<P, F, V>, s: Fn<F>, t: Fn<F>)
    ensures IsFn(c.field, c.Product(s, t))
  {
    hide FnAdd, Scl, TimesY, IsFn;
    ResultsAreFns(c.field, c.W(), [], s, t);
  }

  lemma OneTimes<P(!new), F(!new), V(!new)>(c: Curve<P, F, V>, s: Fn<F>)
    requires c.field.IsField() && IsFn(c.field, s)
    ensures c.Product(One(c.field), s) == s == c.Product(s, One(c.field))
  {
    hide Field.IsField, FnMul, Scl, IsFn;
    MulOfPolynomial(c.field, c.W(), [c.field.one], s);
    OneTimesFn(c.field, s);
    FnMulComm(c.field, c.W(), s, One(c.field));
  }

  /** A function is not zero where it has a value other than zero. */
  lemma NonzeroByValue<P(!new), F(!new), V(!new)>(c: Curve<P, F, V>, s: Fn<F>, A: P)
    requires c.field.IsField() && IsFn(c.field, s) && c.Value(s, A) != c.field.zero
    ensures c.Nonzero(s)
  {
    hide Field.IsField;
    Fields.MulZero(c.field, c.y(A));
    AddZero(c.field, c.field.zero);
  }

  /** Nonzero factors cancel. */
  lemma CancelFactor<P(!new), F(!new), V(!new)>(c: Curve<P, F, V>, s: Fn<F>, t: Fn<F>, u: Fn<F>)
    requires c.field.IsField() && c.Nonzero(s) && IsFn(c.field, t) && IsFn(c.field, u)
    requires c.Product(s, t) == c.Product(s, u)
    ensures t == u
  {
    hide Field.IsField, FnMul, Scl, FnAdd, IsFn, Curve.W;
    var f, w := c.field, c.W();
    var minus := Scl(f, [f.neg(f.one)], u);
    var d := FnAdd(f, t, minus);
    ResultsAreFns(f, w, [f.neg(f.one)], t, minus);
    ResultsAreFns(f, w, [f.neg(f.one)], u, minus);
    FunctionField.MulOfSum(f, w, t, minus, s);
    MulOfScl(f, w, [f.neg(f.one)], u, s);
    FnMulComm(f, w, s, t);
    FnMulComm(f, w, s, u);
    ProductIsFn(c, s, u);
    PlusMinus(f, FnMul(f, w, s, u));
    if d != Fn([], []) {
      ProductIsNonzero(c, d, s);
      assert false;
    }
    // (t - u) + u == t
    PlusMinus(f, u);
    FnAddAssoc(f, t, minus, u);
    FnAddComm(f, minus, u);
    FnAddZero(f, t);
    FnAddZero(f, u);
  }

  lemma PlusMinus<F(!new)>(f: Field<F>, s: Fn<F>)
    requires f.IsField() && IsFn(f, s)
    ensures FnAdd(f, s, Scl(f, [f.neg(f.one)], s)) == Fn([], [])
  {
    hide Field.IsField, FnAdd, Scl, PAdd;
    OneTimesFn(f, s);
    SclOfSum(f, [f.one], [f.neg(f.one)], s);
    OneMinusOne(f);
    SclOfZero(f, PAdd(f, [f.one], [f.neg(f.one)]), s);
  }

  lemma OneMinusOne<F(!new)>(f: Field<F>)
    requires f.IsField()
    ensures Same(f, PAdd(f, [f.one], [f.neg(f.one)]), [])
  {
    hide Field.IsField;
    AddNeg(f, f.one);
    assert Same(f, PAdd(f, [f.one], [f.neg(f.one)]), Add(f, [f.one], [f.neg(f.one)]));
  }

  // ----- values -----

  lemma ValueOfCanon<F(!new)>(f: Field<F>, p: seq<F>, z: F)
    requires f.IsField()
    ensures PolyValue(f, Canon(f, p), z) == PolyValue(f, p, z)
  {
    hide Field.IsField, Canon;
    ValueIsCongruent(f, Canon(f, p), p, z);
  }

  lemma ValueOfPAdd<F(!new)>(f: Field<F>, p: seq<F>, q: seq<F>, z: F)
    requires f.IsField()
    ensures PolyValue(f, PAdd(f, p, q), z) == f.add(PolyValue(f, p, z), PolyValue(f, q, z))
  {
    hide Field.IsField, Add, Canon;
    ValueOfCanon(f, Add(f, p, q), z);
    ValueOfSum(f, p, q, z);
  }

  lemma ValueOfPMul<F(!new)>(f: Field<F>, p: seq<F>, q: seq<F>, z: F)
    requires f.IsField()
    ensures PolyValue(f, PMul(f, p, q), z) == f.mul(PolyValue(f, p, z), PolyValue(f, q, z))
  {
    hide Field.IsField, Times, Canon;
    ValueOfCanon(f, Times(f, p, q), z);
    ValueOfProduct(f, p, q, z);
  }

  /** (p + q y) (u + v y) == (p u + q (y y v)) + (p v + q u) y */
  lemma ExpandProduct<F(!new)>(f: Field<F>, p: F, q: F, u: F, v: F, y: F)
    requires f.IsField()
    ensures f.mul(f.add(p, f.mul(q, y)), f.add(u, f.mul(v, y)))
      == f.add(f.add(f.mul(p, u), f.mul(q, f.mul(f.mul(y, y), v))), f.mul(f.add(f.mul(p, v), f.mul(q, u)), y))
  {
    hide Field.IsField;
    var qy, vy := f.mul(q, y), f.mul(v, y);
    Distrib(f, f.add(u, vy), p, qy);
    Distrib(f, p, u, vy);
    Distrib(f, qy, u, vy);
    Distrib(f, y, f.mul(p, v), f.mul(q, u));
    MulAssoc(f, p, v, y);
    // (q y) u == (q u) y
    MulAssoc(f, q, y, u);
    MulComm(f, y, u);
    MulAssoc(f, q, u, y);
    // (q y) (v y) == q ((y y) v)
    MulAssoc(f, q, y, vy);
    MulComm(f, v, y);
    MulAssoc(f, y, y, v);
    // (p u + p vy) + (q u y + q y y v)
    var a, b, d, e := f.mul(p, u), f.mul(p, vy), f.mul(qy, u), f.mul(qy, vy);
    AddComm(f, d, e);
    AddInterchange(f, a, b, e, d);
  }

  /** Evaluation at a point of the curve turns products into products. */
  lemma ValueOfFnMul<P(!new), F(!new), V(!new)>(c: Curve<P, F, V>, s: Fn<F>, t: Fn<F>, A: P)
    requires c.HasCoordinates() && A != c.points.zero
    ensures c.Value(c.Product(s, t), A) == c.field.mul(c.Value(s, A), c.Value(t, A))
  {
    hide Field.IsField, PAdd, PMul, Curve.W, Curve.HasCoordinates;
    CoordinatesAreFields(c);
    var f, w, z, y := c.field, c.W(), c.x(A), c.y(A);
    Coordinates(c, A);
    CubicValue(c, z);
    var p, q, u, v := PolyValue(f, s.a, z), PolyValue(f, s.b, z), PolyValue(f, t.a, z), PolyValue(f, t.b, z);
    ValueOfPMul(f, s.a, t.a, z);
    ValueOfPMul(f, w, t.b, z);
    ValueOfPMul(f, s.b, PMul(f, w, t.b), z);
    ValueOfPMul(f, s.a, t.b, z);
    ValueOfPMul(f, s.b, t.a, z);
    ValueOfPAdd(f, PMul(f, s.a, t.a), PMul(f, s.b, PMul(f, w, t.b)), z);
    ValueOfPAdd(f, PMul(f, s.a, t.b), PMul(f, s.b, t.a), z);
    ExpandProduct(f, p, q, u, v, y);
  }

  lemma ValueOfPolynomial<P(!new), F(!new), V(!new)>(c: Curve<P, F, V>, p: seq<F>, A: P)
    requires c.field.IsField()
    ensures c.Value(Fn(p, []), A) == PolyValue(c.field, p, c.x(A))
  {
    hide Field.IsField;
    Fields.MulZero(c.field, c.y(A));
    AddZero(c.field, PolyValue(c.field, p, c.x(A)));
  }

  lemma ValueOfConstant<P(!new), F(!new), V(!new)>(c: Curve<P, F, V>, k: F, A: P)
    requires c.field.IsField()
    ensures c.Value(Fn([k], []), A) == k
  {
    hide Field.IsField, PolyValue;
    ValueOfPolynomial(c, [k], A);
    assert PolyValue(c.field, [k], c.x(A)) == k by { ConstantValue(c.field, k, c.x(A)); }
  }

  lemma ConstantValue<F(!new)>(f: Field<F>, k: F, z: F)
    requires f.IsField()
    ensures PolyValue(f, [k], z) == k
  {
    hide Field.IsField;
    assert [k][1..] == [];
    Fields.MulZero(f, z);
    AddZero(f, k);
  }

  /** The value of a product is zero exactly where a factor's is. */
  lemma ProductVanishes<P(!new), F(!new), V(!new)>(c: Curve<P, F, V>, s: Fn<F>, t: Fn<F>, A: P)
    requires c.HasCoordinates() && A != c.points.zero
    ensures c.Value(c.Product(s, t), A) == c.field.zero <==> c.Value(s, A) == c.field.zero || c.Value(t, A) == c.field.zero
  {
    hide Field.IsField, Curve.HasCoordinates, FnMul, Curve.Value;
    CoordinatesAreFields(c);
    ValueOfFnMul(c, s, t, A);
    NoZeroDivisors(c.field, c.Value(s, A), c.Value(t, A));
  }

  // ----- orders -----

  ghost function FnPower<P(!new), F(!new), V(!new)>(c: Curve<P, F, V>, s: Fn<F>, n: nat): Fn<F> {
    if n == 0 then One(c.field) else c.Product(s, FnPower(c, s, n - 1))
  }

  /** The function that vanishes once at A: x - x(A), or y where the tangent is vertical. */
  ghost function Local<P(!new), F(!new), V(!new)>(c: Curve<P, F, V>, A: P): Fn<F> {
    if c.y(A) == c.field.zero then Fn([], [c.field.one]) else Fn(Linear(c.field, c.x(A)), [])
  }

  /** Near A the function s is the n-th power of the local one: u s == Local^n h, where u and h do
      not vanish at A. */
  ghost predicate IsOrderBy<P(!new), F(!new), V(!new)>(c: Curve<P, F, V>, s: Fn<F>, A: P, n: nat, u: Fn<F>, h: Fn<F>) {
    && IsFn(c.field, u) && IsFn(c.field, h) && c.Value(u, A) != c.field.zero && c.Value(h, A) != c.field.zero
    && c.Product(u, s) == c.Product(FnPower(c, Local(c, A), n), h)
  }

  ghost predicate IsOrder<P(!new), F(!new), V(!new)>(c: Curve<P, F, V>, s: Fn<F>, A: P, n: nat) {
    exists u, h :: IsOrderBy(c, s, A, n, u, h)
  }

  lemma {:induction false} PowerIsFn<P(!new), F(!new), V(!new)>(c: Curve<P, F, V>, s: Fn<F>, n: nat)
    requires c.field.IsField() && c.Nonzero(s)
    ensures c.Nonzero(FnPower(c, s, n))
  {
    hide Field.IsField, FnMul, IsFn;
    OneIsFn(c.field);
    if n > 0 {
      PowerIsFn(c, s, n - 1);
      ProductIsNonzero(c, s, FnPower(c, s, n - 1));
    }
  }

  lemma {:induction false} PowersAdd<P(!new), F(!new), V(!new)>(c: Curve<P, F, V>, s: Fn<F>, m: nat, n: nat)
    requires c.field.IsField() && c.Nonzero(s)
    ensures c.Product(FnPower(c, s, m), FnPower(c, s, n)) == FnPower(c, s, m + n)
  {
    hide Field.IsField, FnMul, IsFn, Curve.W;
    if m == 0 {
      PowerIsFn(c, s, n);
      OneTimes(c, FnPower(c, s, n));
    } else {
      PowersAdd(c, s, m - 1, n);
      FnMulAssoc(c.field, c.W(), s, FnPower(c, s, m - 1), FnPower(c, s, n));
    }
  }

  /** The local function is a function that vanishes at A. */
  lemma LocalVanishes<P(!new), F(!new), V(!new)>(c: Curve<P, F, V>, A: P)
    requires c.HasCoordinates() && A != c.points.zero
    ensures c.Nonzero(Local(c, A)) && c.Value(Local(c, A), A) == c.field.zero
  {
    hide Field.IsField, Curve.HasCoordinates, PolyValue, Canon, Degree;
    CoordinatesAreFields(c);
    var f := c.field;
    CanonOfNothing(f);
    OneIsNonzero(f);
    LinearIsNonzero(f, c.x(A));
    if c.y(A) == f.zero {
      ConstantValue(f, f.one, c.x(A));
      assert PolyValue(f, [], c.x(A)) == f.zero by { EmptyValue(f, c.x(A)); }
      MulOne(f, f.zero);
      AddZero(f, f.zero);
    } else {
      ValueOfPolynomial(c, Linear(f, c.x(A)), A);
      LinearVanishes(f, c.x(A));
    }
  }

  lemma EmptyValue<F(!new)>(f: Field<F>, z: F)
    ensures PolyValue(f, [], z) == f.zero
  {
  }

  lemma PowerVanishes<P(!new), F(!new), V(!new)>(c: Curve<P, F, V>, A: P, n: nat)
    requires c.HasCoordinates() && A != c.points.zero && n > 0
    ensures c.Value(FnPower(c, Local(c, A), n), A) == c.field.zero
  {
    hide Field.IsField, Curve.HasCoordinates, FnMul, Curve.Value, Local;
    LocalVanishes(c, A);
    ProductVanishes(c, Local(c, A), FnPower(c, Local(c, A), n - 1), A);
  }

  lemma ValueOfOne<P(!new), F(!new), V(!new)>(c: Curve<P, F, V>, A: P)
    requires c.field.IsField()
    ensures c.Value(One(c.field), A) == c.field.one != c.field.zero && IsFn(c.field, One(c.field))
  {
    hide Curve.Value, IsFn;
    ValueOfConstant(c, c.field.one, A);
    OneIsFn(c.field);
  }

  /** A function that does not vanish at A has order 0. */
  lemma OrderZero<P(!new), F(!new), V(!new)>(c: Curve<P, F, V>, s: Fn<F>, A: P)
    requires c.HasCoordinates() && A != c.points.zero && IsFn(c.field, s) && c.Value(s, A) != c.field.zero
    ensures IsOrder(c, s, A, 0)
  {
    hide Field.IsField, Curve.HasCoordinates, FnMul, Curve.Value, Local, IsFn;
    CoordinatesAreFields(c);
    ValueOfOne(c, A);
    OneTimes(c, s);
    assert IsOrderBy(c, s, A, 0, One(c.field), s);
  }

  /** Orders of a product add. */
  lemma OrdersAdd<P(!new), F(!new), V(!new)>(c: Curve<P, F, V>, s: Fn<F>, t: Fn<F>, A: P, m: nat, n: nat)
    requires c.HasCoordinates() && A != c.points.zero && IsOrder(c, s, A, m) && IsOrder(c, t, A, n)
    ensures IsOrder(c, c.Product(s, t), A, m + n)
  {
    hide Field.IsField, Curve.HasCoordinates, FnMul, Curve.Value, Local, IsFn, FnPower, Curve.W;
    CoordinatesAreFields(c);
    var f, w, p := c.field, c.W(), Local(c, A);
    var u, h :| IsOrderBy(c, s, A, m, u, h);
    var v, k :| IsOrderBy(c, t, A, n, v, k);
    LocalVanishes(c, A);
    FnMulInterchange(f, w, u, v, s, t);
    FnMulInterchange(f, w, FnPower(c, p, m), h, FnPower(c, p, n), k);
    PowersAdd(c, p, m, n);
    ProductVanishes(c, u, v, A);
    ProductVanishes(c, h, k, A);
    ProductIsFn(c, u, v);
    ProductIsFn(c, h, k);
    assert IsOrderBy(c, c.Product(s, t), A, m + n, c.Product(u, v), c.Product(h, k));
  }

  lemma WitnessOfOrder<P(!new), F(!new), V(!new)>(c: Curve<P, F, V>, s: Fn<F>, A: P, n: nat) returns (u: Fn<F>, h: Fn<F>)
    requires IsOrder(c, s, A, n)
    ensures IsOrderBy(c, s, A, n, u, h) && c.Value(u, A) != c.field.zero && c.Value(h, A) != c.field.zero
  {
    u, h :| IsOrderBy(c, s, A, n, u, h);
  }

  lemma OrderIsUnique<P(!new), F(!new), V(!new)>(c: Curve<P, F, V>, s: Fn<F>, A: P, m: nat, n: nat)
    requires c.HasCoordinates() && A != c.points.zero && IsOrder(c, s, A, m) && IsOrder(c, s, A, n)
    ensures m == n
  {
    hide *;
    var u, h := WitnessOfOrder(c, s, A, m);
    var v, k := WitnessOfOrder(c, s, A, n);
    if m < n {
      OrdersCross(c, s, A, m, n, u, h, v, k);
      CrossVanishes(c, A, n - m, h, v, u, k);
    } else if n < m {
      OrdersCross(c, s, A, n, m, v, k, u, h);
      CrossVanishes(c, A, m - n, k, u, v, h);
    }
  }

  lemma CrossVanishes<P(!new), F(!new), V(!new)>(c: Curve<P, F, V>, A: P, n: nat, h: Fn<F>, v: Fn<F>, u: Fn<F>, k: Fn<F>)
    requires c.HasCoordinates() && A != c.points.zero && n > 0
    requires c.Product(v, h) == c.Product(u, c.Product(FnPower(c, Local(c, A), n), k))
    ensures c.Value(v, A) == c.field.zero || c.Value(h, A) == c.field.zero
  {
    hide Curve.HasCoordinates, Curve.Value, Local, FnPower, Curve.Product;
    var high := FnPower(c, Local(c, A), n);
    PowerVanishes(c, A, n);
    ProductVanishes(c, v, h, A);
    ProductVanishes(c, high, k, A);
    ProductVanishes(c, u, c.Product(high, k), A);
  }

  /** v (u s) == Local^m (v h) and u (v s) == Local^m (u Local^(n - m) k) */
  lemma OrdersCross<P(!new), F(!new), V(!new)>(
      c: Curve<P, F, V>, s: Fn<F>, A: P, m: nat, n: nat, u: Fn<F>, h: Fn<F>, v: Fn<F>, k: Fn<F>)
    requires c.HasCoordinates() && A != c.points.zero && m < n && IsOrderBy(c, s, A, m, u, h) && IsOrderBy(c, s, A, n, v, k)
    ensures c.Product(v, h) == c.Product(u, c.Product(FnPower(c, Local(c, A), n - m), k))
  {
    hide Field.IsField, Curve.HasCoordinates, FnMul, Curve.Value, Local, IsFn, FnPower, Curve.W, Curve.Product;
    CoordinatesAreFields(c);
    var p := Local(c, A);
    var low, high := FnPower(c, p, m), FnPower(c, p, n - m);
    LocalVanishes(c, A);
    PowersAdd(c, p, m, n - m);
    PowerIsFn(c, p, m);
    Exchange(c, v, u, s);
    Exchange(c, v, low, h);
    Associate(c, low, high, k);
    Exchange(c, u, low, c.Product(high, k));
    ProductIsFn(c, v, h);
    ProductIsFn(c, u, c.Product(high, k));
    CancelFactor(c, low, c.Product(v, h), c.Product(u, c.Product(high, k)));
  }

  lemma Associate<P(!new), F(!new), V(!new)>(c: Curve<P, F, V>, u: Fn<F>, v: Fn<F>, s: Fn<F>)
    requires c.field.IsField()
    ensures c.Product(c.Product(u, v), s) == c.Product(u, c.Product(v, s))
  {
    hide Field.IsField, FnMul, Curve.W;
    FnMulAssoc(c.field, c.W(), u, v, s);
  }

  /** u (v s) == v (u s) */
  lemma Exchange<P(!new), F(!new), V(!new)>(c: Curve<P, F, V>, u: Fn<F>, v: Fn<F>, s: Fn<F>)
    requires c.field.IsField()
    ensures c.Product(u, c.Product(v, s)) == c.Product(v, c.Product(u, s))
  {
    hide Field.IsField, FnMul, Curve.W;
    FnMulAssoc(c.field, c.W(), u, v, s);
    FnMulComm(c.field, c.W(), u, v);
    FnMulAssoc(c.field, c.W(), v, u, s);
  }

  /** The order is 0 exactly where the function does not vanish. */
  lemma PositiveOrderVanishes<P(!new), F(!new), V(!new)>(c: Curve<P, F, V>, s: Fn<F>, A: P, n: nat)
    requires c.HasCoordinates() && A != c.points.zero && IsOrder(c, s, A, n)
    ensures c.Value(s, A) == c.field.zero <==> n > 0
  {
    hide Field.IsField, Curve.HasCoordinates, FnMul, Curve.Value, Local, IsFn;
    CoordinatesAreFields(c);
    var u, h :| IsOrderBy(c, s, A, n, u, h);
    ProductVanishes(c, u, s, A);
    ProductVanishes(c, FnPower(c, Local(c, A), n), h, A);
    if n > 0 {
      PowerVanishes(c, A, n);
    } else {
      ValueOfOne(c, A);
    }
  }

  // ----- every function has an order -----

  /** A function that vanishes at A is, near A, a multiple of the local one. */
  ghost predicate IsMultiple<P(!new), F(!new), V(!new)>(c: Curve<P, F, V>, s: Fn<F>, A: P, u: Fn<F>, r: Fn<F>) {
    && IsFn(c.field, u) && IsFn(c.field, r) && c.Value(u, A) != c.field.zero && c.Product(u, s) == c.Product(Local(c, A), r)
  }

  lemma LocalDivides<P(!new), F(!new), V(!new)>(c: Curve<P, F, V>, s: Fn<F>, A: P) returns (u: Fn<F>, r: Fn<F>)
    requires c.HasCoordinates() && IsSmooth(c) && A != c.points.zero && IsFn(c.field, s) && c.Value(s, A) == c.field.zero
    ensures IsMultiple(c, s, A, u, r)
  {
    if c.y(A) == c.field.zero {
      u, r := DividesAtTorsion(c, s, A);
    } else {
      u, r := DividesElsewhere(c, s, A);
    }
  }

  /** With u == y + y(A), the product vanishes at -A as well. */
  lemma DividesElsewhere<P(!new), F(!new), V(!new)>(c: Curve<P, F, V>, s: Fn<F>, A: P) returns (u: Fn<F>, r: Fn<F>)
    requires c.HasCoordinates() && A != c.points.zero && IsFn(c.field, s) && c.Value(s, A) == c.field.zero
    requires c.y(A) != c.field.zero
    ensures IsMultiple(c, s, A, u, r)
  {
    hide Field.IsField, Curve.HasCoordinates, FnMul, Canon, PolyValue;
    CoordinatesAreFields(c);
    var f, y := c.field, c.y(A);
    Coordinates(c, A);
    u := Fn([y], [f.one]);
    OneIsNonzero(f);
    assert Canon(f, [y]) == [y] by { ConstantIsCanon(f, y); }
    ValueOfShiftedY(c, y, A);
    ValueOfShiftedY(c, y, c.points.neg(A));
    Doubling(f, y);
    AddNeg(f, y);
    ProductIsFn(c, u, s);
    ProductVanishes(c, u, s, A);
    ProductVanishes(c, u, s, c.points.neg(A));
    PartsVanish(c, c.Product(u, s), A);
    r := VanishesAtBoth(c, c.Product(u, s), A);
  }

  lemma ConstantIsCanon<F(!new)>(f: Field<F>, k: F)
    requires k != f.zero
    ensures Canon(f, [k]) == [k]
  {
  }

  lemma ValueOfShiftedY<P(!new), F(!new), V(!new)>(c: Curve<P, F, V>, k: F, A: P)
    requires c.field.IsField()
    ensures c.Value(Fn([k], [c.field.one]), A) == c.field.add(k, c.y(A))
  {
    hide Field.IsField, PolyValue;
    ConstantValue(c.field, k, c.x(A));
    ConstantValue(c.field, c.field.one, c.x(A));
    MulOne(c.field, c.y(A));
  }

  /** x^3 + a x + b == (x - x(A)) w where y(A) == 0, and w does not vanish there. */
  lemma CofactorAtTorsion<P(!new), F(!new), V(!new)>(c: Curve<P, F, V>, A: P) returns (w: seq<F>)
    requires c.HasCoordinates() && IsSmooth(c) && A != c.points.zero && c.y(A) == c.field.zero
    ensures PolyValue(c.field, w, c.x(A)) != c.field.zero && Canon(c.field, c.W()) == PMul(c.field, Linear(c.field, c.x(A)), w)
  {
    var f, z := c.field, c.x(A);
    var square := f.mul(z, z);
    assert f.add(f.add(f.add(square, square), square), c.a) != f.zero;
    hide Field.IsField, Curve.HasCoordinates, PolyValue, Deflated, IsSmooth, Canon, PMul;
    CoordinatesAreFields(c);
    w := Deflated(f, c.W(), z);
    Coordinates(c, A);
    Fields.MulZero(f, f.zero);
    CubicValue(c, z);
    RootIsFactor(f, c.W(), z);
    DeflatedAtRoot(f, c.W(), z);
    // a + ((0 + 0) + k z) z == (z z + z z + z z) + a
    var k := f.add(f.add(f.one, f.one), f.one);
    AddZero(f, f.zero);
    AddZero(f, f.mul(k, z));
    MulAssoc(f, k, z, z);
    MulOne(f, square);
    Distrib(f, square, f.add(f.one, f.one), f.one);
    Distrib(f, square, f.one, f.one);
    AddComm(f, c.a, f.mul(k, square));
  }

  lemma TimesYIs<P(!new), F(!new), V(!new)>(c: Curve<P, F, V>, s: Fn<F>)
    requires c.field.IsField() && IsFn(c.field, s)
    ensures c.Product(Fn([], [c.field.one]), s) == TimesY(c.field, c.W(), s)
  {
    hide Field.IsField, Scl, TimesY, FnAdd, IsFn, Curve.W;
    var f, w := c.field, c.W();
    var ys := TimesY(f, w, s);
    ResultsAreFns(f, w, [f.one], s, s);
    SameItself(f, []);
    SclOfZero(f, [], s);
    OneTimesFn(f, ys);
    FnAddZero(f, ys);
  }

  /** With u == w, where x^3 + a x + b == (x - x(A)) w: the product is y (w b + y a / (x - x(A))). */
  lemma DividesAtTorsion<P(!new), F(!new), V(!new)>(c: Curve<P, F, V>, s: Fn<F>, A: P) returns (u: Fn<F>, r: Fn<F>)
    requires c.HasCoordinates() && IsSmooth(c) && A != c.points.zero && IsFn(c.field, s) && c.Value(s, A) == c.field.zero
    requires c.y(A) == c.field.zero
    ensures IsMultiple(c, s, A, u, r)
    ensures c.Value(r, A) == c.field.zero ==> PolyValue(c.field, s.b, c.x(A)) == c.field.zero
  {
    hide Field.IsField, Curve.HasCoordinates, FnMul, Canon, PolyValue, Deflated, PMul, IsSmooth, Curve.W;
    CoordinatesAreFields(c);
    var f, z := c.field, c.x(A);
    var w := CofactorAtTorsion(c, A);
    var l, p := Linear(f, z), PolyValue(f, s.b, z);
    Fields.MulZero(f, p);
    AddZero(f, PolyValue(f, s.a, z));
    RootIsFactor(f, s.a, z);
    var a := Canon(f, Deflated(f, s.a, z));
    CanonTwice(f, Deflated(f, s.a, z));
    u, r := Fn(Canon(f, w), []), Fn(PMul(f, w, s.b), a);
    CanonTwice(f, w);
    CanonOfNothing(f);
    ValueOfPolynomial(c, Canon(f, w), A);
    ValueOfCanon(f, w, z);
    CanonTwice(f, Times(f, w, s.b));
    assert IsFn(f, r) by { PMulIsTrimmed(f, w, s.b); }
    TimesYIs(c, r);
    MulOfPolynomial(f, c.W(), Canon(f, w), s);
    TorsionProduct(f, c.W(), w, l, s.a, s.b, Deflated(f, s.a, z));
    // r vanishes only with w b
    ValueOfPMul(f, w, s.b, z);
    Fields.MulZero(f, PolyValue(f, a, z));
    AddZero(f, PolyValue(f, r.a, z));
    NoZeroDivisors(f, PolyValue(f, w, z), p);
  }

  lemma PMulIsTrimmed<F(!new)>(f: Field<F>, p: seq<F>, q: seq<F>)
    ensures Canon(f, PMul(f, p, q)) == PMul(f, p, q)
  {
    hide Canon;
    CanonTwice(f, Times(f, p, q));
  }

  /** w a == W d for a == l d and W == l w */
  lemma TorsionProduct<F(!new)>(f: Field<F>, W: seq<F>, w: seq<F>, l: seq<F>, a: seq<F>, b: seq<F>, d: seq<F>)
    requires f.IsField() && Canon(f, W) == PMul(f, l, w) && Canon(f, a) == a == PMul(f, l, d)
    ensures Scl(f, Canon(f, w), Fn(a, b)) == TimesY(f, W, Fn(PMul(f, w, b), Canon(f, d)))
  {
    hide Field.IsField, Canon, PMul;
    CanonIsSame(f, w);
    CanonIsSame(f, W);
    CanonIsSame(f, d);
    SameItself(f, a);
    SameItself(f, b);
    PMulOf(f, w, a, Canon(f, w), a);
    PMulOf(f, w, b, Canon(f, w), b);
    PMulOf(f, W, d, Canon(f, W), Canon(f, d));
    PMulAssoc(f, w, l, d);
    PMulComm(f, w, l);
    PMulOf(f, Canon(f, W), d, W, d);
    PMulOf(f, W, Canon(f, d), W, d);
  }

  /** One step: if u s == Local r and r has order k, then s has order k + 1. */
  lemma OrderOfMultiple<P(!new), F(!new), V(!new)>(c: Curve<P, F, V>, s: Fn<F>, A: P, u: Fn<F>, r: Fn<F>, k: nat)
    requires c.HasCoordinates() && A != c.points.zero && IsMultiple(c, s, A, u, r) && IsOrder(c, r, A, k)
    ensures IsOrder(c, s, A, k + 1)
  {
    hide Field.IsField, Curve.HasCoordinates, FnMul, Curve.Value, Local, IsFn, Curve.W, Curve.Product;
    CoordinatesAreFields(c);
    var p := Local(c, A);
    var v, g := WitnessOfOrder(c, r, A, k);
    Associate(c, v, u, s);
    Exchange(c, v, p, r);
    Associate(c, p, FnPower(c, p, k), g);
    ProductVanishes(c, v, u, A);
    ProductIsFn(c, v, u);
    assert IsOrderBy(c, s, A, k + 1, c.Product(v, u), g);
  }

  /** If s t has order m > 0 and u s == Local r, then r t has order m - 1. */
  lemma OrderOfQuotient<P(!new), F(!new), V(!new)>(c: Curve<P, F, V>, s: Fn<F>, t: Fn<F>, A: P, m: nat, u: Fn<F>, r: Fn<F>)
    requires c.HasCoordinates() && A != c.points.zero && IsMultiple(c, s, A, u, r) && m > 0 && IsOrder(c, c.Product(s, t), A, m)
    ensures IsOrder(c, c.Product(r, t), A, m - 1)
  {
    hide Field.IsField, Curve.HasCoordinates, FnMul, Curve.Value, Local, IsFn, Curve.W, Curve.Product;
    CoordinatesAreFields(c);
    var p := Local(c, A);
    var v, h := WitnessOfOrder(c, c.Product(s, t), A, m);
    var rest := FnPower(c, p, m - 1);
    // u (v (s t)) == Local (v (r t)) and u (v (s t)) == Local (rest (u h))
    Exchange(c, u, v, c.Product(s, t));
    Associate(c, u, s, t);
    Associate(c, p, r, t);
    Exchange(c, v, p, c.Product(r, t));
    Associate(c, p, rest, h);
    Exchange(c, u, p, c.Product(rest, h));
    Exchange(c, u, rest, h);
    LocalVanishes(c, A);
    ProductIsFn(c, v, c.Product(r, t));
    ProductIsFn(c, rest, c.Product(u, h));
    CancelFactor(c, p, c.Product(v, c.Product(r, t)), c.Product(rest, c.Product(u, h)));
    ProductVanishes(c, u, h, A);
    ProductIsFn(c, u, h);
    assert IsOrderBy(c, c.Product(r, t), A, m - 1, v, c.Product(u, h));
  }

  /** A factor of a function that has an order has one. */
  lemma {:induction false} OrderOfFactor<P(!new), F(!new), V(!new)>(c: Curve<P, F, V>, s: Fn<F>, t: Fn<F>, A: P, m: nat) returns (n: nat)
    requires c.HasCoordinates() && IsSmooth(c) && A != c.points.zero && IsFn(c.field, s) && IsOrder(c, c.Product(s, t), A, m)
    ensures IsOrder(c, s, A, n)
    decreases m
  {
    hide Field.IsField, Curve.HasCoordinates, IsSmooth, Curve.Value, IsFn, Curve.Product, IsOrder;
    if c.Value(s, A) != c.field.zero {
      OrderZero(c, s, A);
      return 0;
    }
    PositiveOrderVanishes(c, c.Product(s, t), A, m);
    ProductVanishes(c, s, t, A);
    var u, r := LocalDivides(c, s, A);
    OrderOfQuotient(c, s, t, A, m, u, r);
    n := OrderOfFactor(c, r, t, A, m - 1);
    OrderOfMultiple(c, s, A, u, r, n);
    n := n + 1;
  }

  /** 1 for the same points, 0 otherwise */
  ghost function Once<P>(A: P, B: P): nat {
    if A == B then 1 else 0
  }

  /** x - x(A) vanishes once at A and once at -A, twice where these are the same. */
  lemma OrderOfVertical<P(!new), F(!new), V(!new)>(c: Curve<P, F, V>, A: P, Q: P)
    requires c.HasCoordinates() && IsSmooth(c) && A != c.points.zero && Q != c.points.zero
    ensures IsOrder(c, Fn(Linear(c.field, c.x(A)), []), Q, Once(A, Q) + Once(c.points.neg(A), Q))
  {
    hide Field.IsField, Group.IsGroup, Curve.HasCoordinates, IsSmooth, IsOrder, Curve.Value, Linear;
    CoordinatesAreFields(c);
    Coordinates(c, A);
    Coordinates(c, Q);
    VerticalIsFn(c, A);
    VerticalVanishes(c, A, Q);
    TorsionIsZeroY(c, Q);
    if c.x(A) != c.x(Q) {
      OrderZero(c, Fn(Linear(c.field, c.x(A)), []), Q);
    } else {
      SameX(c, Q, A);
      if c.y(Q) == c.field.zero {
        TorsionOrder(c, Q);
      } else {
        LocalOrder(c, Q);
      }
    }
  }

  lemma VerticalIsFn<P(!new), F(!new), V(!new)>(c: Curve<P, F, V>, A: P)
    requires c.field.IsField()
    ensures c.Nonzero(Fn(Linear(c.field, c.x(A)), []))
  {
    hide Field.IsField;
    LinearIsNonzero(c.field, c.x(A));
    CanonOfNothing(c.field);
  }

  lemma VerticalVanishes<P(!new), F(!new), V(!new)>(c: Curve<P, F, V>, A: P, Q: P)
    requires c.field.IsField()
    ensures c.Value(Fn(Linear(c.field, c.x(A)), []), Q) == c.field.zero <==> c.x(A) == c.x(Q)
  {
    hide Field.IsField, PolyValue, Curve.Value;
    var f, z, u := c.field, c.x(A), c.x(Q);
    ValueOfPolynomial(c, Linear(f, z), Q);
    LinearValue(f, f.neg(z), f.one, u);
    MulOne(f, u);
    AddComm(f, f.neg(z), u);
    if f.Sub(u, z) == f.zero {
      SubThenAdd(f, u, z);
      AddZero(f, z);
    }
    AddNeg(f, z);
  }

  /** The local function has order 1. */
  lemma LocalOrder<P(!new), F(!new), V(!new)>(c: Curve<P, F, V>, A: P)
    requires c.HasCoordinates() && A != c.points.zero
    ensures IsOrder(c, Local(c, A), A, 1)
  {
    hide Field.IsField, Curve.HasCoordinates, FnMul, Curve.Value, Local, IsFn;
    CoordinatesAreFields(c);
    ValueOfOne(c, A);
    LocalVanishes(c, A);
    OneTimes(c, Local(c, A));
    assert FnPower(c, Local(c, A), 1) == c.Product(Local(c, A), FnPower(c, Local(c, A), 0));
    assert IsOrderBy(c, Local(c, A), A, 1, One(c.field), One(c.field));
  }

  lemma TorsionOrder<P(!new), F(!new), V(!new)>(c: Curve<P, F, V>, A: P)
    requires c.HasCoordinates() && IsSmooth(c) && A != c.points.zero && c.y(A) == c.field.zero
    ensures IsOrder(c, Fn(Linear(c.field, c.x(A)), []), A, 2)
  {
    hide Field.IsField, Curve.HasCoordinates, FnMul, PolyValue, IsSmooth, Canon, PMul, Curve.W, Linear;
    CoordinatesAreFields(c);
    var f, l := c.field, Linear(c.field, c.x(A));
    var w := CofactorAtTorsion(c, A);
    var u, y := Fn(Canon(f, w), []), Local(c, A);
    CanonTwice(f, w);
    CanonOfNothing(f);
    ValueOfPolynomial(c, Canon(f, w), A);
    ValueOfCanon(f, w, c.x(A));
    ValueOfOne(c, A);
    LocalVanishes(c, A);
    // u (x - x(A)) == W == y y
    MulOfPolynomial(f, c.W(), Canon(f, w), Fn(l, []));
    CofactorTimes(f, c.W(), w, l);
    TimesYIs(c, y);
    SquareOfY(f, c.W());
    OneTimes(c, y);
    ProductIsFn(c, y, y);
    OneTimes(c, c.Product(y, y));
    assert FnPower(c, y, 1) == c.Product(y, FnPower(c, y, 0)) == y;
    assert FnPower(c, y, 2) == c.Product(y, FnPower(c, y, 1));
    assert IsOrderBy(c, Fn(l, []), A, 2, u, One(f));
  }

  lemma CofactorTimes<F(!new)>(f: Field<F>, W: seq<F>, w: seq<F>, l: seq<F>)
    requires f.IsField() && Canon(f, W) == PMul(f, l, w)
    ensures Scl(f, Canon(f, w), Fn(l, [])) == Fn(Canon(f, W), [])
  {
    hide Field.IsField, Canon, PMul;
    CanonIsSame(f, w);
    SameItself(f, l);
    SameItself(f, []);
    PMulOf(f, w, l, Canon(f, w), l);
    PMulComm(f, w, l);
    PMulZero(f, Canon(f, w), []);
  }

  lemma SquareOfY<F(!new)>(f: Field<F>, W: seq<F>)
    requires f.IsField()
    ensures TimesY(f, W, Fn([], [f.one])) == Fn(Canon(f, W), [])
  {
    hide Field.IsField, Canon, PMul;
    PMulComm(f, W, [f.one]);
    PMulOne(f, W);
  }

  /** A polynomial in x has an order everywhere. */
  lemma {:induction false} OrderOfPolynomial<P(!new), F(!new), V(!new)>(c: Curve<P, F, V>, p: seq<F>, A: P) returns (n: nat)
    requires c.HasCoordinates() && IsSmooth(c) && A != c.points.zero && IsCanon(c.field, p) && p != []
    ensures IsOrder(c, Fn(p, []), A, n)
    decreases |p|
  {
    hide Field.IsField, Curve.HasCoordinates, IsSmooth, Curve.Value, Canon, PMul, PolyValue, IsOrder, FnMul, Deflated, Linear;
    CoordinatesAreFields(c);
    var f, l := c.field, Linear(c.field, c.x(A));
    CanonOfNothing(f);
    ValueOfPolynomial(c, p, A);
    if PolyValue(f, p, c.x(A)) != f.zero {
      OrderZero(c, Fn(p, []), A);
      return 0;
    }
    EmptyValue(f, c.x(A));
    var h := VanishesAtBoth(c, Fn(p, []), A);
    ShorterCofactor(c, p, A, h);
    n := OrderOfPolynomial(c, h.a, A);
    OrderOfVertical(c, A, A);
    OrdersAdd(c, Fn(l, []), h, A, Once(A, A) + Once(c.points.neg(A), A), n);
    n := Once(A, A) + Once(c.points.neg(A), A) + n;
  }

  lemma ShorterCofactor<P(!new), F(!new), V(!new)>(c: Curve<P, F, V>, p: seq<F>, A: P, h: Fn<F>)
    requires c.field.IsField() && IsCanon(c.field, p) && p != [] && IsFn(c.field, h)
    requires Fn(p, []) == Scl(c.field, Linear(c.field, c.x(A)), h)
    ensures h.b == [] && h.a != [] && |h.a| < |p|
  {
    hide Field.IsField, Canon, PMul, Degree, Linear;
    var f, l := c.field, Linear(c.field, c.x(A));
    LinearIsNonzero(f, c.x(A));
    DegreeOfPMul(f, l, h.a);
    DegreeOfPMul(f, l, h.b);
    CanonDegree(f, p);
    CanonDegree(f, h.a);
    CanonDegree(f, h.b);
    CanonDegree(f, []);
    CanonOfNothing(f);
  }

  // ----- conjugates -----

  /** a - b y */
  ghost function Conj<F(!new)>(f: Field<F>, s: Fn<F>): Fn<F> {
    Fn(s.a, PMul(f, [f.neg(f.one)], s.b))
  }

  lemma MinusTimes<F(!new)>(f: Field<F>, p: seq<F>, q: seq<F>)
    requires f.IsField()
    ensures var m := [f.neg(f.one)];
      PMul(f, PMul(f, m, p), q) == PMul(f, m, PMul(f, p, q)) == PMul(f, p, PMul(f, m, q))
  {
    hide Field.IsField, PMul;
    var m := [f.neg(f.one)];
    PMulAssoc(f, m, p, q);
    PMulAssoc(f, p, m, q);
    PMulComm(f, p, m);
  }

  /** p + -p == 0 */
  lemma PlusMinusPolynomial<F(!new)>(f: Field<F>, p: seq<F>)
    requires f.IsField() && Canon(f, p) == p
    ensures PAdd(f, p, PMul(f, [f.neg(f.one)], p)) == []
    ensures PMul(f, [f.neg(f.one)], PMul(f, [f.neg(f.one)], p)) == p
  {
    hide Field.IsField, PMul, PAdd, Canon;
    var m := [f.neg(f.one)];
    PMulOne(f, p);
    PDistrib(f, p, [f.one], m);
    OneMinusOne(f);
    PMulZero(f, p, PAdd(f, [f.one], m));
    MinusOneTwice(f);
    PMulAssoc(f, m, m, p);
  }

  lemma MinusOneTwice<F(!new)>(f: Field<F>)
    requires f.IsField()
    ensures PMul(f, [f.neg(f.one)], [f.neg(f.one)]) == [f.one]
  {
    hide Field.IsField, Canon;
    hide Times, Same, Scale;
    var m := f.neg(f.one);
    TimesByConstant(f, [m], m);
    NegTimes(f, f.one, m);
    MulOne(f, m);
    AdditiveGroup(f);
    NegOfNeg(f.Additive(), f.one);
    ScaledConstant(f, m, m);
    CanonIsUnique(f, Times(f, [m], [m]), [f.one]);
    OneIsNonzero(f);
  }

  lemma ScaledConstant<F(!new)>(f: Field<F>, k: F, m: F)
    ensures Scale(f, [k], m) == [f.mul(k, m)]
  {
  }

  lemma ConjIsFn<P(!new), F(!new), V(!new)>(c: Curve<P, F, V>, s: Fn<F>)
    requires c.field.IsField() && IsFn(c.field, s)
    ensures IsFn(c.field, Conj(c.field, s)) && Conj(c.field, Conj(c.field, s)) == s
  {
    hide Field.IsField, PMul, Canon;
    PMulIsTrimmed(c.field, [c.field.neg(c.field.one)], s.b);
    PlusMinusPolynomial(c.field, s.b);
  }

  lemma ConjOfProduct<P(!new), F(!new), V(!new)>(c: Curve<P, F, V>, s: Fn<F>, t: Fn<F>)
    requires c.field.IsField() && IsFn(c.field, s) && IsFn(c.field, t)
    ensures Conj(c.field, c.Product(s, t)) == c.Product(Conj(c.field, s), Conj(c.field, t))
  {
    hide Field.IsField, PMul, PAdd, Curve.W, Canon;
    var f, w, m := c.field, c.W(), [c.field.neg(c.field.one)];
    // (-q) (w (-v)) == q (w v)
    MinusTimes(f, w, t.b);
    MinusTimes(f, s.b, PMul(f, w, PMul(f, m, t.b)));
    MinusTimes(f, s.b, PMul(f, w, t.b));
    PMulIsTrimmed(f, s.b, PMul(f, w, t.b));
    PlusMinusPolynomial(f, PMul(f, s.b, PMul(f, w, t.b)));
    // p (-v) + (-q) u == -(p v + q u)
    MinusTimes(f, s.a, t.b);
    MinusTimes(f, s.b, t.a);
    PDistrib(f, m, PMul(f, s.a, t.b), PMul(f, s.b, t.a));
  }

  /** The norm is a polynomial in x. */
  lemma NormIsPolynomial<P(!new), F(!new), V(!new)>(c: Curve<P, F, V>, s: Fn<F>)
    requires c.field.IsField() && c.Nonzero(s)
    ensures var norm := c.Product(s, Conj(c.field, s)); c.Nonzero(norm) && norm.b == [] && norm.a != []
    ensures c.Nonzero(Conj(c.field, s))
  {
    hide Field.IsField, PMul, PAdd, Curve.W, Canon;
    var f := c.field;
    ConjIsFn(c, s);
    if Conj(f, s) == Fn([], []) {
      SclOfZero(f, [f.neg(f.one)], s);
      ConjOfZero(c);
      assert false;
    }
    ProductIsNonzero(c, s, Conj(f, s));
    MinusTimes(f, s.a, s.b);
    PMulComm(f, s.b, s.a);
    PMulIsTrimmed(f, s.a, s.b);
    PlusMinusPolynomial(f, PMul(f, s.a, s.b));
    PAddComm(f, PMul(f, s.a, s.b), PMul(f, [f.neg(f.one)], PMul(f, s.a, s.b)));
  }

  lemma ConjOfZero<P(!new), F(!new), V(!new)>(c: Curve<P, F, V>)
    requires c.field.IsField()
    ensures Conj(c.field, Fn([], [])) == Fn([], [])
  {
    hide Field.IsField, PMul;
    SameItself(c.field, []);
    PMulZero(c.field, [c.field.neg(c.field.one)], []);
  }

  /** Every function but zero has an order at every finite point. */
  lemma HasOrder<P(!new), F(!new), V(!new)>(c: Curve<P, F, V>, s: Fn<F>, A: P) returns (n: nat)
    requires c.HasCoordinates() && IsSmooth(c) && A != c.points.zero && c.Nonzero(s)
    ensures IsOrder(c, s, A, n)
  {
    hide Field.IsField, Curve.HasCoordinates, IsSmooth, IsOrder, Curve.Product, Conj, Canon;
    CoordinatesAreFields(c);
    NormIsPolynomial(c, s);
    var norm := c.Product(s, Conj(c.field, s));
    var m := OrderOfPolynomial(c, norm.a, A);
    assert norm == Fn(norm.a, []);
    n := OrderOfFactor(c, s, Conj(c.field, s), A, m);
  }

  ghost function Ord<P(!new), F(!new), V(!new)>(c: Curve<P, F, V>, s: Fn<F>, A: P): nat {
    if exists n :: IsOrder(c, s, A, n) then
      var n: nat :| IsOrder(c, s, A, n);
      n
    else 0
  }

  lemma OrdIs<P(!new), F(!new), V(!new)>(c: Curve<P, F, V>, s: Fn<F>, A: P, n: nat)
    requires c.HasCoordinates() && A != c.points.zero && IsOrder(c, s, A, n)
    ensures Ord(c, s, A) == n
  {
    hide Curve.HasCoordinates, IsOrder;
    OrderIsUnique(c, s, A, Ord(c, s, A), n);
  }

  lemma OrdIsOrder<P(!new), F(!new), V(!new)>(c: Curve<P, F, V>, s: Fn<F>, A: P)
    requires c.HasCoordinates() && IsSmooth(c) && A != c.points.zero && c.Nonzero(s)
    ensures IsOrder(c, s, A, Ord(c, s, A))
    ensures Ord(c, s, A) > 0 <==> c.Value(s, A) == c.field.zero
  {
    hide Curve.HasCoordinates, IsSmooth, IsOrder, Curve.Nonzero, Curve.Value;
    var n := HasOrder(c, s, A);
    OrdIs(c, s, A, n);
    PositiveOrderVanishes(c, s, A, n);
  }

  lemma OrdOfProduct<P(!new), F(!new), V(!new)>(c: Curve<P, F, V>, s: Fn<F>, t: Fn<F>, A: P)
    requires c.HasCoordinates() && IsSmooth(c) && A != c.points.zero && c.Nonzero(s) && c.Nonzero(t)
    ensures c.Nonzero(c.Product(s, t)) && Ord(c, c.Product(s, t), A) == Ord(c, s, A) + Ord(c, t, A)
  {
    hide Curve.HasCoordinates, IsSmooth, IsOrder, Curve.Nonzero, Curve.Value, Curve.Product, Ord;
    CoordinatesAreFields(c);
    ProductIsNonzero(c, s, t);
    OrdIsOrder(c, s, A);
    OrdIsOrder(c, t, A);
    OrdersAdd(c, s, t, A, Ord(c, s, A), Ord(c, t, A));
    OrdIs(c, c.Product(s, t), A, Ord(c, s, A) + Ord(c, t, A));
  }

  lemma {:induction false} OrdOfPower<P(!new), F(!new), V(!new)>(c: Curve<P, F, V>, s: Fn<F>, A: P, n: nat)
    requires c.HasCoordinates() && IsSmooth(c) && A != c.points.zero && c.Nonzero(s) && Ord(c, s, A) == 1
    ensures c.Nonzero(FnPower(c, s, n)) && Ord(c, FnPower(c, s, n), A) == n
  {
    hide Curve.HasCoordinates, IsSmooth, IsOrder, Curve.Nonzero, Curve.Value, Curve.Product, Ord, Field.IsField, One;
    CoordinatesAreFields(c);
    PowerIsFn(c, s, n);
    if n == 0 {
      ValueOfOne(c, A);
      OrdIsOrder(c, One(c.field), A);
    } else {
      OrdOfPower(c, s, A, n - 1);
      OrdOfProduct(c, s, FnPower(c, s, n - 1), A);
    }
  }

  lemma ValueOfConj<P(!new), F(!new), V(!new)>(c: Curve<P, F, V>, s: Fn<F>, A: P)
    requires c.HasCoordinates() && A != c.points.zero
    ensures c.Value(Conj(c.field, s), A) == c.Value(s, c.points.neg(A))
  {
    hide Field.IsField, Curve.HasCoordinates, PMul, PolyValue;
    CoordinatesAreFields(c);
    var f, v := c.field, PolyValue(c.field, s.b, c.x(A));
    Coordinates(c, A);
    ValueOfPMul(f, [f.neg(f.one)], s.b, c.x(A));
    ConstantValue(f, f.neg(f.one), c.x(A));
    NegTimes(f, f.one, v);
    MulOne(f, v);
    NegTimes(f, v, c.y(A));
    Fields.MulNeg(f, v, c.y(A));
  }

  /** The local function at -A, conjugated, has order 1 at A. */
  lemma ConjOfLocal<P(!new), F(!new), V(!new)>(c: Curve<P, F, V>, A: P)
    requires c.HasCoordinates() && IsSmooth(c) && A != c.points.zero
    ensures var q := Conj(c.field, Local(c, c.points.neg(A))); c.Nonzero(q) && Ord(c, q, A) == 1
  {
    hide Field.IsField, Curve.HasCoordinates, IsSmooth, PMul, Ord, IsOrder, Curve.Value, FnMul, Canon, Degree;
    CoordinatesAreFields(c);
    var f, minus := c.field, [c.field.neg(c.field.one)];
    Coordinates(c, A);
    Doubling(f, c.y(A));
    AddNeg(f, f.zero);
    NegUnique(f, f.zero, f.zero) by { AddZero(f, f.zero); }
    LocalVanishes(c, A);
    LocalOrder(c, A);
    OrdIs(c, Local(c, A), A, 1);
    SameItself(f, []);
    PMulZero(f, minus, []);
    if c.y(A) == f.zero {
      MinusOne(f);
      ValueOfConstant(c, f.neg(f.one), A);
      assert c.Nonzero(Fn(minus, [])) by {
        ConstantIsCanon(f, f.neg(f.one));
        CanonOfNothing(f);
      }
      MulOfPolynomial(f, c.W(), minus, Local(c, A));
      OrdIsOrder(c, Fn(minus, []), A);
      OrdOfProduct(c, Fn(minus, []), Local(c, A), A);
    } else {
      if c.y(c.points.neg(A)) == f.zero {
        AdditiveGroup(f);
        NegOfNeg(f.Additive(), c.y(A));
        assert false;
      }
    }
  }

  lemma MinusOne<F(!new)>(f: Field<F>)
    requires f.IsField()
    ensures f.neg(f.one) != f.zero
  {
    hide Field.IsField;
    AddNeg(f, f.one);
    AddZero(f, f.one);
    assert f.one != f.zero by { OneIsFieldOne(f); }
  }

  lemma OneIsFieldOne<F(!new)>(f: Field<F>)
    requires f.IsField()
    ensures f.one != f.zero
  {
  }

  lemma {:induction false} ConjOfPower<P(!new), F(!new), V(!new)>(c: Curve<P, F, V>, s: Fn<F>, n: nat)
    requires c.field.IsField() && c.Nonzero(s)
    ensures Conj(c.field, FnPower(c, s, n)) == FnPower(c, Conj(c.field, s), n)
  {
    hide Field.IsField, FnMul, PMul, IsFn;
    PowerIsFn(c, s, n);
    if n == 0 {
      SameItself(c.field, []);
      PMulZero(c.field, [c.field.neg(c.field.one)], []);
    } else {
      PowerIsFn(c, s, n - 1);
      ConjOfPower(c, s, n - 1);
      ConjOfProduct(c, s, FnPower(c, s, n - 1));
    }
  }

  /** Conjugation exchanges A and -A. */
  lemma OrdOfConj<P(!new), F(!new), V(!new)>(c: Curve<P, F, V>, s: Fn<F>, A: P)
    requires c.HasCoordinates() && IsSmooth(c) && A != c.points.zero && c.Nonzero(s)
    ensures c.Nonzero(Conj(c.field, s)) && Ord(c, Conj(c.field, s), A) == Ord(c, s, c.points.neg(A))
  {
    hide Field.IsField, Group.IsGroup, Curve.HasCoordinates, IsSmooth, Conj, Ord, IsOrder, Curve.Value, Curve.Product, FnPower, Local, IsFn;
    CoordinatesAreFields(c);
    var f, B := c.field, c.points.neg(A);
    var n := Ord(c, s, B);
    Coordinates(c, A);
    NormIsPolynomial(c, s);
    OrdIsOrder(c, s, B);
    var u, h := WitnessOfOrder(c, s, B, n);
    LocalVanishes(c, B);
    PowerIsFn(c, Local(c, B), n);
    ConjOfProduct(c, u, s);
    ConjOfProduct(c, FnPower(c, Local(c, B), n), h);
    ConjOfPower(c, Local(c, B), n);
    ConjOfLocal(c, A);
    OrdOfPower(c, Conj(f, Local(c, B)), A, n);
    UnitConj(c, u, A);
    UnitConj(c, h, A);
    OrdOfProduct(c, Conj(f, u), Conj(f, s), A);
    OrdOfProduct(c, FnPower(c, Conj(f, Local(c, B)), n), Conj(f, h), A);
  }

  lemma UnitConj<P(!new), F(!new), V(!new)>(c: Curve<P, F, V>, u: Fn<F>, A: P)
    requires c.HasCoordinates() && IsSmooth(c) && A != c.points.zero && IsFn(c.field, u)
    requires c.Value(u, c.points.neg(A)) != c.field.zero
    ensures c.Nonzero(Conj(c.field, u)) && Ord(c, Conj(c.field, u), A) == 0
  {
    hide Field.IsField, Curve.HasCoordinates, IsSmooth, Conj, Ord, IsOrder, Curve.Value, IsFn;
    CoordinatesAreFields(c);
    ConjIsFn(c, u);
    ValueOfConj(c, u, A);
    NonzeroByValue(c, Conj(c.field, u), A);
    OrdIsOrder(c, Conj(c.field, u), A);
  }

  lemma OrdOfVertical<P(!new), F(!new), V(!new)>(c: Curve<P, F, V>, A: P, Q: P)
    requires c.HasCoordinates() && IsSmooth(c) && A != c.points.zero && Q != c.points.zero
    ensures var v := Fn(Linear(c.field, c.x(A)), []);
      c.Nonzero(v) && Ord(c, v, Q) == Once(A, Q) + Once(A, c.points.neg(Q))
  {
    hide Field.IsField, Group.IsGroup, Curve.HasCoordinates, IsSmooth, Ord, IsOrder, Linear, IsFn;
    CoordinatesAreFields(c);
    VerticalIsFn(c, A);
    OrderOfVertical(c, A, Q);
    OrdIs(c, Fn(Linear(c.field, c.x(A)), []), Q, Once(A, Q) + Once(c.points.neg(A), Q));
    NegOfNeg(c.points, A);
    NegOfNeg(c.points, Q);
  }

  // ----- lines -----

  /** y - (m x + i) as a function. */
  lemma SlopedIs<P(!new), F(!new), V(!new)>(c: Curve<P, F, V>, m: F, i: F)
    requires c.field.IsField()
    ensures var f := c.field;
      c.Of(Sloped(f, m, i)) == Fn(Canon(f, [f.neg(i), f.neg(m)]), [f.one]) && c.Nonzero(c.Of(Sloped(f, m, i)))
  {
    hide Field.IsField, Canon, Red;
    var f := c.field;
    RedOfFew(f, c.W(), [f.neg(i), f.neg(m)], [f.one]);
    OneIsNonzero(f);
    CanonTwice(f, [f.neg(i), f.neg(m)]);
  }

  lemma LineVanishes<P(!new), F(!new), V(!new)>(c: Curve<P, F, V>, m: F, i: F, Q: P)
    requires c.HasCoordinates()
    ensures c.Value(c.Of(Sloped(c.field, m, i)), Q) == c.field.zero <==> c.OnLine(m, i, Q)
  {
    hide Field.IsField, Curve.HasCoordinates, Canon, Curve.Of, PolyValue;
    CoordinatesAreFields(c);
    var f := c.field;
    var l := f.add(i, f.mul(m, c.x(Q)));
    SlopedIs(c, m, i);
    ValueOfCanon(f, [f.neg(i), f.neg(m)], c.x(Q));
    LinearValue(f, f.neg(i), f.neg(m), c.x(Q));
    NegTimes(f, m, c.x(Q));
    NegOfFieldSum(f, i, f.mul(m, c.x(Q)));
    ConstantValue(f, f.one, c.x(Q));
    MulOne(f, c.y(Q));
    // -l + y == 0 <==> y == l
    AddNeg(f, l);
    if f.add(f.neg(l), c.y(Q)) == f.zero {
      NegUnique(f, f.neg(l), c.y(Q));
      AdditiveGroup(f);
      NegOfNeg(f.Additive(), l);
    }
  }

  /** The other line, y + (m x + i): minus the conjugate. */
  ghost function Mirrored<F(!new)>(f: Field<F>, m: F, i: F): Fn<F> {
    Fn(Canon(f, [i, m]), [f.one])
  }

  lemma MirroredIsConjugate<P(!new), F(!new), V(!new)>(c: Curve<P, F, V>, m: F, i: F)
    requires c.field.IsField()
    ensures var f := c.field;
      Scl(f, [f.neg(f.one)], Conj(f, c.Of(Sloped(f, m, i)))) == Mirrored(f, m, i)
  {
    hide Field.IsField, Canon, PMul, Curve.Of;
    var f, minus, p := c.field, [c.field.neg(c.field.one)], [c.field.neg(i), c.field.neg(m)];
    SlopedIs(c, m, i);
    OneIsNonzero(f);
    PlusMinusPolynomial(f, [f.one]);
    CanonIsSame(f, p);
    SameItself(f, minus);
    PMulOf(f, minus, p, minus, Canon(f, p));
    MinusLine(f, m, i);
  }

  lemma MinusLine<F(!new)>(f: Field<F>, m: F, i: F)
    requires f.IsField()
    ensures PMul(f, [f.neg(f.one)], [f.neg(i), f.neg(m)]) == Canon(f, [i, m])
  {
    hide Field.IsField, Canon, Times, Same;
    var minus, p := [f.neg(f.one)], [f.neg(i), f.neg(m)];
    PMulComm(f, minus, p);
    TimesByConstant(f, p, f.neg(f.one));
    MinusOneNegates(f, i);
    MinusOneNegates(f, m);
    assert Scale(f, p, f.neg(f.one)) == [i, m];
    CanonIsUnique(f, Times(f, p, minus), [i, m]);
  }

  /** (-u) (-1) == u */
  lemma MinusOneNegates<F(!new)>(f: Field<F>, u: F)
    requires f.IsField()
    ensures f.mul(f.neg(u), f.neg(f.one)) == u
  {
    hide Field.IsField;
    Fields.MulNeg(f, f.neg(u), f.one);
    MulOne(f, f.neg(u));
    AdditiveGroup(f);
    NegOfNeg(f.Additive(), u);
  }

  /** Their product is the intersection polynomial. */
  lemma LineTimesMirrored<P(!new), F(!new), V(!new)>(c: Curve<P, F, V>, m: F, i: F)
    requires c.field.IsField()
    ensures c.Product(c.Of(Sloped(c.field, m, i)), Mirrored(c.field, m, i)) == Fn(Canon(c.field, c.Intersection(m, i)), [])
  {
    hide Field.IsField, Canon, Curve.Of, Times, Add, Same, Curve.W;
    var f, w := c.field, c.W();
    var p, q := [f.neg(i), f.neg(m)], [i, m];
    SlopedIs(c, m, i);
    CanonIsSame(f, p);
    CanonIsSame(f, q);
    PMulOf(f, p, q, Canon(f, p), Canon(f, q));
    // 1 (w 1) == w
    PMulComm(f, w, [f.one]);
    PMulOne(f, w);
    PMulOne(f, Canon(f, w));
    CanonTwice(f, w);
    CanonIsSame(f, w);
    CanonIsSame(f, Times(f, p, q));
    PAddOf(f, Canon(f, Times(f, p, q)), Canon(f, w), Times(f, p, q), w);
    PAddComm(f, Times(f, p, q), w);
    // p 1 + 1 q == 0
    PMulComm(f, Canon(f, p), [f.one]);
    PMulOne(f, Canon(f, p));
    PMulOne(f, Canon(f, q));
    CanonTwice(f, p);
    CanonTwice(f, q);
    PAddOf(f, Canon(f, p), Canon(f, q), p, q);
    OppositeLines(f, m, i);
  }

  lemma OppositeLines<F(!new)>(f: Field<F>, m: F, i: F)
    requires f.IsField()
    ensures PAdd(f, [f.neg(i), f.neg(m)], [i, m]) == []
  {
    hide Field.IsField, Canon, Same;
    AddNeg(f, i);
    AddNeg(f, m);
    assert Add(f, [f.neg(i), f.neg(m)], [i, m]) == [f.zero, f.zero];
    assert Same(f, [f.zero, f.zero], []) by { ZerosAreNothing(f); }
    CanonIsUnique(f, [f.zero, f.zero], []);
    CanonOfNothing(f);
  }

  lemma ZerosAreNothing<F(!new)>(f: Field<F>)
    ensures Same(f, [f.zero, f.zero], [])
  {
  }

  /** The points of a line that meets the curve in A, B and C, with multiplicities. */
  ghost function Times3<P(!new)>(A: P, B: P, C: P, Q: P): nat {
    Once(A, Q) + Once(B, Q) + Once(C, Q)
  }

  lemma OrdOfIntersection<P(!new), F(!new), V(!new)>(c: Curve<P, F, V>, m: F, i: F, A: P, B: P, C: P, Q: P)
    requires c.HasCoordinates() && IsSmooth(c) && Q != c.points.zero && c.Meets(m, i, A, B, C)
    ensures Ord(c, Fn(Canon(c.field, c.Intersection(m, i)), []), Q) == Times3(A, B, C, Q) + Times3(A, B, C, c.points.neg(Q))
  {
    hide Field.IsField, Group.IsGroup, Curve.HasCoordinates, IsSmooth, Ord, IsOrder, Linear, IsFn, Canon, Times, Curve.OnLine, Curve.Intersection,
      Same, FnMul, Curve.W, PMul;
    CoordinatesAreFields(c);
    var f, p, q, r := c.field, Linear(c.field, c.x(A)), Linear(c.field, c.x(B)), Linear(c.field, c.x(C));
    CanonIsUnique(f, c.Intersection(m, i), Times(f, Times(f, p, q), r));
    PMulIsCanon(f, Times(f, p, q), r);
    PMulIsCanon(f, p, q);
    CanonIsSame(f, Times(f, p, q));
    SameItself(f, r);
    PMulOf(f, Times(f, p, q), r, PMul(f, p, q), r);
    PolynomialTimes(c, p, q);
    PolynomialTimes(c, PMul(f, p, q), r);
    OrdOfVertical(c, A, Q);
    OrdOfVertical(c, B, Q);
    OrdOfVertical(c, C, Q);
    OrdOfProduct(c, Fn(p, []), Fn(q, []), Q);
    OrdOfProduct(c, c.Product(Fn(p, []), Fn(q, [])), Fn(r, []), Q);
  }

  lemma PolynomialTimes<P(!new), F(!new), V(!new)>(c: Curve<P, F, V>, p: seq<F>, q: seq<F>)
    requires c.field.IsField()
    ensures c.Product(Fn(p, []), Fn(q, [])) == Fn(PMul(c.field, p, q), [])
  {
    hide Field.IsField, PMul, FnMul, Curve.W;
    MulOfPolynomial(c.field, c.W(), p, Fn(q, []));
    SameItself(c.field, []);
    PMulZero(c.field, p, []);
  }

  /** A line vanishes where it meets the curve, with the same multiplicities. */
  lemma OrdOfLine<P(!new), F(!new), V(!new)>(c: Curve<P, F, V>, m: F, i: F, A: P, B: P, C: P, Q: P)
    requires c.HasCoordinates() && IsSmooth(c) && Q != c.points.zero && c.Meets(m, i, A, B, C)
    ensures Ord(c, c.Of(Sloped(c.field, m, i)), Q) == Times3(A, B, C, Q)
  {
    hide Field.IsField, Group.IsGroup, Curve.HasCoordinates, IsSmooth, Ord, IsOrder, Canon, Curve.OnLine, Curve.Intersection, Same, Times, Linear,
      Curve.Of, Curve.Nonzero, Sloped, Curve.Value, Curve.Product;
    CoordinatesAreFields(c);
    var l, R := c.Of(Sloped(c.field, m, i)), c.points.neg(Q);
    Coordinates(c, Q);
    LineOnBothSides(c, m, i, A, B, C, Q);
    OrdIsOrder(c, l, Q);
    OrdIsOrder(c, l, R);
    LineVanishes(c, m, i, Q);
    LineVanishes(c, m, i, R);
    TorsionIsZeroY(c, Q);
    if R != Q && c.OnLine(m, i, Q) && c.OnLine(m, i, R) {
      OppositeOnLine(c, m, i, Q);
      assert false;
    }
  }

  lemma OppositeOnLine<P(!new), F(!new), V(!new)>(c: Curve<P, F, V>, m: F, i: F, Q: P)
    requires c.HasCoordinates() && Q != c.points.zero && c.OnLine(m, i, Q) && c.OnLine(m, i, c.points.neg(Q))
    ensures c.points.neg(Q) == Q
  {
    hide Field.IsField, Group.IsGroup;
    Coordinates(c, Q);
    SameCoordinates(c, Q, c.points.neg(Q));
  }

  /** The orders at Q and -Q add up to those of the intersection polynomial. */
  lemma LineOnBothSides<P(!new), F(!new), V(!new)>(c: Curve<P, F, V>, m: F, i: F, A: P, B: P, C: P, Q: P)
    requires c.HasCoordinates() && IsSmooth(c) && Q != c.points.zero && c.Meets(m, i, A, B, C)
    ensures var l := c.Of(Sloped(c.field, m, i));
      && c.Nonzero(l)
      && Ord(c, l, Q) + Ord(c, l, c.points.neg(Q)) == Times3(A, B, C, Q) + Times3(A, B, C, c.points.neg(Q))
  {
    hide Field.IsField, Group.IsGroup, Curve.HasCoordinates, IsSmooth, Ord, IsOrder, Canon, Curve.Meets, Curve.Intersection,
      Curve.Of, Curve.Nonzero, Sloped, Curve.Value, Curve.Product, Conj, Mirrored, Scl, Times3;
    CoordinatesAreFields(c);
    var f, l := c.field, c.Of(Sloped(c.field, m, i));
    SlopedIs(c, m, i);
    OrdOfIntersection(c, m, i, A, B, C, Q);
    LineTimesMirrored(c, m, i);
    MirroredIsConjugate(c, m, i);
    OrdOfConj(c, l, Q);
    MinusOne(f);
    OrdOfScaled(c, Conj(f, l), f.neg(f.one), Q);
    OrdOfProduct(c, l, Mirrored(f, m, i), Q);
  }

  lemma OrdOfScaled<P(!new), F(!new), V(!new)>(c: Curve<P, F, V>, s: Fn<F>, k: F, Q: P)
    requires c.HasCoordinates() && IsSmooth(c) && Q != c.points.zero && c.Nonzero(s) && k != c.field.zero
    ensures c.Nonzero(Scl(c.field, [k], s)) && Ord(c, Scl(c.field, [k], s), Q) == Ord(c, s, Q)
  {
    hide Field.IsField, Curve.HasCoordinates, IsSmooth, Ord, IsOrder, Curve.Value, FnMul, Curve.W, Canon;
    CoordinatesAreFields(c);
    assert c.Nonzero(Fn([k], [])) by {
      ConstantIsCanon(c.field, k);
      CanonOfNothing(c.field);
    }
    ValueOfConstant(c, k, Q);
    OrdIsOrder(c, Fn([k], []), Q);
    OrdOfProduct(c, Fn([k], []), s, Q);
    MulOfPolynomial(c.field, c.W(), [k], s);
  }
}
