/** Short lattice bases for scalar decomposition. */
module Lattice {
  import opened IntMath
  import opened Results
  import opened Divisibility

  datatype Basis = Basis(v1: (int, int), v2: (int, int), det: int, b1: int, b2: int)

  /** A row of the Euclidean state: rem = s*r + t*lam. */
  datatype Row = Row(rem: int, s: int, t: int)

  predicate IsRow(x: Row, r: int, lam: int) {
    x.rem == x.s * r + x.t * lam
  }

  function Cross(p: Row, c: Row): int {
    p.rem * c.t - c.rem * p.t
  }

  function NextRow(p: Row, c: Row): Row
    requires c.rem != 0
  {
    var q := FloorDiv(p.rem, c.rem);
    Row(FloorMod(p.rem, c.rem), p.s - c.s * q, p.t - c.t * q)
  }

  lemma NextRowIsRow(p: Row, c: Row, r: int, lam: int)
    requires IsRow(p, r, lam) && IsRow(c, r, lam) && c.rem != 0
    ensures IsRow(NextRow(p, c), r, lam)
    ensures Cross(c, NextRow(p, c)) == -Cross(p, c)
  {
    var q := FloorDiv(p.rem, c.rem);
    FloorModRange(p.rem, c.rem);
    var n := NextRow(p, c);
    assert n.rem == p.rem - c.rem * q;
    RowStep(p.rem, c.rem, q, p.s, c.s, p.t, c.t, r, lam);
    CrossStep(p.rem, c.rem, q, p.t, c.t);
  }

  lemma RowStep(p: int, c: int, q: int, ps: int, cs: int, pt: int, ct: int, r: int, lam: int)
    requires p == ps * r + pt * lam && c == cs * r + ct * lam
    ensures p - c * q == (ps - cs * q) * r + (pt - ct * q) * lam
  {
    assert c * q == (cs * q) * r + (ct * q) * lam;
  }

  lemma CrossStep(p: int, c: int, q: int, pt: int, ct: int)
    ensures c * (pt - ct * q) - (p - c * q) * ct == -(p * ct - c * pt)
  {
  }

  /** The remainders stay on one side of zero. For a positive lambda the cofactors
      alternate in sign; for a negative one they do so after the first two rows. */
  ghost predicate Signs(p: Row, c: Row, lam: int) {
    && (lam >= 0 ==> p.rem >= 0 && c.rem >= 0 && p.t * c.t <= 0)
    && (lam < 0 ==> c.rem <= 0)
    && (lam < 0 ==> NegativeStart(p, c) || NegativeSecond(p, c) || (p.rem <= 0 && p.t * c.t <= 0))
  }

  ghost predicate NegativeStart(p: Row, c: Row) {
    p.rem > 0 && p.t == 0 && c.t == 1
  }

  ghost predicate NegativeSecond(p: Row, c: Row) {
    p.rem < c.rem <= 0 && p.t == 1 && c.t >= 1
  }

  lemma NextRowSigns(p: Row, c: Row, lam: int)
    requires Signs(p, c, lam) && c.rem != 0
    ensures Signs(c, NextRow(p, c), lam)
    ensures Abs(NextRow(p, c).rem) < Abs(c.rem)
  {
    FloorModRange(p.rem, c.rem);
    var q := FloorDiv(p.rem, c.rem);
    if lam >= 0 {
      assert q >= 0;
      AlternatingStep(p.t, c.t, q);
    } else if NegativeStart(p, c) {
      NegativeQuotient(p.rem, c.rem);
    } else if NegativeSecond(p, c) {
      PositiveQuotient(p.rem, c.rem);
      AlternatingStart(c.t, q);
    } else {
      NonNegativeQuotient(p.rem, c.rem);
      AlternatingStep(p.t, c.t, q);
    }
  }

  lemma NegativeQuotient(a: int, b: int)
    requires a > 0 && b < 0
    ensures FloorDiv(a, b) <= -1
  {
    FloorModRange(a, b);
    var q := FloorDiv(a, b);
    SignedProduct(b, q);
    if q >= 0 {
      NonNegativeProduct(q, -b);
    }
  }

  lemma PositiveQuotient(a: int, b: int)
    requires a < b < 0
    ensures FloorDiv(a, b) >= 1
  {
    FloorModRange(a, b);
    var q := FloorDiv(a, b);
    SignedProduct(b, q);
    if q <= 0 {
      NonNegativeProduct(-q, -b);
    }
  }

  lemma NonNegativeQuotient(a: int, b: int)
    requires a <= 0 && b < 0
    ensures FloorDiv(a, b) >= 0
  {
  }

  lemma AlternatingStart(ct: int, q: int)
    requires ct >= 1 && q >= 1
    ensures ct * (1 - ct * q) <= 0
  {
    assert ct * q >= 1;
    NonNegativeProduct(ct, ct * q - 1);
    SignedProduct(ct, ct * q - 1);
  }

  lemma AlternatingStep(pt: int, ct: int, q: int)
    requires q >= 0 && pt * ct <= 0
    ensures ct * (pt - ct * q) <= 0
  {
    assert ct * (pt - ct * q) == pt * ct - (ct * ct) * q;
    assert (ct * ct) * q >= 0;
  }

  function NormSquared(v: (int, int)): int {
    v.0 * v.0 + v.1 * v.1
  }

  function RoundHalfUp(a: nat, b: nat): nat
    requires b > 0
  {
    if 2 * (a % b) >= b then a / b + 1 else a / b
  }

  /** round_half_away_from_zero */
  function RoundHalfAway(a: int, b: int): int
    requires b != 0
  {
    var q: int := RoundHalfUp(Abs(a), Abs(b));
    if (a < 0) != (b < 0) then -q else q
  }

  lemma RoundHalfUpIsNearest(a: nat, b: nat)
    requires b > 0
    ensures 2 * Abs(a - b * RoundHalfUp(a, b)) <= b
  {
    assert a == b * (a / b) + a % b;
    assert b * (a / b + 1) == b * (a / b) + b;
  }

  lemma RoundHalfAwayIsNearest(a: int, b: int)
    requires b != 0
    ensures 2 * Abs(a - b * RoundHalfAway(a, b)) <= Abs(b)
  {
    hide RoundHalfUp;
    var q := RoundHalfUp(Abs(a), Abs(b));
    RoundHalfUpIsNearest(Abs(a), Abs(b));
    SignedProduct(b, q);
  }

  /** Halves go away from zero. */
  lemma RoundHalfAwayOfHalf(a: int, b: int)
    requires b != 0 && 2 * Abs(a - b * RoundHalfAway(a, b)) == Abs(b)
    ensures Abs(b * RoundHalfAway(a, b)) > Abs(a)
  {
    var m, d := Abs(a), Abs(b);
    var q := RoundHalfUp(m, d);
    SignedProduct(b, q);
    assert m == d * (m / d) + m % d;
    assert d * (m / d + 1) == d * (m / d) + d;
  }

  lemma SignedProduct(b: int, q: int)
    ensures (-b) * q == -(b * q) == b * (-q)
    ensures (-b) * (-q) == b * q
  {
  }

  /** The fixed-point position used by both functions; a determinant below 2^31,
      and every negative one, leaves no fractional bits at all. */
  function Shift(det: int): nat {
    2 * (((BitLength(Max(1, det)) + 32) / 64) * 64)
  }

  /** The multiple of 128 that is nearest to twice the bit length. */
  lemma ShiftIsNearest(det: int)
    ensures Shift(det) % 128 == 0
    ensures Shift(det) - 64 <= 2 * BitLength(Max(1, det)) < Shift(det) + 64
  {
  }

  // ----- what the basis promises -----

  function ImageMod(v: (int, int), lam: int): int {
    v.0 + v.1 * lam
  }

  /** What precompute_lattice promises of its result, for either sign of lambda. */
  ghost predicate IsBasisFor(l: Basis, r: int, lam: int) {
    && r > 0
    && Divides(r, ImageMod(l.v1, lam)) && Divides(r, ImageMod(l.v2, lam))
    && l.det == l.v1.0 * l.v2.1 - l.v1.1 * l.v2.0
    && (l.det == r || l.det == -r)
    && 0 < Abs(l.v1.0) < Isqrt(r) && l.v1.1 != 0
    && (l.v1.0 > 0 <==> lam >= 0)
    && (lam > 0 ==> Abs(l.v1.1) * Isqrt(r) <= r)
    && (lam < 0 ==> (Abs(l.v1.1) - 1) * Isqrt(r) <= r)
  }

  /** b1 and b2 are 2^n * v2[1] / det and 2^n * v1[1] / det, rounded. */
  predicate HasRoundedInverse(l: Basis) {
    && l.det != 0
    && l.b1 == RoundHalfAway(l.v2.1 * Pow2(Shift(l.det)), l.det)
    && l.b2 == RoundHalfAway(l.v1.1 * Pow2(Shift(l.det)), l.det)
  }

  /** They are nearest integers. */
  ghost predicate HasNearestInverse(l: Basis) {
    && l.det != 0
    && 2 * Abs(l.v2.1 * Pow2(Shift(l.det)) - l.det * l.b1) <= Abs(l.det)
    && 2 * Abs(l.v1.1 * Pow2(Shift(l.det)) - l.det * l.b2) <= Abs(l.det)
  }

  lemma InverseIsNearest(l: Basis)
    requires HasRoundedInverse(l)
    ensures HasNearestInverse(l)
  {
    hide RoundHalfAway, Shift;
    RoundHalfAwayIsNearest(l.v2.1 * Pow2(Shift(l.det)), l.det);
    RoundHalfAwayIsNearest(l.v1.1 * Pow2(Shift(l.det)), l.det);
  }

  /** The two rows bracketing the threshold. */
  ghost predicate Bracket(p: Row, c: Row, r: int, lam: int) {
    && r > 0
    && IsRow(p, r, lam) && IsRow(c, r, lam)
    && (Cross(p, c) == r || Cross(p, c) == -r)
    && Signs(p, c, lam)
    && Abs(p.rem) >= Isqrt(r)
    && (lam > 0 ==> HasShortCofactors(p, c, r))
  }

  /** The first cofactor is at most isqrt(r); so is the second as long as the remainders do not fall. */
  ghost predicate HasShortCofactors(p: Row, c: Row, r: int)
    requires r > 0
  {
    Abs(p.t) <= Isqrt(r) && (c.rem < p.rem || Abs(c.t) <= Isqrt(r))
  }

  lemma RowIsInLattice(x: Row, r: int, lam: int)
    requires r > 0 && IsRow(x, r, lam)
    ensures Divides(r, ImageMod((x.rem, -x.t), lam))
  {
    assert x.rem + (-x.t) * lam == r * x.s by {
      assert (-x.t) * lam == -(x.t * lam);
    }
    MultipleDivides(r, x.s);
  }

  lemma CofactorNonZero(c: Row, r: int, lam: int)
    requires r > 0 && IsRow(c, r, lam) && 0 < Abs(c.rem) < r
    ensures c.t != 0
  {
    if c.t == 0 {
      assert c.rem == r * c.s;
      ProductSize(r, c.s);
    }
  }

  /** p|t_c| + c|t_p| = r when the cofactors alternate, so |t_c| is at most r / p. */
  lemma CofactorIsShort(p: Row, c: Row, r: int, lam: int)
    requires Bracket(p, c, r, lam) && lam > 0
    ensures Abs(c.t) * p.rem + Abs(p.t) * c.rem == r
    ensures Abs(c.t) * Isqrt(r) <= r
  {
    AlternatingSum(p.rem, c.rem, p.t, c.t, r);
    NonNegativeProduct(Abs(p.t), c.rem);
    ProductMonotone(Abs(c.t), Isqrt(r), p.rem);
  }

  /** For a negative lambda the cofactor may exceed r / p by one. */
  lemma NegativeCofactorIsShort(p: Row, c: Row, r: int, lam: int)
    requires Bracket(p, c, r, lam) && lam < 0 && c.t != 0
    ensures (Abs(c.t) - 1) * Isqrt(r) <= r
  {
    hide Isqrt;
    var m := Abs(p.rem);
    NegativeCofactorProduct(p, c, r);
    assert (Abs(c.t) - 1) * m == Abs(c.t) * m - m;
    ProductMonotone(Abs(c.t) - 1, Isqrt(r), m);
  }

  lemma NegativeCofactorProduct(p: Row, c: Row, r: int)
    requires r > 0 && c.rem <= 0 && (Cross(p, c) == r || Cross(p, c) == -r)
    requires NegativeStart(p, c) || NegativeSecond(p, c) || (p.rem <= 0 && p.t * c.t <= 0)
    ensures Abs(c.t) * Abs(p.rem) <= r + Abs(p.rem)
  {
    if NegativeStart(p, c) {
    } else if NegativeSecond(p, c) {
      SecondRowProduct(p.rem, c.rem, c.t, r);
    } else {
      NegatedCross(p.rem, c.rem, p.t, c.t);
      AlternatingSum(-p.rem, -c.rem, p.t, c.t, r);
      NonNegativeProduct(Abs(p.t), -c.rem);
    }
  }

  lemma SecondRowProduct(p: int, c: int, ct: int, r: int)
    requires p < c <= 0 && ct >= 1 && (p * ct - c == r || p * ct - c == -r) && r > 0
    ensures ct * -p <= r + -p
  {
    SignedProduct(p, ct);
  }

  lemma NegatedCross(p: int, c: int, pt: int, ct: int)
    ensures (-p) * ct - (-c) * pt == -(p * ct - c * pt)
  {
  }

  lemma NonNegativeProduct(x: int, y: int)
    requires x >= 0 && y >= 0
    ensures x * y >= 0
  {
  }

  lemma AlternatingSum(p: int, c: int, pt: int, ct: int, r: int)
    requires p >= 0 && c >= 0 && pt * ct <= 0 && r > 0
    requires p * ct - c * pt == r || p * ct - c * pt == -r
    ensures Abs(ct) * p + Abs(pt) * c == r
  {
    if ct > 0 {
      assert pt <= 0;
      assert p * ct >= 0 && c * pt <= 0;
      SignedProduct(c, pt);
    } else if ct < 0 {
      assert pt >= 0;
      assert p * ct <= 0 && c * pt >= 0;
      SignedProduct(p, ct);
    } else if pt >= 0 {
      assert c * pt >= 0;
    } else {
      SignedProduct(c, pt);
      assert c * pt <= 0;
    }
  }

  /** Either candidate for v2 spans, with v1, a lattice of the same determinant. */
  lemma CandidateDeterminants(p: Row, c: Row)
    requires c.rem != 0
    ensures c.rem * (-p.t) - (-c.t) * p.rem == Cross(p, c)
    ensures c.rem * (-NextRow(p, c).t) - (-c.t) * NextRow(p, c).rem == Cross(p, c)
  {
    var q := FloorDiv(p.rem, c.rem);
    FloorModRange(p.rem, c.rem);
    CrossStep(p.rem, c.rem, q, p.t, c.t);
    SignedProduct(c.rem, p.t);
    SignedProduct(c.t, p.rem);
    SignedProduct(c.rem, NextRow(p, c).t);
    SignedProduct(c.t, NextRow(p, c).rem);
  }

  lemma FirstVectorIsShort(p: Row, c: Row, r: int, lam: int)
    requires Bracket(p, c, r, lam) && 0 < Abs(c.rem) < Isqrt(r)
    ensures c.t != 0 && (c.rem > 0 <==> lam >= 0)
    ensures lam > 0 ==> Abs(c.t) * Isqrt(r) <= r
    ensures lam < 0 ==> (Abs(c.t) - 1) * Isqrt(r) <= r
  {
    hide Isqrt, Cross;
    RootBelow(r);
    CofactorNonZero(c, r, lam);
    if lam > 0 {
      CofactorIsShort(p, c, r, lam);
    } else if lam < 0 {
      NegativeCofactorIsShort(p, c, r, lam);
    }
  }

  lemma RowsAreInLattice(p: Row, c: Row, r: int, lam: int)
    requires Bracket(p, c, r, lam) && c.rem != 0
    ensures Divides(r, ImageMod((c.rem, -c.t), lam))
    ensures Divides(r, ImageMod((p.rem, -p.t), lam))
    ensures Divides(r, ImageMod((NextRow(p, c).rem, -NextRow(p, c).t), lam))
  {
    hide Isqrt, NextRow, ImageMod, Divides;
    NextRowIsRow(p, c, r, lam);
    RowIsInLattice(p, r, lam);
    RowIsInLattice(c, r, lam);
    RowIsInLattice(NextRow(p, c), r, lam);
  }

  lemma FinishBasis(p: Row, c: Row, v2: (int, int), l: Basis, r: int, lam: int)
    requires Bracket(p, c, r, lam) && 0 < Abs(c.rem) < Isqrt(r)
    requires v2 == (p.rem, -p.t) || v2 == (NextRow(p, c).rem, -NextRow(p, c).t)
    requires l.v1 == (c.rem, -c.t) && l.v2 == v2 && l.det == l.v1.0 * v2.1 - l.v1.1 * v2.0
    ensures IsBasisFor(l, r, lam)
  {
    hide Bracket, NextRow, Isqrt, ImageMod, Divides;
    ModulusIsPositive(p, c, r, lam);
    DeterminantIsModulus(p, c, v2, r, lam);
    RowsAreInLattice(p, c, r, lam);
    FirstVectorIsShort(p, c, r, lam);
  }

  lemma DeterminantIsModulus(p: Row, c: Row, v2: (int, int), r: int, lam: int)
    requires Bracket(p, c, r, lam) && c.rem != 0
    requires v2 == (p.rem, -p.t) || v2 == (NextRow(p, c).rem, -NextRow(p, c).t)
    ensures c.rem * v2.1 - (-c.t) * v2.0 == r || c.rem * v2.1 - (-c.t) * v2.0 == -r
  {
    hide NextRow, Isqrt;
    CandidateDeterminants(p, c);
  }

  lemma RootBelow(r: nat)
    ensures Isqrt(r) <= r
  {
    var s := Isqrt(r);
    assert s <= s * s;
  }

  lemma InitialBracket(r: nat, lam: int)
    requires r > 0
    ensures Bracket(Row(r, 1, 0), Row(lam, 0, 1), r, lam)
  {
    RootBelow(r);
    IsqrtGreatest(r, 1);
  }

  lemma NextBracket(p: Row, c: Row, r: int, lam: int)
    requires Bracket(p, c, r, lam) && Abs(c.rem) >= Isqrt(r) && c.rem != 0
    ensures Bracket(c, NextRow(p, c), r, lam)
    ensures Abs(NextRow(p, c).rem) < Abs(c.rem)
  {
    hide NextRow, Isqrt, Cross, IsRow, Signs, HasShortCofactors;
    NextRowIsRow(p, c, r, lam);
    NextRowSigns(p, c, lam);
    if lam > 0 {
      NextCofactorIsShort(p, c, r, lam);
    }
  }

  lemma NextCofactorIsShort(p: Row, c: Row, r: int, lam: int)
    requires Bracket(p, c, r, lam) && lam > 0 && Abs(c.rem) >= Isqrt(r) && c.rem != 0
    requires Signs(c, NextRow(p, c), lam) && Abs(NextRow(p, c).rem) < Abs(c.rem)
    ensures HasShortCofactors(c, NextRow(p, c), r)
  {
    hide Isqrt, NextRow, Cross, IsRow;
    if c.rem < p.rem {
      CofactorIsShort(p, c, r, lam);
      NonNegativeProduct(Abs(p.t), c.rem);
      QuotientBelowRoot(Abs(c.t), p.rem, r, Isqrt(r));
    }
  }

  /** x p <= r < (s + 1)^2 with p > s leaves x at most s. */
  lemma QuotientBelowRoot(x: nat, p: int, r: int, s: nat)
    requires x * p <= r < (s + 1) * (s + 1) && p > s
    ensures x <= s
  {
    if x >= s + 1 {
      ProductMonotone(x, s + 1, p);
      ProductMonotone(s + 1, s + 1, x);
    }
  }

  lemma NextGcd(g: int, p: Row, c: Row)
    requires IsGcd(g, p.rem, c.rem) && c.rem != 0
    ensures IsGcd(g, c.rem, NextRow(p, c).rem)
  {
    hide IsGcd;
    FloorModRange(p.rem, c.rem);
    GcdOfStep(g, p.rem, c.rem, FloorDiv(p.rem, c.rem));
    SignedProduct(c.rem, FloorDiv(p.rem, c.rem));
  }

  /** A zero remainder below the threshold means the last divisor, which is not
      below it, was the greatest common divisor. */
  lemma ZeroRemainderGcd(g: int, p: Row, c: Row, r: int, lam: int)
    requires Bracket(p, c, r, lam) && IsGcd(g, p.rem, c.rem) && c.rem == 0
    ensures g >= Isqrt(r)
  {
    hide Isqrt;
    if p.rem == 0 {
      assert Cross(p, c) == 0;
    } else {
      GcdWithZero(p.rem);
      GcdIsUnique(g, Abs(p.rem), p.rem, 0);
    }
  }

  lemma SmallRemainderGcd(g: int, p: Row, c: Row, r: nat)
    requires IsGcd(g, p.rem, c.rem) && 0 < Abs(c.rem) < Isqrt(r)
    ensures g < Isqrt(r)
  {
    DivisorIsSmaller(g, c.rem);
  }

  /** The rows at which the division steps from p and c stop; none for a zero remainder. */
  function RowsBelow(p: Row, c: Row, root: nat): Option<(Row, Row)>
    decreases Abs(c.rem)
  {
    if Abs(c.rem) < root then
      if c.rem == 0 then None else Some((p, c))
    else if c.rem == 0 then None
    else
      NextRowShrinks(p, c);
      RowsBelow(c, NextRow(p, c), root)
  }

  /** The while loop of precompute_lattice: Euclid's algorithm down to isqrt(r). */
  method ReduceBelowRoot(r: nat, lam: int, ghost g: int) returns (res: Result<(Row, Row)>)
    requires r > 0 ==> IsGcd(g, r, lam)
    ensures var rows := RowsBelow(Row(r, 1, 0), Row(lam, 0, 1), Isqrt(r));
      res == if rows.None? then Err(ValueError) else Ok(rows.value)
    ensures r == 0 ==> res == Err(ValueError)
    ensures res.Err? ==> res.failure == ValueError && (r > 0 ==> g >= Isqrt(r))
    ensures res.Ok? ==> Bracket(res.value.0, res.value.1, r, lam)
    ensures res.Ok? ==> g < Isqrt(r) && 0 < Abs(res.value.1.rem) < Isqrt(r)
  {
    hide Isqrt, Bracket, NextRow, IsGcd;
    var prev, cur := Row(r, 1, 0), Row(lam, 0, 1);
    var sqrtR := Isqrt(r);
    RootBelow(r);
    if r > 0 {
      InitialBracket(r, lam);
    }
    while Abs(cur.rem) >= sqrtR
      invariant r > 0 ==> Bracket(prev, cur, r, lam) && IsGcd(g, prev.rem, cur.rem)
      invariant RowsBelow(prev, cur, sqrtR) == RowsBelow(Row(r, 1, 0), Row(lam, 0, 1), sqrtR)
      decreases Abs(cur.rem)
    {
      if cur.rem == 0 {
        if r > 0 {
          ZeroRemainderGcd(g, prev, cur, r, lam);
        }
        return Err(ValueError);
      }
      if r > 0 {
        NextBracket(prev, cur, r, lam);
        NextGcd(g, prev, cur);
      }
      NextRowShrinks(prev, cur);
      prev, cur := cur, NextRow(prev, cur);
    }
    if cur.rem == 0 {
      ZeroRemainderGcd(g, prev, cur, r, lam);
      return Err(ValueError);
    }
    SmallRemainderGcd(g, prev, cur, r);
    return Ok((prev, cur));
  }

  lemma NextRowShrinks(p: Row, c: Row)
    requires c.rem != 0
    ensures Abs(NextRow(p, c).rem) < Abs(c.rem)
  {
    FloorModRange(p.rem, c.rem);
  }

  /** The shorter of the previous row and the next one. */
  function SecondVector(p: Row, c: Row): (int, int)
    requires c.rem != 0
  {
    var last := NextRow(p, c);
    var cand1, cand2 := (p.rem, -p.t), (last.rem, -last.t);
    if NormSquared(cand1) > NormSquared(cand2) then cand2 else cand1
  }

  /** The basis made of two rows. */
  function BasisOf(p: Row, c: Row): Basis
    requires c.rem != 0
  {
    var v1, v2 := (c.rem, -c.t), SecondVector(p, c);
    var det := v1.0 * v2.1 - v1.1 * v2.0;
    var n := Shift(det);
    if det == 0 then Basis(v1, v2, det, 0, 0)
    else Basis(v1, v2, det, RoundHalfAway(v2.1 * Pow2(n), det), RoundHalfAway(v1.1 * Pow2(n), det))
  }

  lemma RowsAreNonzero(p: Row, c: Row, root: nat)
    ensures RowsBelow(p, c, root).Some? ==> RowsBelow(p, c, root).value.1.rem != 0
    decreases Abs(c.rem)
  {
    if Abs(c.rem) >= root && c.rem != 0 {
      NextRowShrinks(p, c);
      RowsAreNonzero(c, NextRow(p, c), root);
    }
  }

  /** The lattice of r and lam; none where the division steps reach zero. */
  function LatticeOf(r: nat, lam: int): Option<Basis> {
    var rows := RowsBelow(Row(r, 1, 0), Row(lam, 0, 1), Isqrt(r));
    RowsAreNonzero(Row(r, 1, 0), Row(lam, 0, 1), Isqrt(r));
    if rows.None? then None else Some(BasisOf(rows.value.0, rows.value.1))
  }

  lemma {:induction false} RowsBelowBracket(p: Row, c: Row, r: nat, lam: int)
    requires Bracket(p, c, r, lam)
    ensures var rows := RowsBelow(p, c, Isqrt(r));
      rows.Some? ==> Bracket(rows.value.0, rows.value.1, r, lam) && 0 < Abs(rows.value.1.rem) < Isqrt(r)
    decreases Abs(c.rem)
  {
    hide Isqrt, Bracket, NextRow;
    if Abs(c.rem) >= Isqrt(r) && c.rem != 0 {
      NextBracket(p, c, r, lam);
      RowsBelowBracket(c, NextRow(p, c), r, lam);
    }
  }

  /** The lattice is made of two rows around the threshold. */
  lemma LatticeRows(r: nat, lam: int) returns (p: Row, c: Row)
    requires r > 0 && LatticeOf(r, lam).Some?
    ensures Bracket(p, c, r, lam) && 0 < Abs(c.rem) < Isqrt(r) && LatticeOf(r, lam) == Some(BasisOf(p, c))
  {
    hide Isqrt, Bracket, BasisOf, RowsBelow;
    InitialBracket(r, lam);
    RowsBelowBracket(Row(r, 1, 0), Row(lam, 0, 1), r, lam);
    var rows := RowsBelow(Row(r, 1, 0), Row(lam, 0, 1), Isqrt(r));
    p, c := rows.value.0, rows.value.1;
  }

  /** x p <= n and n <= 3 x^2 leave p^2 at most 3n. */
  lemma SquareOfQuotient(x: nat, p: nat, n: nat)
    requires x * p <= n <= 3 * (x * x) && n > 0
    ensures p * p <= 3 * n
  {
    var xx, pp := x * x, p * p;
    SquareMonotone(x * p, n);
    SquareOfProduct(x, p);
    ProductMonotone(pp, n, 3 * xx);
    ThreeTimes(pp, xx, n);
    CancelScale(n, pp, 3 * n);
  }

  lemma SquareOfProduct(x: int, p: int)
    ensures (x * p) * (x * p) == (p * p) * (x * x)
  {
    assert (x * p) * (x * p) == x * (p * (x * p)) == p * (p * (x * x));
  }

  lemma ThreeTimes(pp: int, xx: int, n: int)
    requires pp * n <= pp * (3 * xx) && pp * xx <= n * n
    ensures n * pp <= n * (3 * n)
  {
    assert pp * (3 * xx) == 3 * (pp * xx) && n * (3 * n) == 3 * (n * n) && pp * n == n * pp;
  }

  /** If the first vector has a coordinate of at least sqrt(r / 3), the matching candidate for the
      second one has length at most 2 sqrt(r). */
  lemma SecondIsShort(p: Row, c: Row, r: int, lam: int)
    requires Bracket(p, c, r, lam) && lam > 0 && 0 < Abs(c.rem) < Isqrt(r)
    requires 3 * (c.rem * c.rem) >= r || 3 * (c.t * c.t) >= r
    ensures NormSquared(SecondVector(p, c)) <= 4 * r
  {
    hide Isqrt, NextRow, NormSquared;
    if 3 * (c.t * c.t) >= r {
      PreviousIsShort(p, c, r, lam);
    } else {
      NextIsShort(p, c, r, lam);
    }
    NormOfNegated(p.rem, p.t);
    NormOfNegated(NextRow(p, c).rem, NextRow(p, c).t);
  }

  lemma NormOfNegated(x: int, y: int)
    ensures NormSquared((x, -y)) == x * x + y * y
  {
  }

  lemma PreviousIsShort(p: Row, c: Row, r: int, lam: int)
    requires Bracket(p, c, r, lam) && lam > 0 && 3 * (c.t * c.t) >= r
    ensures p.rem * p.rem + p.t * p.t <= 4 * r
  {
    hide Isqrt, NextRow, IsRow, Cross;
    CofactorIsShort(p, c, r, lam);
    NonNegativeProduct(Abs(p.t), c.rem);
    SquareOfAbs(c.t);
    SquareOfQuotient(Abs(c.t), p.rem, r);
    SquareOfAbs(p.t);
    SquareMonotone(Abs(p.t), Isqrt(r));
  }

  lemma NextIsShort(p: Row, c: Row, r: int, lam: int)
    requires Bracket(p, c, r, lam) && lam > 0 && 0 < c.rem < Isqrt(r) && 3 * (c.rem * c.rem) >= r
    ensures var last := NextRow(p, c); last.rem * last.rem + last.t * last.t <= 4 * r
  {
    hide Isqrt, NextRow, IsRow;
    var last := NextRow(p, c);
    NextRowIsRow(p, c, r, lam);
    NextRowSigns(p, c, lam);
    AlternatingSum(c.rem, last.rem, c.t, last.t, r);
    NonNegativeProduct(Abs(c.t), last.rem);
    Commuted(Abs(last.t), c.rem);
    SquareOfQuotient(c.rem, Abs(last.t), r);
    SquareOfAbs(last.t);
    SquareMonotone(last.rem, Isqrt(r));
  }

  lemma Commuted(x: int, y: int)
    ensures x * y == y * x
  {
  }

  lemma SquareOfAbs(x: int)
    ensures Abs(x) * Abs(x) == x * x
  {
  }

  /** The second half: one more division step, the shorter candidate, the rounded inverse. */
  method ChooseBasis(prev: Row, cur: Row, ghost r: int, ghost lam: int) returns (l: Basis)
    requires Bracket(prev, cur, r, lam) && 0 < Abs(cur.rem) < Isqrt(r)
    ensures IsBasisFor(l, r, lam) && HasRoundedInverse(l)
    ensures l == BasisOf(prev, cur) && l.v1 == (cur.rem, -cur.t)
    ensures var cand1, cand2 := (prev.rem, -prev.t), (NextRow(prev, cur).rem, -NextRow(prev, cur).t);
      && (l.v2 == cand1 || l.v2 == cand2) && (l.v2 == cand1 <==> NormSquared(cand1) <= NormSquared(cand2))
  {
    hide Isqrt, Bracket, NextRow, IsBasisFor, RoundHalfAway, Shift;
    var last := NextRow(prev, cur);
    var v1 := (cur.rem, -cur.t);
    var cand1, cand2 := (prev.rem, -prev.t), (last.rem, -last.t);
    var v2 := if NormSquared(cand1) > NormSquared(cand2) then cand2 else cand1;
    var det := v1.0 * v2.1 - v1.1 * v2.0;
    DeterminantIsModulus(prev, cur, v2, r, lam);
    ModulusIsPositive(prev, cur, r, lam);
    assert det != 0;  // so the source's check of the determinant never raises
    var n := Shift(det);
    var b1 := RoundHalfAway(v2.1 * Pow2(n), det);
    var b2 := RoundHalfAway(v1.1 * Pow2(n), det);
    l := Basis(v1, v2, det, b1, b2);
    FinishBasis(prev, cur, v2, l, r, lam);
  }

  lemma ModulusIsPositive(p: Row, c: Row, r: int, lam: int)
    requires Bracket(p, c, r, lam)
    ensures r > 0
  {
  }

  /** precompute_lattice(r, lam): succeeds exactly when the threshold isqrt(r) lies
      above the greatest common divisor of r and lam. */
  method PrecomputeLattice(r: int, lam: int) returns (res: Result<Basis>)
    ensures r <= 0 ==> res == Err(ValueError)
    ensures r > 0 ==> (res.Ok? <==> Gcd(r, lam) < Isqrt(r))
    ensures res.Err? ==> res.failure == ValueError
    ensures res.Ok? ==> IsBasisFor(res.value, r, lam) && HasRoundedInverse(res.value)
    ensures r >= 0 ==> res == if LatticeOf(r, lam).None? then Err(ValueError) else Ok(LatticeOf(r, lam).value)
  {
    hide Isqrt, Bracket, IsBasisFor, HasRoundedInverse, BasisOf, RowsBelow;
    if r < 0 {
      return Err(ValueError);
    }
    ghost var g := if r > 0 then Gcd(r, lam) else 0;
    var rows := ReduceBelowRoot(r, lam, g);
    if rows.Err? {
      return Err(rows.failure);
    }
    var l := ChooseBasis(rows.value.0, rows.value.1, r, lam);
    return Ok(l);
  }

  // ----- splitting a scalar -----

  function SplitScalar(s: int, l: Basis): (int, int) {
    var scale := Pow2(Shift(l.det));
    var k1, k2 := (s * l.b1) / scale, (-(s * l.b2)) / scale;
    (s - (k1 * l.v1.0 + k2 * l.v2.0), -(k1 * l.v1.1 + k2 * l.v2.1))
  }

  /** Whatever the rounding did, u + v*lam is s modulo r. */
  lemma SplitIsCongruent(s: int, l: Basis, r: int, lam: int)
    requires IsBasisFor(l, r, lam)
    ensures Divides(r, ImageMod(SplitScalar(s, l), lam) - s)
  {
    hide Pow2, Isqrt, Shift, Divides;
    var scale := Pow2(Shift(l.det));
    var k1, k2 := (s * l.b1) / scale, (-(s * l.b2)) / scale;
    DividesCombination(r, ImageMod(l.v1, lam), ImageMod(l.v2, lam), -k1, -k2);
    CombineImages(s, k1, k2, l.v1.0, l.v1.1, l.v2.0, l.v2.1, lam);
  }

  lemma CombineImages(s: int, k1: int, k2: int, a: int, b: int, c: int, d: int, lam: int)
    ensures (-k1) * (a + b * lam) + (-k2) * (c + d * lam)
      == s - (k1 * a + k2 * c) + (-(k1 * b + k2 * d)) * lam - s
  {
  }

  /** The error of the fixed-point quotient: below three halves for scalars of at
      most n bits, however b and the floor shift rounded. */
  lemma QuotientError(s: int, x: int, b: int, det: int, scale: nat)
    requires det != 0 && scale > 0
    requires 2 * Abs(x * scale - det * b) <= Abs(det)
    requires Abs(s) <= scale
    ensures 2 * Abs(s * x - (s * b) / scale * det) <= 3 * Abs(det)
  {
    hide Abs;
    var k, m := (s * b) / scale, (s * b) % scale;
    var delta := x * scale - det * b;
    assert s * b == scale * k + m;
    ErrorIdentity(s, x, b, det, scale, k, m);
    ErrorSize(s, m, det, delta, scale);
    AbsOfNat(scale);
    AbsOfProduct(scale, s * x - k * det);
    CancelScale(scale, 2 * Abs(s * x - k * det), 3 * Abs(det));
  }

  lemma ErrorIdentity(s: int, x: int, b: int, det: int, scale: int, k: int, m: int)
    requires s * b == scale * k + m
    ensures scale * (s * x - k * det) == m * det + s * (x * scale - det * b)
  {
    assert s * (x * scale - det * b) == scale * (s * x) - det * (s * b);
    assert det * (s * b) == scale * (k * det) + m * det;
  }

  lemma ErrorSize(s: int, m: int, det: int, delta: int, scale: int)
    requires 0 <= m < scale && Abs(s) <= scale && 2 * Abs(delta) <= Abs(det)
    ensures 2 * Abs(m * det + s * delta) <= scale * (3 * Abs(det))
  {
    hide Abs;
    AbsOfProduct(m, det);
    AbsOfProduct(s, delta);
    AbsTriangle(m * det, s * delta);
    AbsOfNat(m);
    AbsOfNat(Abs(s));
    ProductMonotone(Abs(det), m, scale);
    ProductMonotone(Abs(s), 2 * Abs(delta), Abs(det));
    ProductMonotone(Abs(det), Abs(s), scale);
  }

  lemma AbsTriangle(x: int, y: int)
    ensures Abs(x + y) <= Abs(x) + Abs(y)
  {
  }

  lemma AbsPositive(x: int)
    requires x != 0
    ensures Abs(x) > 0
  {
  }

  lemma AbsOfNat(x: int)
    requires x >= 0
    ensures Abs(x) == x
  {
  }

  lemma AbsOfProduct(x: int, y: int)
    ensures Abs(x * y) == Abs(x) * Abs(y)
  {
  }

  lemma WeightedSum(e1: int, e2: int, a: int, c: int, det: int, u: int)
    requires det != 0 && det * u == e1 * a + e2 * c
    requires 2 * Abs(e1) <= 3 * Abs(det) && 2 * Abs(e2) <= 3 * Abs(det)
    ensures 2 * Abs(u) <= 3 * (Abs(a) + Abs(c))
  {
    hide Abs;
    AbsTriangle(e1 * a, e2 * c);
    AbsOfProduct(det, u);
    AbsOfProduct(e1, a);
    AbsOfProduct(e2, c);
    ProductMonotone(Abs(a), 2 * Abs(e1), 3 * Abs(det));
    ProductMonotone(Abs(c), 2 * Abs(e2), 3 * Abs(det));
    assert Abs(det) * (2 * Abs(u)) <= Abs(det) * (3 * (Abs(a) + Abs(c)));
    AbsPositive(det);
    CancelScale(Abs(det), 2 * Abs(u), 3 * (Abs(a) + Abs(c)));
  }

  /** The decomposition is as short as the basis, for either sign of the
      determinant, as long as the scalar has no more bits than the shift. */
  lemma SplitIsShort(s: int, l: Basis)
    requires HasRoundedInverse(l) && l.det == l.v1.0 * l.v2.1 - l.v1.1 * l.v2.0
    requires Abs(s) <= Pow2(Shift(l.det))
    ensures 2 * Abs(SplitScalar(s, l).0) <= 3 * (Abs(l.v1.0) + Abs(l.v2.0))
    ensures 2 * Abs(SplitScalar(s, l).1) <= 3 * (Abs(l.v1.1) + Abs(l.v2.1))
  {
    hide Pow2, Shift, RoundHalfAway;
    InverseIsNearest(l);
    var scale := Pow2(Shift(l.det));
    var k1, k2 := (s * l.b1) / scale, (-(s * l.b2)) / scale;
    var e1, e2 := s * l.v2.1 - k1 * l.det, -s * l.v1.1 - k2 * l.det;
    QuotientError(s, l.v2.1, l.b1, l.det, scale);
    QuotientError(-s, l.v1.1, l.b2, l.det, scale);
    NegatedFactor(s, l.b2);
    CramerFirst(s, k1, k2, l.v1.0, l.v1.1, l.v2.0, l.v2.1);
    CramerSecond(s, k1, k2, l.v1.0, l.v1.1, l.v2.0, l.v2.1);
    WeightedSum(e1, e2, l.v1.0, l.v2.0, l.det, SplitScalar(s, l).0);
    WeightedSum(e1, e2, l.v1.1, l.v2.1, l.det, SplitScalar(s, l).1);
  }

  lemma NegatedFactor(s: int, b: int)
    ensures (-s) * b == -(s * b)
  {
  }

  lemma CramerFirst(s: int, k1: int, k2: int, a: int, b: int, c: int, d: int)
    ensures (a * d - b * c) * (s - (k1 * a + k2 * c))
      == (s * d - k1 * (a * d - b * c)) * a + (-s * b - k2 * (a * d - b * c)) * c
  {
  }

  lemma CramerSecond(s: int, k1: int, k2: int, a: int, b: int, c: int, d: int)
    ensures (a * d - b * c) * (-(k1 * b + k2 * d))
      == (s * d - k1 * (a * d - b * c)) * b + (-s * b - k2 * (a * d - b * c)) * d
  {
  }

  /** Determinants of at least 32 bits leave enough fractional bits for every
      scalar below them. */
  lemma ShiftCoversDeterminant(det: int)
    requires det >= Pow2(31)
    ensures det <= Pow2(Shift(det))
  {
    hide Pow2, BitLength;
    var k := BitLength(Max(1, det));
    if k < 32 {
      Pow2Monotone(k, 31);
    }
    assert Shift(det) >= k;
    Pow2Monotone(k, Shift(det));
  }

  lemma SplitBelowDeterminantIsShort(s: int, l: Basis)
    requires HasRoundedInverse(l) && l.det == l.v1.0 * l.v2.1 - l.v1.1 * l.v2.0
    requires l.det >= Pow2(31) && 0 <= s < l.det
    ensures 2 * Abs(SplitScalar(s, l).0) <= 3 * (Abs(l.v1.0) + Abs(l.v2.0))
    ensures 2 * Abs(SplitScalar(s, l).1) <= 3 * (Abs(l.v1.1) + Abs(l.v2.1))
  {
    ShiftCoversDeterminant(l.det);
    SplitIsShort(s, l);
  }

  /** The shift is zero exactly for determinants below 2^31: every negative one included. */
  lemma ShiftVanishesExactly(det: int)
    ensures Shift(det) == 0 <==> det < Pow2(31)
  {
    hide Pow2;
    var k := BitLength(Max(1, det));
    if det < Pow2(31) {
      if k >= 32 {
        Pow2Monotone(31, k - 1);
      }
    } else {
      ShiftCoversDeterminant(det);
      if k < 32 {
        Pow2Monotone(k, 31);
      }
    }
  }

  // ----- without fractional bits -----

  /** Without fractional bits the inverse of a short basis rounds to nothing. */
  ghost predicate RoundsAway(l: Basis) {
    2 * Abs(l.v1.1) < Abs(l.det) && 2 * Abs(l.v2.1) < Abs(l.det)
  }

  lemma RoundsToZeroExactly(a: int, b: int)
    requires b != 0
    ensures RoundHalfAway(a, b) == 0 <==> 2 * Abs(a) < Abs(b)
  {
    QuotientOfSmall(Abs(a), Abs(b));
  }

  lemma QuotientOfSmall(a: nat, b: nat)
    requires b > 0
    ensures RoundHalfUp(a, b) == 0 <==> 2 * a < b
  {
    if a < b {
      UniqueRemainder(a, b, 0, a);
    } else {
      assert a == b * (a / b) + a % b;
      ProductSize(b, a / b);
    }
  }

  lemma UnitScale()
    ensures Pow2(0) == 1
  {
  }

  /** The scalar without the combination k1 * V1 + k2 * V2. */
  function Without(s: int, l: Basis, k1: int, k2: int): (int, int) {
    (s - (k1 * l.v1.0 + k2 * l.v2.0), -(k1 * l.v1.1 + k2 * l.v2.1))
  }

  /** For a determinant below 2^31 - in particular for every negative one - the coefficients are
      multiples of the rounded b1 and b2. */
  lemma UnscaledSplit(s: int, l: Basis)
    requires HasRoundedInverse(l) && l.det < Pow2(31)
    ensures SplitScalar(s, l) == Without(s, l, s * l.b1, -(s * l.b2))
    ensures l.b1 == 0 <==> 2 * Abs(l.v2.1) < Abs(l.det)
    ensures l.b2 == 0 <==> 2 * Abs(l.v1.1) < Abs(l.det)
  {
    hide Shift, RoundHalfAway, Abs, Pow2;
    ShiftVanishesExactly(l.det);
    UnitScale();
    InverseVanishes(l.b1, l.v2.1, l.det);
    InverseVanishes(l.b2, l.v1.1, l.det);
    OverOne(s * l.b1);
    OverOne(-(s * l.b2));
  }

  lemma InverseVanishes(b: int, x: int, det: int)
    requires det != 0 && b == RoundHalfAway(x * 1, det)
    ensures b == 0 <==> 2 * Abs(x) < Abs(det)
  {
    RoundsToZeroExactly(x, det);
  }

  lemma OverOne(x: int)
    ensures x / 1 == x
  {
  }

  /** Without fractional bits a scalar comes back unsplit exactly where both second coordinates are
      below half the determinant. */
  lemma NeverSplitExactly(l: Basis)
    requires HasRoundedInverse(l) && l.det == l.v1.0 * l.v2.1 - l.v1.1 * l.v2.0 && l.det < Pow2(31)
    ensures (forall s :: SplitScalar(s, l) == (s, 0)) <==> RoundsAway(l)
  {
    hide SplitScalar, HasRoundedInverse, Abs, Pow2, Without;
    NonzeroDeterminant(l);
    if RoundsAway(l) {
      forall s
        ensures SplitScalar(s, l) == (s, 0)
      {
        UnscaledSplit(s, l);
        NothingWithout(s, l, s * l.b1, -(s * l.b2));
      }
    } else {
      UnscaledSplit(1, l);
      NothingWithout(1, l, 1 * l.b1, -(1 * l.b2));
    }
  }

  lemma NonzeroDeterminant(l: Basis)
    requires HasRoundedInverse(l)
    ensures l.det != 0
  {
  }

  lemma NothingWithout(s: int, l: Basis, k1: int, k2: int)
    requires l.det == l.v1.0 * l.v2.1 - l.v1.1 * l.v2.0 && l.det != 0
    ensures Without(s, l, k1, k2) == (s, 0) <==> k1 == 0 && k2 == 0
  {
    if Without(s, l, k1, k2) == (s, 0) {
      Independent(k1, k2, l.v1.0, l.v1.1, l.v2.0, l.v2.1);
    }
  }

  /** Only the zero combination of two independent vectors is zero. */
  lemma Independent(k1: int, k2: int, a: int, b: int, c: int, d: int)
    requires a * d - b * c != 0 && k1 * a + k2 * c == 0 && k1 * b + k2 * d == 0
    ensures k1 == 0 && k2 == 0
  {
    assert (k1 * a + k2 * c) * d - (k1 * b + k2 * d) * c == k1 * (a * d - b * c);
    assert (k1 * b + k2 * d) * a - (k1 * a + k2 * c) * b == k2 * (a * d - b * c);
    NonzeroProduct(k1, a * d - b * c);
    NonzeroProduct(k2, a * d - b * c);
  }

  lemma NonzeroProduct(x: int, y: int)
    requires y != 0
    ensures x * y == 0 <==> x == 0
  {
  }

  /** The size of the split is then that of the scalar. */
  lemma UnsplitIsShortExactly(s: int, l: Basis)
    requires HasRoundedInverse(l) && l.det == l.v1.0 * l.v2.1 - l.v1.1 * l.v2.0 && l.det < Pow2(31) && RoundsAway(l)
    ensures 2 * Abs(SplitScalar(s, l).0) <= 3 * (Abs(l.v1.0) + Abs(l.v2.0))
      && 2 * Abs(SplitScalar(s, l).1) <= 3 * (Abs(l.v1.1) + Abs(l.v2.1))
      <==> 2 * Abs(s) <= 3 * (Abs(l.v1.0) + Abs(l.v2.0))
  {
    hide SplitScalar, HasRoundedInverse, Abs, Pow2, Without;
    UnscaledSplit(s, l);
    NonzeroDeterminant(l);
    NothingWithout(s, l, s * l.b1, -(s * l.b2));
    AbsOfNat(0);
    AbsIsNatural(l.v1.1);
  }

  lemma AbsIsNatural(x: int)
    ensures Abs(x) >= 0
  {
  }

  // ----- a negative determinant -----

  const SEVEN: Basis := Basis((1, 3), (2, -1), -7, 0, 0)

  lemma RootOfSeven()
    ensures Isqrt(7) == 2
  {
    hide Isqrt;
    IsqrtGreatest(7, 2);
    var s := Isqrt(7);
    if s >= 3 {
      SquareMonotone(3, s);
    }
  }

  lemma NoShiftForNegative(det: int)
    requires det < 0
    ensures Shift(det) == 0
  {
    assert Pow2(31) >= 1;
    ShiftVanishesExactly(det);
  }

  lemma RowsOfSeven()
    ensures RowsBelow(Row(7, 1, 0), Row(2, 0, 1), 2) == Some((Row(2, 0, 1), Row(1, 1, -3)))
    ensures NextRow(Row(2, 0, 1), Row(1, 1, -3)) == Row(0, -2, 7)
  {
    assert NextRow(Row(7, 1, 0), Row(2, 0, 1)) == Row(1, 1, -3);
    assert RowsBelow(Row(2, 0, 1), Row(1, 1, -3), 2) == Some((Row(2, 0, 1), Row(1, 1, -3)));
  }

  lemma BasisOfSeven()
    ensures BasisOf(Row(2, 0, 1), Row(1, 1, -3)) == SEVEN
  {
    hide Shift, Pow2, NextRow, RowsBelow;
    RowsOfSeven();
    NoShiftForNegative(-7);
    UnitScale();
    assert SecondVector(Row(2, 0, 1), Row(1, 1, -3)) == (2, -1);
    assert RoundHalfAway(-1, -7) == 0 && RoundHalfAway(3, -7) == 0;
  }

  /** precompute_lattice(7, 2) has determinant -7, and the split of 6 is not short. */
  lemma NegativeDeterminant()
    ensures LatticeOf(7, 2) == Some(SEVEN) && SplitScalar(6, SEVEN) == (6, 0)
    ensures 2 * Abs(SplitScalar(6, SEVEN).0) > 3 * (Abs(SEVEN.v1.0) + Abs(SEVEN.v2.0))
  {
    hide Shift, Pow2, Isqrt, BasisOf, RowsBelow;
    RootOfSeven();
    RowsOfSeven();
    BasisOfSeven();
    NoShiftForNegative(-7);
    UnitScale();
  }
}
