/** Scalar multiplication checked by a four-dimensional double-and-add, on curves
    with an endomorphism. */
module GlvMul {
  import opened IntMath
  import opened Results
  import opened Divisibility
  import opened Bits
  import opened Groups
  import opened GlvHint
  import opened HintEncoding
  import FakeGlv

  /** A curve group with affine coordinates: negation keeps x, and the endomorphism
      multiplies x by a cube root of unity. */
  datatype Curve<!T(!new), !C(!new)> =
    Curve(group: Group<T>, x: T -> C, y: T -> C, point: (C, C) -> T, negY: C -> C, timesRoot: C -> C) {
    ghost predicate IsCurve() {
      && group.IsGroup()
      && (forall p :: point(x(p), y(p)) == p)
      && (forall p :: x(group.neg(p)) == x(p))
      && (forall p :: NegPhi(p) == group.neg(Phi(p)))
    }

    function Phi(p: T): T {
      point(timesRoot(x(p)), y(p))
    }

    function NegPhi(p: T): T {
      point(timesRoot(x(p)), negY(y(p)))
    }

    ghost predicate ActsAs(lam: int) {
      forall p :: Phi(p) == group.Mul(lam, p)
    }
  }

  // ----- the sixteen points -----

  /** The entries [1] of the four sign tables; the entries [0] are their negatives. */
  datatype Bases<!T> = Bases(p: T, f: T, q: T, h: T, gen: T) {
    function Points(): seq<T> {
      [p, f, q, h, gen]
    }
  }

  function SumPQ<T(!new)>(g: Group<T>, b: Bases<T>): T {
    g.neg(g.add(g.neg(b.p), g.neg(b.q)))
  }

  function DiffPQ<T(!new)>(g: Group<T>, b: Bases<T>): T {
    g.add(b.p, g.neg(b.q))
  }

  function NegSumPhi<T(!new)>(g: Group<T>, b: Bases<T>): T {
    g.add(g.neg(b.f), g.neg(b.h))
  }

  function DiffPhi<T(!new)>(g: Group<T>, b: Bases<T>): T {
    g.add(b.f, g.neg(b.h))
  }

  /** B1 to B16. */
  function BPoint<T(!new)>(g: Group<T>, b: Bases<T>, j: nat): T
    requires 1 <= j <= 16
    decreases j > 8
  {
    match j
    case 1 => g.add(SumPQ(g, b), g.neg(NegSumPhi(g, b)))
    case 2 => g.add(SumPQ(g, b), DiffPhi(g, b))
    case 3 => g.add(SumPQ(g, b), g.neg(DiffPhi(g, b)))
    case 4 => g.add(SumPQ(g, b), NegSumPhi(g, b))
    case 5 => g.add(DiffPQ(g, b), g.neg(NegSumPhi(g, b)))
    case 6 => g.add(DiffPQ(g, b), DiffPhi(g, b))
    case 7 => g.add(DiffPQ(g, b), g.neg(DiffPhi(g, b)))
    case 8 => g.add(DiffPQ(g, b), NegSumPhi(g, b))
    case _ => g.neg(BPoint(g, b, 17 - j))
  }

  /** The order in which the selector meets B1 to B16. */
  function BIndex(sel: nat): (j: nat)
    requires sel < 16
    ensures 1 <= j <= 16
  {
    [16, 8, 14, 6, 12, 4, 10, 2, 15, 7, 13, 5, 11, 3, 9, 1][sel]
  }

  function BCoeffs(j: nat): seq<int>
    requires 1 <= j <= 16
  {
    match j
    case 1 => [1, 1, 1, 1, 0]
    case 2 => [1, 1, 1, -1, 0]
    case 3 => [1, -1, 1, 1, 0]
    case 4 => [1, -1, 1, -1, 0]
    case 5 => [1, 1, -1, 1, 0]
    case 6 => [1, 1, -1, -1, 0]
    case 7 => [1, -1, -1, 1, 0]
    case 8 => [1, -1, -1, -1, 0]
    case 9 => [-1, 1, 1, 1, 0]
    case 10 => [-1, 1, 1, -1, 0]
    case 11 => [-1, -1, 1, 1, 0]
    case 12 => [-1, -1, 1, -1, 0]
    case 13 => [-1, 1, -1, 1, 0]
    case 14 => [-1, 1, -1, -1, 0]
    case 15 => [-1, -1, -1, 1, 0]
    case 16 => [-1, -1, -1, -1, 0]
  }

  /** The selected point carries the signed digits of the four bits. */
  lemma SelectorIsSigned(b1: nat, b2: nat, b3: nat, b4: nat)
    requires b1 <= 1 && b2 <= 1 && b3 <= 1 && b4 <= 1
    ensures BCoeffs(BIndex(b1 + 2 * b2 + 4 * b3 + 8 * b4)) == [Sign(b1), Sign(b2), Sign(b3), Sign(b4), 0]
  {
    var sel := b1 + 2 * b2 + 4 * b3 + 8 * b4;
    if b3 == 0 && b4 == 0 {
      assert sel == b1 + 2 * b2;
    } else if b4 == 0 {
      assert sel == b1 + 2 * b2 + 4;
    } else if b3 == 0 {
      assert sel == b1 + 2 * b2 + 8;
    } else {
      assert sel == b1 + 2 * b2 + 12;
    }
  }

  lemma OppositeSelector(sel: nat)
    requires sel < 16
    ensures BIndex(15 - sel) == 17 - BIndex(sel)
  {
  }

  lemma PairCombs<T(!new)>(g: Group<T>, b: Bases<T>)
    requires g.IsGroup()
    ensures Comb(g, [1, 0, 1, 0, 0], b.Points()) == SumPQ(g, b)
    ensures Comb(g, [1, 0, -1, 0, 0], b.Points()) == DiffPQ(g, b)
  {
    hide Group.IsGroup, Comb;
    var pts := b.Points();
    UnitComb(g, 0, [1, 0, 0, 0, 0], pts);
    UnitComb(g, 2, [0, 0, 1, 0, 0], pts);
    NegComb(g, [1, 0, 0, 0, 0], [-1, 0, 0, 0, 0], pts);
    NegComb(g, [0, 0, 1, 0, 0], [0, 0, -1, 0, 0], pts);
    AddCombs(g, [-1, 0, 0, 0, 0], [0, 0, -1, 0, 0], [-1, 0, -1, 0, 0], pts);
    NegComb(g, [-1, 0, -1, 0, 0], [1, 0, 1, 0, 0], pts);
    AddCombs(g, [1, 0, 0, 0, 0], [0, 0, -1, 0, 0], [1, 0, -1, 0, 0], pts);
  }

  lemma PhiPairCombs<T(!new)>(g: Group<T>, b: Bases<T>)
    requires g.IsGroup()
    ensures Comb(g, [0, -1, 0, -1, 0], b.Points()) == NegSumPhi(g, b)
    ensures Comb(g, [0, 1, 0, 1, 0], b.Points()) == g.neg(NegSumPhi(g, b))
    ensures Comb(g, [0, 1, 0, -1, 0], b.Points()) == DiffPhi(g, b)
    ensures Comb(g, [0, -1, 0, 1, 0], b.Points()) == g.neg(DiffPhi(g, b))
  {
    hide Group.IsGroup, Comb;
    var pts := b.Points();
    UnitComb(g, 1, [0, 1, 0, 0, 0], pts);
    UnitComb(g, 3, [0, 0, 0, 1, 0], pts);
    NegComb(g, [0, 1, 0, 0, 0], [0, -1, 0, 0, 0], pts);
    NegComb(g, [0, 0, 0, 1, 0], [0, 0, 0, -1, 0], pts);
    AddCombs(g, [0, -1, 0, 0, 0], [0, 0, 0, -1, 0], [0, -1, 0, -1, 0], pts);
    NegComb(g, [0, -1, 0, -1, 0], [0, 1, 0, 1, 0], pts);
    AddCombs(g, [0, 1, 0, 0, 0], [0, 0, 0, -1, 0], [0, 1, 0, -1, 0], pts);
    NegComb(g, [0, 1, 0, -1, 0], [0, -1, 0, 1, 0], pts);
  }

  lemma BPointIsSigned<T(!new)>(g: Group<T>, b: Bases<T>, j: nat)
    requires g.IsGroup() && 1 <= j <= 16
    ensures BPoint(g, b, j) == Comb(g, BCoeffs(j), b.Points())
    decreases j > 8
  {
    hide Group.IsGroup, Comb, SumPQ, DiffPQ, NegSumPhi, DiffPhi;
    PairCombs(g, b);
    PhiPairCombs(g, b);
    var pts := b.Points();
    if j > 8 {
      BPointIsSigned(g, b, 17 - j);
      NegComb(g, BCoeffs(17 - j), BCoeffs(j), pts);
    } else {
      var s := if j <= 4 then [1, 0, 1, 0, 0] else [1, 0, -1, 0, 0];
      match j
      case 1 => AddCombs(g, s, [0, 1, 0, 1, 0], BCoeffs(j), pts);
      case 2 => AddCombs(g, s, [0, 1, 0, -1, 0], BCoeffs(j), pts);
      case 3 => AddCombs(g, s, [0, -1, 0, 1, 0], BCoeffs(j), pts);
      case 4 => AddCombs(g, s, [0, -1, 0, -1, 0], BCoeffs(j), pts);
      case 5 => AddCombs(g, s, [0, 1, 0, 1, 0], BCoeffs(j), pts);
      case 6 => AddCombs(g, s, [0, 1, 0, -1, 0], BCoeffs(j), pts);
      case 7 => AddCombs(g, s, [0, -1, 0, 1, 0], BCoeffs(j), pts);
      case 8 => AddCombs(g, s, [0, -1, 0, -1, 0], BCoeffs(j), pts);
    }
  }

  /** Only the x-coordinates of B's first half are looked up: the point rebuilt from
      one entry's x and another's y is the selected one. */
  lemma MixedCoordinates<T(!new), C(!new)>(c: Curve<T, C>, b: Bases<T>, sel: nat)
    requires c.IsCurve() && sel < 16
    ensures var selX := if sel < 8 then sel else 15 - sel;
      c.point(c.x(BPoint(c.group, b, BIndex(selX))), c.y(BPoint(c.group, b, BIndex(sel))))
        == BPoint(c.group, b, BIndex(sel))
  {
    hide Group.IsGroup, SumPQ, DiffPQ, NegSumPhi, DiffPhi;
    var k := BIndex(sel);
    OppositeSelector(sel);
    OppositePoints(c.group, b, k);
    if k > 8 {
      assert BPoint(c.group, b, k) == c.group.neg(BPoint(c.group, b, 17 - k));
    } else {
      assert BPoint(c.group, b, 17 - k) == c.group.neg(BPoint(c.group, b, k));
    }
  }

  lemma OppositePoints<T(!new)>(g: Group<T>, b: Bases<T>, k: nat)
    requires 1 <= k <= 16
    ensures k > 8 ==> BPoint(g, b, k) == g.neg(BPoint(g, b, 17 - k))
    ensures k <= 8 ==> BPoint(g, b, 17 - k) == g.neg(BPoint(g, b, k))
  {
  }

  // ----- the accumulation loop -----

  datatype Bits4 = Bits4(u1: seq<nat>, u2: seq<nat>, v1: seq<nat>, v2: seq<nat>) {
    ghost predicate Valid(n: nat) {
      && AreBits(u1) && AreBits(u2) && AreBits(v1) && AreBits(v2)
      && n <= |u1| && n <= |u2| && n <= |v1| && n <= |v2|
    }
  }

  /** What the accumulator holds once the bits from position i up are consumed. */
  ghost function Consumed(bits: Bits4, i: nat, n: nat): (coeffs: seq<int>)
    requires bits.Valid(n) && i <= n
    ensures |coeffs| == 5
  {
    [2 * High(bits.u1, i, n) + 1, 2 * High(bits.u2, i, n) + 1,
     2 * High(bits.v1, i, n) + 1, 2 * High(bits.v2, i, n) + 1, Pow2(n - i)]
  }

  lemma InitialAccumulator<T(!new)>(g: Group<T>, b: Bases<T>, bits: Bits4, n: nat)
    requires g.IsGroup() && bits.Valid(n)
    ensures g.add(g.add(SumPQ(g, b), g.neg(NegSumPhi(g, b))), b.gen) == Comb(g, Consumed(bits, n, n), b.Points())
  {
    hide Group.IsGroup, Comb, SumPQ, NegSumPhi;
    BPointIsSigned(g, b, 1);
    UnitComb(g, 4, [0, 0, 0, 0, 1], b.Points());
    assert Consumed(bits, n, n) == [1, 1, 1, 1, 1];
    AddCombs(g, [1, 1, 1, 1, 0], [0, 0, 0, 0, 1], [1, 1, 1, 1, 1], b.Points());
  }

  lemma NextDigit<T(!new)>(g: Group<T>, b: Bases<T>, acc: T, j: nat, bits: Bits4, i: nat, n: nat)
    requires g.IsGroup() && bits.Valid(n) && i < n && 1 <= j <= 16
    requires acc == Comb(g, Consumed(bits, i + 1, n), b.Points())
    requires BCoeffs(j) == [Sign(bits.u1[i]), Sign(bits.u2[i]), Sign(bits.v1[i]), Sign(bits.v2[i]), 0]
    ensures g.add(g.add(acc, acc), BPoint(g, b, j)) == Comb(g, Consumed(bits, i, n), b.Points())
  {
    hide Group.IsGroup, Comb, BPoint;
    BPointIsSigned(g, b, j);
    DoubleAdd(g, acc, BPoint(g, b, j), Consumed(bits, i + 1, n), BCoeffs(j), Consumed(bits, i, n), b.Points());
  }

  /** A zero lowest bit takes one base point back. */
  lemma TakeBack<T(!new)>(g: Group<T>, acc: T, k: nat, u: seq<int>, a: seq<int>, c: seq<int>, pts: seq<T>)
    requires g.IsGroup() && |a| == |c| == |u| == |pts| && k < |a|
    requires acc == Comb(g, a, pts)
    requires u[k] == 1 && forall j :: 0 <= j < |u| && j != k ==> u[j] == 0
    requires forall j :: 0 <= j < |a| ==> c[j] == a[j] - u[j]
    ensures g.add(acc, g.neg(pts[k])) == Comb(g, c, pts)
  {
    hide Group.IsGroup, Comb;
    UnitComb(g, k, u, pts);
    var m := Negated(u);
    NegComb(g, u, m, pts);
    AddCombs(g, a, m, c, pts);
  }

  method TakeBackIfZero<T(!new)>(g: Group<T>, b: Bases<T>, acc0: T, bit: nat, p: T, ghost k: nat, ghost a: seq<int>) returns (acc: T)
    requires g.IsGroup() && bit <= 1 && k < 5 && |a| == 5
    requires p == b.Points()[k] && acc0 == Comb(g, a, b.Points())
    ensures acc == Comb(g, a[k := a[k] - 1 + bit], b.Points())
  {
    hide Group.IsGroup, Comb;
    if bit == 0 {
      TakeBack(g, acc0, k, Unit(5, k), a, a[k := a[k] - 1], b.Points());
      acc := g.add(acc0, g.neg(p));
    } else {
      assert a[k := a[k] - 1 + bit] == a;
      acc := acc0;
    }
  }

  ghost function Final(bits: Bits4, n: nat): seq<int>
    requires bits.Valid(n) && n > 0
  {
    [High(bits.u1, 0, n), High(bits.u2, 0, n), High(bits.v1, 0, n), High(bits.v2, 0, n), Pow2(n - 1)]
  }

  /** The loop of scalar_mul_glv_and_fake_glv and its bit-0 corrections: the
      accumulator ends with the four numbers times the four bases plus 2^(n-1)*G. */
  method Accumulate<T(!new), C(!new)>(c: Curve<T, C>, b: Bases<T>, bits: Bits4, n: nat) returns (acc: T)
    requires c.IsCurve() && bits.Valid(n) && n > 0
    ensures acc == Comb(c.group, Final(bits, n), b.Points())
  {
    hide *;
    acc := AccumulateDigits(c, b, bits, n);
    CurveIsGroup(c);
    acc := TakeBackLowest(c.group, b, acc, bits, n);
  }

  /** The loop: one signed digit of each number at a time, down to position 1. */
  method AccumulateDigits<T(!new), C(!new)>(c: Curve<T, C>, b: Bases<T>, bits: Bits4, n: nat) returns (acc: T)
    requires c.IsCurve() && bits.Valid(n) && n > 0
    ensures acc == Comb(c.group, Consumed(bits, 1, n), b.Points())
  {
    hide Curve.IsCurve, Group.IsGroup, Comb, SumPQ, NegSumPhi, BPoint, High, BIndex, Consumed;
    var g := c.group;
    CurveIsGroup(c);
    InitialAccumulator(g, b, bits, n);
    acc := g.add(SumPQ(g, b), g.neg(NegSumPhi(g, b)));
    acc := g.add(acc, b.gen);
    var i := n - 1;
    while i > 0
      invariant 0 <= i < n
      invariant acc == Comb(g, Consumed(bits, i + 1, n), b.Points())
    {
      var selY := bits.u1[i] + 2 * bits.u2[i] + 4 * bits.v1[i] + 8 * bits.v2[i];
      var selX := if selY < 8 then selY else 15 - selY;
      var bi := c.point(c.x(BPoint(g, b, BIndex(selX))), c.y(BPoint(g, b, BIndex(selY))));
      MixedCoordinates(c, b, selY);
      SelectorIsSigned(bits.u1[i], bits.u2[i], bits.v1[i], bits.v2[i]);
      NextDigit(g, b, acc, BIndex(selY), bits, i, n);
      acc := g.add(acc, acc);
      acc := g.add(acc, bi);
      i := i - 1;
    }
  }

  /** The bit-0 corrections. */
  method TakeBackLowest<T(!new)>(g: Group<T>, b: Bases<T>, acc0: T, bits: Bits4, n: nat) returns (acc: T)
    requires g.IsGroup() && bits.Valid(n) && n > 0 && acc0 == Comb(g, Consumed(bits, 1, n), b.Points())
    ensures acc == Comb(g, Final(bits, n), b.Points())
  {
    hide Group.IsGroup, Comb, High;
    ghost var a := Consumed(bits, 1, n);
    acc := TakeBackIfZero(g, b, acc0, bits.u1[0], b.p, 0, a);
    a := a[0 := a[0] - 1 + bits.u1[0]];
    acc := TakeBackIfZero(g, b, acc, bits.u2[0], b.f, 1, a);
    a := a[1 := a[1] - 1 + bits.u2[0]];
    acc := TakeBackIfZero(g, b, acc, bits.v1[0], b.q, 2, a);
    a := a[2 := a[2] - 1 + bits.v1[0]];
    acc := TakeBackIfZero(g, b, acc, bits.v2[0], b.h, 3, a);
    a := a[3 := a[3] - 1 + bits.v2[0]];
    LowestDigits(bits, n);
    assert a == Final(bits, n);
  }

  lemma CurveIsGroup<T(!new), C(!new)>(c: Curve<T, C>)
    requires c.IsCurve()
    ensures c.group.IsGroup()
  {
  }

  lemma LowestDigits(bits: Bits4, n: nat)
    requires bits.Valid(n) && n > 0
    ensures High(bits.u1, 0, n) == bits.u1[0] + 2 * High(bits.u1, 1, n)
    ensures High(bits.u2, 0, n) == bits.u2[0] + 2 * High(bits.u2, 1, n)
    ensures High(bits.v1, 0, n) == bits.v1[0] + 2 * High(bits.v1, 1, n)
    ensures High(bits.v2, 0, n) == bits.v2[0] + 2 * High(bits.v2, 1, n)
  {
  }

  // ----- the check -----

  /** u1*P + u2*Phi(P) + v1*Q + v2*Phi(Q) */
  function Relation4<T(!new)>(g: Group<T>, k: Parts, p: T, f: T, q: T, h: T): T {
    g.add(g.add(g.Mul(k.u1, p), g.Mul(k.u2, f)), g.add(g.Mul(k.v1, q), g.Mul(k.v2, h)))
  }

  lemma CombOfFive<T(!new)>(g: Group<T>, k: Parts, m: int, b: Bases<T>)
    requires g.IsGroup()
    ensures Comb(g, [k.u1, k.u2, k.v1, k.v2, m], b.Points())
      == g.add(Relation4(g, k, b.p, b.f, b.q, b.h), g.Mul(m, b.gen))
  {
    hide Group.IsGroup, Group.Mul;
    var w, x, y, z, t := g.Mul(k.u1, b.p), g.Mul(k.u2, b.f), g.Mul(k.v1, b.q), g.Mul(k.v2, b.h), g.Mul(m, b.gen);
    UnfoldComb(g, [k.u1, k.u2, k.v1, k.v2, m], b.Points());
    UnfoldComb(g, [k.u2, k.v1, k.v2, m], b.Points()[1..]);
    UnfoldComb(g, [k.v1, k.v2, m], b.Points()[2..]);
    UnfoldComb(g, [k.v2, m], b.Points()[3..]);
    UnfoldComb(g, [m], b.Points()[4..]);
    Identity(g, t);
    Assoc(g, y, z, t);
    Assoc(g, w, x, g.add(g.add(y, z), t));
    Assoc(g, g.add(w, x), g.add(y, z), t);
  }

  lemma UnfoldComb<T(!new)>(g: Group<T>, a: seq<int>, pts: seq<T>)
    requires |a| == |pts| > 0
    ensures Comb(g, a, pts) == g.add(g.Mul(a[0], pts[0]), Comb(g, a[1..], pts[1..]))
    ensures |a| == 1 ==> Comb(g, a[1..], pts[1..]) == g.zero
  {
  }

  function SignedBases<T(!new), C(!new)>(c: Curve<T, C>, k: Parts, p: T, q: T, gen: T): Bases<T> {
    Bases(
      if k.u1 < 0 then c.group.neg(p) else p,
      if k.u2 < 0 then c.NegPhi(p) else c.Phi(p),
      if k.v1 < 0 then c.group.neg(q) else q,
      if k.v2 < 0 then c.NegPhi(q) else c.Phi(q),
      gen)
  }

  function AbsParts(k: Parts): Parts {
    Parts(Abs(k.u1), Abs(k.u2), Abs(k.v1), Abs(k.v2))
  }

  function PartBits(k: Parts, n: nat): Bits4 {
    Bits4(ToBitsLe(Abs(k.u1), n), ToBitsLe(Abs(k.u2), n), ToBitsLe(Abs(k.v1), n), ToBitsLe(Abs(k.v2), n))
  }

  lemma SignsCancel<T(!new), C(!new)>(c: Curve<T, C>, k: Parts, p: T, q: T, gen: T)
    requires c.IsCurve()
    ensures var b := SignedBases(c, k, p, q, gen);
      Relation4(c.group, AbsParts(k), b.p, b.f, b.q, b.h) == Relation4(c.group, k, p, c.Phi(p), q, c.Phi(q))
  {
    hide Group.IsGroup, Group.Mul;
    FakeGlv.SignedMultiple(c.group, k.u1, p);
    FakeGlv.SignedMultiple(c.group, k.u2, c.Phi(p));
    FakeGlv.SignedMultiple(c.group, k.v1, q);
    FakeGlv.SignedMultiple(c.group, k.v2, c.Phi(q));
  }

  ghost predicate InWindow(k: Parts, n: nat) {
    Abs(k.u1) < Pow2(n) && Abs(k.u2) < Pow2(n) && Abs(k.v1) < Pow2(n) && Abs(k.v2) < Pow2(n)
  }

  lemma FinalIsRelation<T(!new), C(!new)>(c: Curve<T, C>, k: Parts, p: T, q: T, gen: T, n: nat)
    requires c.IsCurve() && InWindow(k, n) && n > 0
    ensures Comb(c.group, Final(PartBits(k, n), n), SignedBases(c, k, p, q, gen).Points())
      == c.group.add(Relation4(c.group, k, p, c.Phi(p), q, c.Phi(q)), c.group.Mul(Pow2(n - 1), gen))
  {
    hide Curve.IsCurve, Group.IsGroup, Group.Mul, Comb, High, Relation4, SignedBases;
    CurveIsGroup(c);
    SmallNumberBits(Abs(k.u1), n);
    SmallNumberBits(Abs(k.u2), n);
    SmallNumberBits(Abs(k.v1), n);
    SmallNumberBits(Abs(k.v2), n);
    var a := AbsParts(k);
    assert Final(PartBits(k, n), n) == [a.u1, a.u2, a.v1, a.v2, Pow2(n - 1)];
    CombOfFive(c.group, a, Pow2(n - 1), SignedBases(c, k, p, q, gen));
    SignsCancel(c, k, p, q, gen);
    GenIsLast(c, k, p, q, gen);
  }

  lemma GenIsLast<T(!new), C(!new)>(c: Curve<T, C>, k: Parts, p: T, q: T, gen: T)
    ensures SignedBases(c, k, p, q, gen).gen == gen
  {
  }

  /** The accumulation and its final comparison, for an arbitrary claimed Q: it
      accepts exactly when u1*P + u2*Phi(P) + v1*Q + v2*Phi(Q) = 0. */
  method CheckRelation<T(!new,==), C(!new)>(c: Curve<T, C>, k: Parts, p: T, q: T, gen: T, n: nat) returns (accepted: bool)
    requires c.IsCurve() && InWindow(k, n) && n > 0
    ensures accepted <==> Relation4(c.group, k, p, c.Phi(p), q, c.Phi(q)) == c.group.zero
  {
    hide Curve.IsCurve, Group.IsGroup, Group.Mul, Comb, Relation4, SignedBases;
    var g := c.group;
    CurveIsGroup(c);
    var acc := Accumulate(c, SignedBases(c, k, p, q, gen), PartBits(k, n), n);
    var gm := g.Mul(Pow2(n - 1), gen);
    accepted := acc == gm;
    FinalIsRelation(c, k, p, q, gen, n);
    var rel := Relation4(g, k, p, c.Phi(p), q, c.Phi(q));
    Identity(g, gm);
    if accepted {
      Cancel(g, rel, g.zero, gm);
    }
  }

  // ----- the whole multiplication -----

  /** With Q = scalar*P and Phi acting as lam, the relation is a multiple of P. */
  lemma RelationOfMultiple<T(!new), C(!new)>(c: Curve<T, C>, k: Parts, scalar: int, lam: int, p: T)
    requires c.IsCurve() && c.ActsAs(lam)
    ensures var q := c.group.Mul(scalar, p);
      Relation4(c.group, k, p, c.Phi(p), q, c.Phi(q))
        == c.group.Mul(scalar * (k.v1 + lam * k.v2) + k.u1 + lam * k.u2, p)
  {
    hide Group.IsGroup, Group.Mul;
    var g := c.group;
    MulOfMul(g, k.u2, lam, p);
    MulOfMul(g, k.v1, scalar, p);
    MulOfMul(g, lam, scalar, p);
    MulOfMul(g, k.v2, lam * scalar, p);
    MulAdds(g, k.u1, k.u2 * lam, p);
    MulAdds(g, k.v1 * scalar, k.v2 * (lam * scalar), p);
    MulAdds(g, k.u1 + k.u2 * lam, k.v1 * scalar + k.v2 * (lam * scalar), p);
    Collect(k.u1, k.u2, k.v1, k.v2, scalar, lam);
  }

  lemma Collect(u1: int, u2: int, v1: int, v2: int, s: int, lam: int)
    ensures u1 + u2 * lam + (v1 * s + v2 * (lam * s)) == s * (v1 + lam * v2) + u1 + lam * u2
  {
  }

  lemma HintedRelation<T(!new), C(!new)>(c: Curve<T, C>, k: Parts, scalar: int, lam: int, n: nat, p: T)
    requires c.IsCurve() && c.ActsAs(lam) && c.group.Mul(n, p) == c.group.zero
    requires Decomposes(k, scalar, lam, n)
    ensures var q := c.group.Mul(scalar, p); Relation4(c.group, k, p, c.Phi(p), q, c.Phi(q)) == c.group.zero
  {
    hide Curve.IsCurve, Curve.ActsAs, Group.IsGroup, Group.Mul, Relation4;
    CurveIsGroup(c);
    RelationOfMultiple(c, k, scalar, lam, p);
    FakeGlv.MultipleOfOrder(c.group, n, scalar * (k.v1 + lam * k.v2) + k.u1 + lam * k.u2, p);
  }

  /** get_nG */
  function NTimesG<T(!new), C(!new)>(c: Curve<T, C>, n: int, gen: T, k: int): Result<T> {
    if k < n then Ok(c.group.Mul(k, gen)) else Err(AssertionError)
  }

  function Width(n: nat): nat {
    BitLength(n) / 4 + 9
  }

  /** scalar_mul_glv_and_fake_glv: the check never rejects an honest hint. The result
      is scalar*P except for a scalar congruent to -1, for which it is 2*G. */
  method ScalarMulGlv<T(!new,==), C(!new)>(c: Curve<T, C>, n: nat, lam: int, gen: T, point: T, scalar: int) returns (res: Result<T>)
    requires c.IsCurve() && c.ActsAs(lam) && n > 0 && Eigenvalue(lam, n)
    requires c.group.Mul(n, point) == c.group.zero
    ensures scalar % n == 0 || point == c.group.zero ==> res == Err(AssertionError)
    ensures res.Ok? ==> res.value == if scalar % n == n - 1 then c.group.Mul(2, gen) else c.group.Mul(scalar, point)
    ensures scalar % n != 0 && point != c.group.zero && n < 4 ==> res == Err(ValueError)
    ensures scalar % n != 0 && point != c.group.zero && BitLength(n) <= 79_000 && n >= 4
      ==> (res.Ok? <==> Pow2(BitLength(n) / 4 + 8) < n) && (res.Err? ==> res.failure == AssertionError)
  {
    hide Curve.IsCurve, Curve.ActsAs, Group.IsGroup, Group.Mul, Relation4, Pow2, BitLength, Eigenvalue, Decomposes;
    if scalar % n == 0 || point == c.group.zero {
      return Err(AssertionError);
    }
    var hint := HalfGcdEisensteinHint(n, scalar, lam);
    if hint.Err? {
      return Err(hint.failure);
    }
    var k := hint.value;
    var q := c.group.Mul(scalar, point);
    var s := scalar;
    if scalar % n == n - 1 {
      s, q := 1, c.group.Mul(2, gen);
    }
    var decomposed := (s * (k.v1 + lam * k.v2) + k.u1 + lam * k.u2) % n == 0;
    assert decomposed by { DecomposedModulo(k, s, lam, n); }
    var accepted := CheckRelation(c, k, point, q, gen, Width(n));
    var gm := NTimesG(c, n, gen, Pow2(Width(n) - 1));
    if gm.Err? {
      return Err(gm.failure);
    }
    if scalar % n == n - 1 {
      accepted := true;
    } else {
      HintedRelation(c, k, s, lam, n, point);
    }
    return if decomposed && accepted then Ok(q) else Err(AssertionError);
  }

  lemma DecomposedModulo(k: Parts, s: int, lam: int, n: int)
    requires Decomposes(k, s, lam, n)
    ensures (s * (k.v1 + lam * k.v2) + k.u1 + lam * k.u2) % n == 0
  {
  }

  /** The documented result scalar*P is returned exactly outside the special case,
      unless -P happens to be 2*G. */
  lemma SpecialCaseExactly<T(!new), C(!new)>(c: Curve<T, C>, n: nat, gen: T, point: T, scalar: int)
    requires c.IsCurve() && n > 0 && c.group.Mul(n, point) == c.group.zero
    ensures (if scalar % n == n - 1 then c.group.Mul(2, gen) else c.group.Mul(scalar, point)) == c.group.Mul(scalar, point)
      <==> scalar % n != n - 1 || c.group.neg(point) == c.group.Mul(2, gen)
  {
    hide Curve.IsCurve, Group.IsGroup, Group.Mul;
    CurveIsGroup(c);
    if scalar % n == n - 1 {
      MinusOne(scalar, n);
      FakeGlv.MultipleOfOrder(c.group, n, scalar + 1, point);
      MulAdds(c.group, scalar + 1, -1, point);
      MulZero(c.group, point);
      Identity(c.group, c.group.neg(point));
    }
  }

  lemma MinusOne(scalar: int, n: nat)
    requires n > 0 && scalar % n == n - 1
    ensures Divides(n, scalar + 1)
  {
    assert scalar == n * (scalar / n) + n - 1;
    assert scalar + 1 == n * (scalar / n + 1);
    MultipleDivides(n, scalar / n + 1);
  }

  // ----- the hint itself -----

  /** The four parts, encoded. */
  function Codes(k: Parts): seq<nat> {
    [Encode(k.u1), Encode(k.u2), Encode(k.v1), Encode(k.v2)]
  }

  /** The contract reads all four parts back. */
  ghost predicate AreRead(codes: seq<nat>, k: Parts) {
    && |codes| == 4 && ReadPart(codes[0]) == Ok(k.u1) && ReadPart(codes[1]) == Ok(k.u2)
    && ReadPart(codes[2]) == Ok(k.v1) && ReadPart(codes[3]) == Ok(k.v2)
  }

  /** get_glv_fake_glv_hint: scalar*P with the encoded parts of a short decomposition, which the
      contract reads back for every modulus of at most 348 bits. */
  method GetGlvFakeGlvHint<T(!new)>(g: Group<T>, n: nat, hasEndomorphism: bool, lam: int, point: T, scalar: int)
    returns (res: Result<(T, seq<nat>)>, ghost k: Parts)
    requires n > 0 && Eigenvalue(lam, n)
    ensures !hasEndomorphism ==> res == Err(AssertionError)
    ensures hasEndomorphism && n < 4 ==> res == Err(ValueError)
    ensures hasEndomorphism && n >= 4 && BitLength(n) <= 79_000 ==> res.Ok?
    ensures res.Ok? ==> res.value.0 == g.Mul(scalar, point) && res.value.1 == Codes(k)
    ensures res.Ok? && scalar % n == n - 1 ==> Decomposes(k, 1, lam, n)
    ensures res.Ok? && scalar % n != n - 1 ==> Decomposes(k, scalar, lam, n)
    ensures res.Ok? ==> FitsHint(k, n) && !(k.v1 == 0 && k.v2 == 0)
    ensures res.Ok? && BitLength(n) <= 348 ==> AreRead(res.value.1, k)
  {
    hide Group.Mul, Pow2, BitLength, Eigenvalue, Decomposes, FitsHint, Encode, ReadPart;
    k := Parts(0, 0, 0, 0);
    if !hasEndomorphism {
      return Err(AssertionError), k;
    }
    var hint := HalfGcdEisensteinHint(n, scalar, lam);
    if hint.Err? {
      return Err(hint.failure), k;
    }
    var h := hint.value;
    if BitLength(n) <= 348 {
      HintIsRead(h, n);
    }
    return Ok((g.Mul(scalar, point), [Encode(h.u1), Encode(h.u2), Encode(h.v1), Encode(h.v2)])), h;
  }

  lemma HintIsRead(h: Parts, n: nat)
    requires FitsHint(h, n) && BitLength(n) <= 348
    ensures AreRead(Codes(h), h)
  {
    hide Pow2, BitLength, Encode, ReadPart;
    Pow2Monotone(BitLength(n) / 4 + 9, 96);
    ReadPartUndoesEncode(h.u1);
    ReadPartUndoesEncode(h.u2);
    ReadPartUndoesEncode(h.v1);
    ReadPartUndoesEncode(h.v2);
  }
}
