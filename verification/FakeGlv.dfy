/** Scalar multiplication checked by a windowed double-and-add over a short relation,
    on curves without an endomorphism. */
module FakeGlv {
  import opened IntMath
  import opened Results
  import opened Divisibility
  import opened Bits
  import opened Groups
  import opened HintEncoding
  import opened Lattice

  // ----- the sixteen window points -----

  function Triple<T(!new,==)>(g: Group<T>, p: T): T {
    if p == g.zero then p else g.add(g.add(p, p), p)
  }

  /** T1 to T16. Half of them are negatives of the other half. */
  function WindowPoint<T(!new,==)>(g: Group<T>, p: T, r: T, j: nat): T
    requires 1 <= j <= 16
  {
    var p3, r3 := Triple(g, p), Triple(g, r);
    match j
    case 1 => g.add(p3, r3)
    case 2 => g.add(p, r)
    case 3 => g.add(p3, r)
    case 4 => g.add(p, r3)
    case 5 => g.neg(g.add(p, r))
    case 6 => g.neg(g.add(p3, r3))
    case 7 => g.neg(g.add(p, r3))
    case 8 => g.neg(g.add(p3, r))
    case 9 => g.add(p3, g.neg(r))
    case 10 => g.add(p, g.neg(r3))
    case 11 => g.add(p3, g.neg(r3))
    case 12 => g.add(g.neg(r), p)
    case 13 => g.neg(g.add(p, g.neg(r3)))
    case 14 => g.neg(g.add(p3, g.neg(r)))
    case 15 => g.neg(g.add(g.neg(r), p))
    case 16 => g.neg(g.add(p3, g.neg(r3)))
  }

  /** The two selector tables: which T a four-bit window picks. */
  function OriginalMux(sel: nat): nat
    requires sel < 16
  {
    [6, 10, 14, 2, 7, 11, 15, 3, 8, 12, 16, 4, 5, 9, 13, 1][sel]
  }

  function Mux(sel: nat): nat
    requires sel < 16
  {
    [6, 7, 10, 11, 8, 5, 12, 9, 14, 15, 2, 3, 16, 13, 4, 1][sel]
  }

  function WindowCoeffs(hi1: nat, lo1: nat, hi2: nat, lo2: nat): seq<int> {
    [2 * Sign(hi1) + Sign(lo1), 2 * Sign(hi2) + Sign(lo2)]
  }

  function Coeffs(j: nat): seq<int>
    requires 1 <= j <= 16
  {
    match j
    case 1 => [3, 3]
    case 2 => [1, 1]
    case 3 => [3, 1]
    case 4 => [1, 3]
    case 5 => [-1, -1]
    case 6 => [-3, -3]
    case 7 => [-1, -3]
    case 8 => [-3, -1]
    case 9 => [3, -1]
    case 10 => [1, -3]
    case 11 => [3, -3]
    case 12 => [1, -1]
    case 13 => [-1, 3]
    case 14 => [-3, 1]
    case 15 => [-1, 1]
    case 16 => [-3, 3]
  }

  /** Both tables pick, for each window, the point with the window's signed digits. */
  lemma TablesAgree(hi1: nat, lo1: nat, hi2: nat, lo2: nat)
    requires hi1 <= 1 && lo1 <= 1 && hi2 <= 1 && lo2 <= 1
    ensures OriginalMux(hi1 + 2 * hi2 + 4 * lo1 + 8 * lo2) == Mux(lo1 + 2 * hi1 + 4 * (lo2 + 2 * hi2))
    ensures 1 <= Mux(lo1 + 2 * hi1 + 4 * (lo2 + 2 * hi2)) <= 16
    ensures Coeffs(Mux(lo1 + 2 * hi1 + 4 * (lo2 + 2 * hi2))) == WindowCoeffs(hi1, lo1, hi2, lo2)
  {
    var sel := lo1 + 2 * hi1 + 4 * (lo2 + 2 * hi2);
    if hi2 == 0 && lo2 == 0 {
      assert sel == lo1 + 2 * hi1;
    } else if hi2 == 0 {
      assert sel == lo1 + 2 * hi1 + 4;
    } else if lo2 == 0 {
      assert sel == lo1 + 2 * hi1 + 8;
    } else {
      assert sel == lo1 + 2 * hi1 + 12;
    }
  }

  lemma TripleComb<T(!new)>(g: Group<T>, p: T, a: seq<int>, c: seq<int>, pts: seq<T>)
    requires g.IsGroup() && |a| == |c| == |pts| && p == Comb(g, a, pts)
    requires forall i :: 0 <= i < |a| ==> c[i] == 3 * a[i]
    ensures Triple(g, p) == Comb(g, c, pts)
  {
    hide Group.IsGroup, Comb;
    var d := seq(|a|, i requires 0 <= i < |a| => 2 * a[i]);
    AddCombs(g, a, a, d, pts);
    AddCombs(g, d, a, c, pts);
    Identity(g, p);
  }

  lemma BaseCombs<T(!new)>(g: Group<T>, p: T, r: T)
    requires g.IsGroup()
    ensures Comb(g, [1, 0], [p, r]) == p && Comb(g, [0, 1], [p, r]) == r
    ensures Comb(g, [0, -1], [p, r]) == g.neg(r)
    ensures Comb(g, [3, 0], [p, r]) == Triple(g, p) && Comb(g, [0, 3], [p, r]) == Triple(g, r)
    ensures Comb(g, [0, -3], [p, r]) == g.neg(Triple(g, r))
  {
    hide Group.IsGroup, Comb, Triple;
    var pts := [p, r];
    UnitComb(g, 0, [1, 0], pts);
    UnitComb(g, 1, [0, 1], pts);
    TripleComb(g, p, [1, 0], [3, 0], pts);
    TripleComb(g, r, [0, 1], [0, 3], pts);
    NegComb(g, [0, 1], [0, -1], pts);
    NegComb(g, [0, 3], [0, -3], pts);
  }

  /** T_j is the combination of P and R with the coefficients of window j. */
  lemma WindowPointIsSigned<T(!new)>(g: Group<T>, p: T, r: T, j: nat)
    requires g.IsGroup() && 1 <= j <= 16
    ensures WindowPoint(g, p, r, j) == Comb(g, Coeffs(j), [p, r])
  {
    hide Group.IsGroup, Comb, Triple;
    BaseCombs(g, p, r);
    var pts := [p, r];
    match j
    case 1 => AddCombs(g, [3, 0], [0, 3], [3, 3], pts);
    case 2 => AddCombs(g, [1, 0], [0, 1], [1, 1], pts);
    case 3 => AddCombs(g, [3, 0], [0, 1], [3, 1], pts);
    case 4 => AddCombs(g, [1, 0], [0, 3], [1, 3], pts);
    case 5 => AddCombs(g, [1, 0], [0, 1], [1, 1], pts); NegComb(g, [1, 1], [-1, -1], pts);
    case 6 => AddCombs(g, [3, 0], [0, 3], [3, 3], pts); NegComb(g, [3, 3], [-3, -3], pts);
    case 7 => AddCombs(g, [1, 0], [0, 3], [1, 3], pts); NegComb(g, [1, 3], [-1, -3], pts);
    case 8 => AddCombs(g, [3, 0], [0, 1], [3, 1], pts); NegComb(g, [3, 1], [-3, -1], pts);
    case 9 => AddCombs(g, [3, 0], [0, -1], [3, -1], pts);
    case 10 => AddCombs(g, [1, 0], [0, -3], [1, -3], pts);
    case 11 => AddCombs(g, [3, 0], [0, -3], [3, -3], pts);
    case 12 => AddCombs(g, [0, -1], [1, 0], [1, -1], pts);
    case 13 => AddCombs(g, [1, 0], [0, -3], [1, -3], pts); NegComb(g, [1, -3], [-1, 3], pts);
    case 14 => AddCombs(g, [3, 0], [0, -1], [3, -1], pts); NegComb(g, [3, -1], [-3, 1], pts);
    case 15 => AddCombs(g, [0, -1], [1, 0], [1, -1], pts); NegComb(g, [1, -1], [-1, 1], pts);
    case 16 => AddCombs(g, [3, 0], [0, -3], [3, -3], pts); NegComb(g, [3, -3], [-3, 3], pts);
  }

  // ----- the accumulation loop -----

  lemma QuadrupleAdd<T(!new)>(g: Group<T>, acc: T, t: T, a: seq<int>, b: seq<int>, c: seq<int>, pts: seq<T>)
    requires g.IsGroup() && |a| == |b| == |c| == |pts|
    requires acc == Comb(g, a, pts) && t == Comb(g, b, pts)
    requires forall i :: 0 <= i < |a| ==> c[i] == 4 * a[i] + b[i]
    ensures g.add(g.add(g.add(acc, acc), g.add(acc, acc)), t) == Comb(g, c, pts)
  {
    hide Group.IsGroup, Comb;
    var d := seq(|a|, i requires 0 <= i < |a| => 2 * a[i]);
    AddCombs(g, a, a, d, pts);
    DoubleAdd(g, g.add(acc, acc), t, d, b, c, pts);
  }

  /** What the accumulator holds once the bits from position i up are consumed. */
  ghost function Consumed(bits1: seq<nat>, bits2: seq<nat>, i: nat, n: nat): (coeffs: seq<int>)
    requires i <= n <= |bits1| && n <= |bits2|
    ensures |coeffs| == 2
  {
    [2 * High(bits1, i, n) + 1, 2 * High(bits2, i, n) + 1]
  }

  lemma FirstWindow<T(!new)>(g: Group<T>, p: T, r: T, j: nat, bits1: seq<nat>, bits2: seq<nat>, n: nat)
    requires g.IsGroup() && AreBits(bits1) && AreBits(bits2) && 0 < n <= |bits1| && n <= |bits2|
    requires 1 <= j <= 16 && Coeffs(j) == [Sign(bits1[n - 1]), Sign(bits2[n - 1])]
    ensures var acc := g.add(p, r);
      g.add(g.add(acc, acc), WindowPoint(g, p, r, j)) == Comb(g, Consumed(bits1, bits2, n - 1, n), [p, r])
  {
    hide Group.IsGroup, Comb, WindowPoint;
    BaseCombs(g, p, r);
    AddCombs(g, [1, 0], [0, 1], [1, 1], [p, r]);
    WindowPointIsSigned(g, p, r, j);
    assert High(bits1, n, n) == 0 && High(bits2, n, n) == 0;
    DoubleAdd(g, g.add(p, r), WindowPoint(g, p, r, j), [1, 1], Coeffs(j), Consumed(bits1, bits2, n - 1, n), [p, r]);
  }

  lemma NextWindow<T(!new)>(g: Group<T>, acc: T, p: T, r: T, j: nat, bits1: seq<nat>, bits2: seq<nat>, i: nat, n: nat)
    requires g.IsGroup() && AreBits(bits1) && AreBits(bits2) && 1 <= i < n <= |bits1| && n <= |bits2|
    requires acc == Comb(g, Consumed(bits1, bits2, i + 1, n), [p, r])
    requires 1 <= j <= 16 && Coeffs(j) == WindowCoeffs(bits1[i], bits1[i - 1], bits2[i], bits2[i - 1])
    ensures g.add(g.add(g.add(acc, acc), g.add(acc, acc)), WindowPoint(g, p, r, j))
      == Comb(g, Consumed(bits1, bits2, i - 1, n), [p, r])
  {
    hide Group.IsGroup, Comb, WindowPoint;
    WindowPointIsSigned(g, p, r, j);
    TwoBits(bits1, i, n);
    TwoBits(bits2, i, n);
    QuadrupleAdd(g, acc, WindowPoint(g, p, r, j), Consumed(bits1, bits2, i + 1, n), Coeffs(j), Consumed(bits1, bits2, i - 1, n), [p, r]);
  }

  lemma TwoBits(bits: seq<nat>, i: nat, n: nat)
    requires 1 <= i < n <= |bits|
    ensures High(bits, i - 1, n) == bits[i - 1] + 2 * bits[i] + 4 * High(bits, i + 1, n)
  {
    assert High(bits, i - 1, n) == bits[i - 1] + 2 * High(bits, i, n);
  }

  /** The last window also adds 3R. */
  lemma LastWindow<T(!new)>(g: Group<T>, acc: T, p: T, r: T, j: nat, bits1: seq<nat>, bits2: seq<nat>, n: nat)
    requires g.IsGroup() && AreBits(bits1) && AreBits(bits2) && 3 <= n <= |bits1| && n <= |bits2|
    requires acc == Comb(g, Consumed(bits1, bits2, 3, n), [p, r])
    requires 1 <= j <= 16 && Coeffs(j) == WindowCoeffs(bits1[2], bits1[1], bits2[2], bits2[1])
    ensures g.add(g.add(g.add(acc, acc), g.add(acc, acc)), g.add(WindowPoint(g, p, r, j), Triple(g, r)))
      == Comb(g, [2 * High(bits1, 1, n) + 1, 2 * High(bits2, 1, n) + 4], [p, r])
  {
    hide Group.IsGroup, Comb, WindowPoint, Triple;
    BaseCombs(g, p, r);
    WindowPointIsSigned(g, p, r, j);
    TwoBits(bits1, 2, n);
    TwoBits(bits2, 2, n);
    var c := [Coeffs(j)[0], Coeffs(j)[1] + 3];
    AddCombs(g, Coeffs(j), [0, 3], c, [p, r]);
    QuadrupleAdd(g, acc, g.add(WindowPoint(g, p, r, j), Triple(g, r)), Consumed(bits1, bits2, 3, n), c,
      [2 * High(bits1, 1, n) + 1, 2 * High(bits2, 1, n) + 4], [p, r]);
  }

  lemma LowestBit<T(!new)>(g: Group<T>, acc: T, p: T, r: T, a: int, b: int)
    requires g.IsGroup() && acc == Comb(g, [a, b], [p, r])
    ensures g.add(g.neg(p), acc) == Comb(g, [a - 1, b], [p, r])
    ensures g.add(g.neg(r), acc) == Comb(g, [a, b - 1], [p, r])
  {
    hide Group.IsGroup, Comb;
    BaseCombs(g, p, r);
    NegComb(g, [1, 0], [-1, 0], [p, r]);
    AddCombs(g, [-1, 0], [a, b], [a - 1, b], [p, r]);
    AddCombs(g, [0, -1], [a, b], [a, b - 1], [p, r]);
  }

  /** Steps 7 to 11 of scalar_mul_fake_glv: the accumulator ends with b1*P + b2*R + 3R,
      where b1 and b2 are the numbers the first n bits write. */
  method Accumulate<T(!new,==)>(g: Group<T>, p: T, r: T, bits1: seq<nat>, bits2: seq<nat>, n: nat) returns (acc: T)
    requires g.IsGroup() && AreBits(bits1) && AreBits(bits2)
    requires n % 2 == 0 && 4 <= n <= |bits1| && n <= |bits2|
    ensures acc == Comb(g, [High(bits1, 0, n), High(bits2, 0, n) + 3], [p, r])
  {
    hide Group.IsGroup, Comb, High, Consumed;
    acc := AccumulateWindows(g, p, r, bits1, bits2, n);
    acc := AccumulateLast(g, acc, p, r, bits1, bits2, n);
    OneMoreBit(bits1, n);
    OneMoreBit(bits2, n);
    acc := SubtractLowest(g, acc, p, r, bits1[0], bits2[0], 2 * High(bits1, 1, n) + 1, 2 * High(bits2, 1, n) + 4);
  }

  /** The first window and the loop. */
  method AccumulateWindows<T(!new,==)>(g: Group<T>, p: T, r: T, bits1: seq<nat>, bits2: seq<nat>, n: nat) returns (acc: T)
    requires g.IsGroup() && AreBits(bits1) && AreBits(bits2)
    requires n % 2 == 0 && 4 <= n <= |bits1| && n <= |bits2|
    ensures acc == Comb(g, Consumed(bits1, bits2, 3, n), [p, r])
  {
    hide Group.IsGroup, Comb, WindowPoint, Triple, High, OriginalMux, Mux, Consumed, WindowCoeffs;
    acc := g.add(p, r);
    var top1, top2 := bits1[n - 1], bits2[n - 1];
    var first := if top1 == 0 && top2 == 0 then 5 else if top2 == 0 then 12 else if top1 == 0 then 15 else 2;
    FirstWindow(g, p, r, first, bits1, bits2, n);
    acc := g.add(g.add(acc, acc), WindowPoint(g, p, r, first));
    var i := n - 2;
    while i > 2
      invariant i % 2 == 0 && 2 <= i <= n - 2
      invariant acc == Comb(g, Consumed(bits1, bits2, i + 1, n), [p, r])
    {
      TablesAgree(bits1[i], bits1[i - 1], bits2[i], bits2[i - 1]);
      var selectorOld := OriginalMux(bits1[i] + 2 * bits2[i] + 4 * bits1[i - 1] + 8 * bits2[i - 1]);
      var selector := Mux(bits1[i - 1] + 2 * bits1[i] + 4 * (bits2[i - 1] + 2 * bits2[i]));
      assert selectorOld == selector;
      NextWindow(g, acc, p, r, selector, bits1, bits2, i, n);
      acc := g.add(acc, acc);
      acc := g.add(acc, acc);
      acc := g.add(acc, WindowPoint(g, p, r, selector));
      i := i - 2;
    }
  }

  /** The last window, which also adds 3R. */
  method AccumulateLast<T(!new,==)>(g: Group<T>, acc0: T, p: T, r: T, bits1: seq<nat>, bits2: seq<nat>, n: nat) returns (acc: T)
    requires g.IsGroup() && AreBits(bits1) && AreBits(bits2)
    requires 4 <= n <= |bits1| && n <= |bits2| && acc0 == Comb(g, Consumed(bits1, bits2, 3, n), [p, r])
    ensures acc == Comb(g, [2 * High(bits1, 1, n) + 1, 2 * High(bits2, 1, n) + 4], [p, r])
  {
    hide Group.IsGroup, Comb, WindowPoint, Triple, High, OriginalMux, Mux, Consumed, WindowCoeffs;
    TablesAgree(bits1[2], bits1[1], bits2[2], bits2[1]);
    var selector := Mux(bits1[1] + 2 * bits1[2] + 4 * (bits2[1] + 2 * bits2[2]));
    LastWindow(g, acc0, p, r, selector, bits1, bits2, n);
    var t := g.add(WindowPoint(g, p, r, selector), Triple(g, r));
    acc := g.add(acc0, acc0);
    acc := g.add(acc, acc);
    acc := g.add(acc, t);
  }

  /** Step 11: a zero lowest bit takes one P or R back. */
  method SubtractLowest<T(!new)>(g: Group<T>, acc0: T, p: T, r: T, bit1: nat, bit2: nat, ghost a: int, ghost b: int) returns (acc: T)
    requires g.IsGroup() && bit1 <= 1 && bit2 <= 1 && acc0 == Comb(g, [a, b], [p, r])
    ensures acc == Comb(g, [a - 1 + bit1, b - 1 + bit2], [p, r])
  {
    hide Group.IsGroup, Comb;
    acc := acc0;
    LowestBit(g, acc, p, r, a, b);
    if bit1 == 0 {
      acc := g.add(g.neg(p), acc);
    }
    LowestBit(g, acc, p, r, a - 1 + bit1, b);
    if bit2 == 0 {
      acc := g.add(g.neg(r), acc);
    }
  }

  lemma OneMoreBit(bits: seq<nat>, n: nat)
    requires 0 < n <= |bits|
    ensures High(bits, 0, n) == bits[0] + 2 * High(bits, 1, n)
  {
  }

  // ----- the check -----

  const NBITS: nat := 128

  /** s1*P + s2*Q */
  function Relation<T(!new)>(g: Group<T>, s1: int, s2: int, p: T, q: T): T {
    g.add(g.Mul(s1, p), g.Mul(s2, q))
  }

  lemma CombOfTwo<T(!new)>(g: Group<T>, a: int, b: int, p: T, q: T)
    requires g.IsGroup()
    ensures Comb(g, [a, b], [p, q]) == Relation(g, a, b, p, q)
  {
    hide Group.IsGroup, Group.Mul;
    assert Comb(g, [], []) == g.zero;
    assert [a, b][1..] == [b] && [p, q][1..] == [q] && [b][1..] == [] && [q][1..] == [];
    Identity(g, g.Mul(b, q));
  }

  /** The signed base R' = -Q for a negative s2 absorbs the sign of s2. */
  function SignedBase<T(!new)>(g: Group<T>, s2: int, q: T): T {
    if s2 < 0 then g.neg(q) else q
  }

  lemma SignedMultiple<T(!new)>(g: Group<T>, s2: int, q: T)
    requires g.IsGroup()
    ensures g.Mul(Abs(s2), SignedBase(g, s2, q)) == g.Mul(s2, q)
  {
    hide Group.IsGroup, Group.Mul;
    if s2 < 0 {
      MulZero(g, q);
      MulOfMul(g, -s2, -1, q);
    }
  }

  /** Adding 3R on both sides leaves exactly the relation. */
  lemma CheckIsRelation<T(!new)>(g: Group<T>, p: T, r: T, a: int, b: int)
    requires g.IsGroup()
    ensures Comb(g, [a, b + 3], [p, r]) == Triple(g, r) <==> Relation(g, a, b, p, r) == g.zero
  {
    hide Group.IsGroup, Comb, Triple, Relation;
    BaseCombs(g, p, r);
    CombOfTwo(g, a, b, p, r);
    AddCombs(g, [a, b], [0, 3], [a, b + 3], [p, r]);
    Identity(g, Triple(g, r));
    if Comb(g, [a, b + 3], [p, r]) == Triple(g, r) {
      Cancel(g, Comb(g, [a, b], [p, r]), g.zero, Triple(g, r));
    }
  }

  /** The relation on the low 128 bits of |s1| and |s2|. */
  ghost predicate LowRelation<T(!new)>(g: Group<T>, s1: int, s2: int, p: T, q: T) {
    Relation(g, Abs(s1) % Pow2(128), Abs(s2) % Pow2(128), p, SignedBase(g, s2, q)) == g.zero
  }

  ghost predicate InWindow(x: int) {
    Abs(x) < Pow2(128)
  }

  /** Steps 5 to 12 of scalar_mul_fake_glv for an arbitrary claimed Q: the check
      accepts exactly when the relation with the low 128 bits of |s1| and |s2|
      holds, and so exactly when |s1|*P + s2*Q = 0 for parts that fit. */
  method CheckRelation<T(!new,==)>(g: Group<T>, p: T, q: T, s1: int, s2: int) returns (accepted: bool)
    requires g.IsGroup()
    ensures accepted <==> LowRelation(g, s1, s2, p, q)
    ensures InWindow(s1) && InWindow(s2) ==> (accepted <==> Relation(g, Abs(s1), s2, p, q) == g.zero)
  {
    hide Group.IsGroup, Comb, Triple, High, Pow2, Relation;
    var bits1, bits2 := ToBitsLe(Abs(s1), NBITS), ToBitsLe(Abs(s2), NBITS);
    var r := SignedBase(g, s2, q);
    var acc := Accumulate(g, p, r, bits1, bits2, NBITS);
    accepted := acc == Triple(g, r);
    LowBits(Abs(s1), NBITS);
    LowBits(Abs(s2), NBITS);
    CheckIsRelation(g, p, r, High(bits1, 0, NBITS), High(bits2, 0, NBITS));
    if Abs(s1) < Pow2(NBITS) && Abs(s2) < Pow2(NBITS) {
      UniqueRemainder(Abs(s1), Pow2(NBITS), 0, Abs(s1));
      UniqueRemainder(Abs(s2), Pow2(NBITS), 0, Abs(s2));
      SignedRelation(g, Abs(s1), s2, p, q);
    }
  }

  lemma SignedRelation<T(!new)>(g: Group<T>, a: int, s2: int, p: T, q: T)
    requires g.IsGroup()
    ensures Relation(g, a, Abs(s2), p, SignedBase(g, s2, q)) == Relation(g, a, s2, p, q)
  {
    hide Group.IsGroup, Group.Mul, SignedBase;
    SignedMultiple(g, s2, q);
  }

  // ----- the whole multiplication -----

  lemma MultipleOfOrder<T(!new)>(g: Group<T>, n: int, k: int, p: T)
    requires g.IsGroup() && g.Mul(n, p) == g.zero && Divides(n, k)
    ensures g.Mul(k, p) == g.zero
  {
    hide Group.IsGroup, Group.Mul;
    MulOfMul(g, k / n, n, p);
    assert k == n * (k / n);
    MulOfZero(g, k / n);
  }

  /** With Q = scalar*P the relation collapses to a multiple of P. */
  lemma RelationOfMultiple<T(!new)>(g: Group<T>, a: int, s2: int, scalar: int, p: T)
    requires g.IsGroup()
    ensures Relation(g, a, s2, p, g.Mul(scalar, p)) == g.Mul(a + s2 * scalar, p)
  {
    hide Group.IsGroup, Group.Mul;
    MulOfMul(g, s2, scalar, p);
    MulAdds(g, a, s2 * scalar, p);
  }

  /** p has order exactly n. */
  ghost predicate HasOrder<T(!new)>(g: Group<T>, p: T, n: int) {
    n > 0 && g.Mul(n, p) == g.zero && forall k :: 0 < k < n ==> g.Mul(k, p) != g.zero
  }

  lemma PartsFit(l: Basis, n: nat, scalar: int)
    requires IsBasisFor(l, n, scalar) && scalar != 0
    requires n < (Pow2(128) - 1) * Isqrt(n)
    ensures InWindow(l.v1.0) && InWindow(l.v1.1)
  {
    hide Pow2;
    var s, b := Isqrt(n), Pow2(NBITS);
    if scalar > 0 {
      CancelStrict(s, Abs(l.v1.1), b - 1);
    } else {
      CancelStrict(s, Abs(l.v1.1) - 1, b - 1);
    }
    RootBelowBound(s, n, b);
  }

  lemma CancelStrict(s: nat, x: int, y: int)
    requires x * s < y * s
    ensures x < y
  {
  }

  lemma RootBelowBound(s: nat, n: nat, b: int)
    requires s * s <= n < (b - 1) * s
    ensures s < b
  {
    CancelStrict(s, s, b - 1);
  }

  /** Every modulus whose root leaves two units of room below 2^128 is small enough. */
  lemma SmallRootIsEnough(n: nat)
    requires n > 0 && Isqrt(n) + 4 <= Pow2(128)
    ensures n < (Pow2(128) - 1) * Isqrt(n)
  {
    hide Pow2;
    IsqrtGreatest(n, 1);
    RoomBelow(Isqrt(n), n, Pow2(NBITS));
  }

  lemma RoomBelow(s: nat, n: nat, b: nat)
    requires n < (s + 1) * (s + 1) && s + 4 <= b && s >= 1
    ensures n < (b - 1) * s
  {
    assert (s + 1) * (s + 1) == s * (s + 2) + 1;
    assert s * (s + 3) == s * (s + 2) + s;
    ProductMonotone(s, s + 3, b - 1);
  }

  /** The relation holds for the hinted parts exactly when the scalar is positive:
      a negative scalar makes s1 negative, and the check uses |s1|. */
  lemma HintedRelation<T(!new)>(g: Group<T>, l: Basis, n: nat, scalar: int, p: T)
    requires g.IsGroup() && HasOrder(g, p, n) && IsBasisFor(l, n, scalar) && scalar != 0
    ensures Relation(g, Abs(l.v1.0), l.v1.1, p, g.Mul(scalar, p)) == g.zero <==> scalar > 0
  {
    hide Group.IsGroup, Group.Mul, Relation, Isqrt;
    var s1, s2 := l.v1.0, l.v1.1;
    RelationOfMultiple(g, Abs(s1), s2, scalar, p);
    if scalar > 0 {
      MultipleOfOrder(g, n, s1 + s2 * scalar, p);
    } else {
      RelationOfMultiple(g, s1, s2, scalar, p);
      MultipleOfOrder(g, n, s1 + s2 * scalar, p);
      MulAdds(g, s1 + s2 * scalar, -2 * s1, p);
      Identity(g, g.Mul(-2 * s1, p));
      TwiceBelowSquare(-s1, Isqrt(n));
    }
  }

  lemma TwiceBelowSquare(x: int, s: int)
    requires 0 < x < s
    ensures 2 * x < s * s
  {
    assert (s - 1) * (s - 1) >= 0;
    assert s * s == (s - 1) * (s - 1) + 2 * s - 1;
  }

  /** The moduli for which 128 bits are enough for both parts. */
  ghost predicate FitsWindow(n: nat) {
    BitLength(n) <= 256 && n < (Pow2(128) - 1) * Isqrt(n)
  }

  lemma WindowBits(n: nat)
    ensures FitsWindow(n) ==> (BitLength(n) + 1) / 2 <= NBITS
    ensures BitLength(n) > 256 <==> (BitLength(n) + 1) / 2 > NBITS
  {
    hide BitLength, Isqrt, Pow2;
  }

  lemma CheckOutcome<T(!new)>(g: Group<T>, l: Basis, n: nat, scalar: int, p: T, accepted: bool)
    requires g.IsGroup() && HasOrder(g, p, n) && IsBasisFor(l, n, scalar) && scalar != 0 && FitsWindow(n)
    requires InWindow(l.v1.0) && InWindow(l.v1.1)
      ==> (accepted <==> Relation(g, Abs(l.v1.0), l.v1.1, p, g.Mul(scalar, p)) == g.zero)
    ensures accepted <==> scalar > 0
  {
    hide Group.IsGroup, Group.Mul, Relation, Isqrt, Pow2, HasOrder, IsBasisFor;
    PartsFit(l, n, scalar);
    HintedRelation(g, l, n, scalar, p);
  }

  lemma HintAssertions(l: Basis, n: nat, scalar: int)
    requires IsBasisFor(l, n, scalar)
    ensures n > 0 && (l.v1.0 + scalar * l.v1.1) % n == 0 && l.v1.1 != 0
  {
    assert l.v1.1 * scalar == scalar * l.v1.1;
  }

  /** The lattice basis of a scalar, with the assertions made on its first vector. */
  method LatticeHint(n: nat, scalar: int) returns (res: Result<Basis>)
    requires n > 0
    ensures (res.Ok? <==> Gcd(n, scalar) < Isqrt(n)) && (res.Err? ==> res.failure == ValueError)
    ensures res.Ok? ==> IsBasisFor(res.value, n, scalar)
  {
    hide Isqrt, IsGcd, Gcd, HasRoundedInverse, IsBasisFor;
    res := PrecomputeLattice(n, scalar);
    if res.Ok? {
      HintAssertions(res.value, n, scalar);
      assert (res.value.v1.0 + scalar * res.value.v1.1) % n == 0;
      assert res.value.v1.1 != 0;
    }
  }

  /** The part of scalar_mul_fake_glv after its two early exits. */
  method MulByHint<T(!new,==)>(g: Group<T>, n: nat, point: T, scalar: int) returns (res: Result<T>)
    requires g.IsGroup() && n > 0 && scalar != 0
    ensures res.Ok? ==> res.value == g.Mul(scalar, point)
    ensures Gcd(n, scalar) >= Isqrt(n) ==> res == Err(ValueError)
    ensures Gcd(n, scalar) < Isqrt(n) && BitLength(n) > 256 ==> res == Err(AssertionError)
    ensures Gcd(n, scalar) < Isqrt(n) && res.Err? ==> res.failure == AssertionError
    ensures HasOrder(g, point, n) && Gcd(n, scalar) < Isqrt(n) && FitsWindow(n) ==> (res.Ok? <==> scalar > 0)
  {
    hide Group.IsGroup, Group.Mul, Relation, Isqrt, Pow2, IsGcd, Gcd, BitLength, HasRoundedInverse, IsBasisFor, HasOrder, InWindow, LowRelation,
      FitsWindow;
    var q := g.Mul(scalar, point);
    var basis := LatticeHint(n, scalar);
    if basis.Err? {
      return Err(basis.failure);
    }
    var l := basis.value;
    WindowBits(n);
    if NBITS < (BitLength(n) + 1) / 2 {
      return Err(AssertionError);
    }
    var accepted := CheckRelation(g, point, q, l.v1.0, l.v1.1);
    if HasOrder(g, point, n) && FitsWindow(n) {
      CheckOutcome(g, l, n, scalar, point, accepted);
    }
    if !accepted {
      return Err(AssertionError);
    }
    return Ok(q);
  }

  lemma OrderIsNotOne<T(!new)>(g: Group<T>, n: nat, scalar: int)
    requires g.IsGroup() && n > 0 && scalar % n != 0
    ensures !HasOrder(g, g.zero, n)
  {
    hide Group.IsGroup, Group.Mul;
    MulOfZero(g, 1);
  }

  /** scalar_mul_fake_glv: whatever it returns is scalar*P; for a point of order n
      and a small enough modulus it succeeds exactly for positive scalars (or
      multiples of n). */
  method ScalarMulFakeGlv<T(!new,==)>(g: Group<T>, n: nat, point: T, scalar: int) returns (res: Result<T>)
    requires g.IsGroup() && n > 0 && g.Mul(n, point) == g.zero
    ensures res.Ok? ==> res.value == g.Mul(scalar, point)
    ensures scalar % n == 0 || point == g.zero ==> res.Ok?
    ensures scalar % n != 0 && point != g.zero && Gcd(n, scalar) >= Isqrt(n) ==> res == Err(ValueError)
    ensures scalar % n != 0 && point != g.zero && Gcd(n, scalar) < Isqrt(n) && BitLength(n) > 256 ==> res == Err(AssertionError)
    ensures res.Err? ==> res.failure == if Gcd(n, scalar) >= Isqrt(n) then ValueError else AssertionError
    ensures scalar % n != 0 && HasOrder(g, point, n) && Gcd(n, scalar) < Isqrt(n) && FitsWindow(n)
      ==> (res.Ok? <==> scalar > 0)
  {
    hide Group.IsGroup, Group.Mul, Isqrt, IsGcd, HasOrder, FitsWindow, BitLength;
    if scalar % n == 0 {
      MultipleOfOrder(g, n, scalar, point);
      return Ok(g.zero);
    }
    if point == g.zero {
      MulOfZero(g, scalar);
      OrderIsNotOne(g, n, scalar);
      return Ok(g.zero);
    }
    res := MulByHint(g, n, point, scalar);
  }

  // ----- the hint itself -----

  /** The hint for a scalar: its parts satisfy the lattice relation and are as short as the
      square root of the modulus allows; the second one travels encoded. */
  ghost predicate IsFakeGlvHint(n: nat, scalar: int, s1: int, s2: int, code: nat) {
    && n > 0 && 0 < s1 < Isqrt(n) && s2 != 0 && Abs(s2) * Isqrt(n) <= n
    && (s1 + scalar * s2) % n == 0 && code == Encode(s2)
  }

  /** get_fake_glv_hint: the scalar 0 is replaced by 1; curves with an endomorphism and negative
      scalars are rejected, and so are scalars that share too large a factor with the modulus. */
  method GetFakeGlvHint<T(!new,==)>(g: Group<T>, n: nat, hasEndomorphism: bool, point: T, scalar: int)
    returns (res: Result<(T, int, nat)>, ghost s2: int)
    requires n > 0
    ensures var k := if scalar == 0 then 1 else scalar;
      && (res.Ok? <==> !hasEndomorphism && k > 0 && Gcd(n, k) < Isqrt(n))
      && (res.Ok? ==> res.value.0 == g.Mul(k, point) && IsFakeGlvHint(n, k, res.value.1, s2, res.value.2))
    ensures res.Ok? && FitsWindow(n) ==> Read(res.value.2) == s2
    ensures res.Err? ==> res.failure == AssertionError || res.failure == ValueError
  {
    hide Group.Mul, Isqrt, Pow2, IsGcd, BitLength, HasRoundedInverse, IsBasisFor, InWindow, Encode;
    var k := if scalar == 0 then 1 else scalar;
    s2 := 0;
    if hasEndomorphism {
      return Err(AssertionError), s2;
    }
    var basis := LatticeHint(n, k);
    if basis.Err? {
      return Err(basis.failure), s2;
    }
    var l := basis.value;
    HintParts(l, n, k);
    if l.v1.0 <= 0 {
      return Err(AssertionError), s2;
    }
    s2 := l.v1.1;
    if FitsWindow(n) {
      PartsFit(l, n, k);
      WindowDecodes(s2);
    }
    return Ok((g.Mul(k, point), l.v1.0, Encode(l.v1.1))), s2;
  }

  lemma HintParts(l: Basis, n: nat, k: int)
    requires IsBasisFor(l, n, k) && k != 0
    ensures l.v1.0 > 0 <==> k > 0
    ensures k > 0 ==> IsFakeGlvHint(n, k, l.v1.0, l.v1.1, Encode(l.v1.1))
  {
    hide Isqrt;
    HintAssertions(l, n, k);
  }

  lemma WindowDecodes(s2: int)
    requires InWindow(s2)
    ensures Read(Encode(s2)) == s2
  {
    hide Pow2, Encode, Read;
    ReadUndoesEncode(s2);
  }
}
