/** The two RNS primes, reconstruction modulo their product, and the exact two-digit decomposition of
 *  partial_gal, lane by lane.
 */
module Gadget {
  import opened Arith
  import opened SpecialZn

  const Q1 := 67104769
  const Q2 := 33550337
  const Q := 2251387614257153
  const LOG2_B := 26
  const BASE := 0x400_0000
  const HALF_BASE := 0x200_0000

  const RING1 := Ring(26, 4095)
  const RING2 := Ring(25, 4095)

  /** The primes are the moduli of the two lane rings, and both rings pass their invariant check. */
  lemma RingModuli()
    ensures RING1.Modulus() == Q1 && RING2.Modulus() == Q2 && Q == Q1 * Q2
    ensures RING1.CheckInvariant() && RING2.CheckInvariant()
    ensures BASE == Pow2(LOG2_B)
  {
    Pow2Values();
    assert Pow2(25) == 2 * Pow2(24);
    assert Pow2(26) == 2 * Pow2(25);
  }

  /** In both rings two reduction steps may leave more than p. */
  lemma RingsAboveP()
    ensures RING1.ReduceAfterMul(0x3FF_FFFF) > Q1
    ensures RING2.ReduceAfterMul(0x1FF_FFFF) > Q2
  {
    RingModuli();
    Pow2Values();
    AbovePStays(RING1);
    AbovePStays(RING2);
    assert Pow2(25) == 2 * Pow2(24);
    assert Pow2(26) == 2 * Pow2(25);
    assert AboveP(RING1) == 0x3FF_FFFF && AboveP(RING2) == 0x1FF_FFFF;
  }

  /** Q1 and Q2 are coprime: a congruence modulo both holds modulo Q. */
  lemma CrtJoin(x: int, y: int)
    requires Cong(x, y, Q1) && Cong(x, y, Q2)
    ensures Cong(x, y, Q)
  {
    var k1 := CongWitness(x, y, Q1);
    var k2 := CongWitness(x, y, Q2);
    CongIntro(x, y, -16779265 * k2 + 33560578 * k1, Q);
  }

  lemma CrtSplit(x: int, y: int)
    requires Cong(x, y, Q)
    ensures Cong(x, y, Q1) && Cong(x, y, Q2)
  {
    assert Q == Q1 * Q2 == Q2 * Q1;
    CongFactor(x, y, Q1, Q2);
    CongFactor(x, y, Q2, Q1);
  }

  // ----------------------------------------------------------------- reconstruction

  /** The combination of two residues that both the decomposition and the reply conversion form;
   *  c1 and c2 are the inverses of Q2 modulo Q1 and of Q1 modulo Q2. */
  lemma CrtCombine(e1: int, e2: int, x1: int, x2: int, c1: int, c2: int)
    requires Cong(c1 * Q2, 1, Q1) && Cong(c2 * Q1, 1, Q2)
    requires Cong(e1, x1 * c1, Q1) && Cong(e2, x2 * c2, Q2)
    ensures Cong(e1 * Q2 + e2 * Q1, x1, Q1)
    ensures Cong(e1 * Q2 + e2 * Q1, x2, Q2)
  {
    CombineOne(e1, x1, c1, Q2, Q1, e2);
    CombineOne(e2, x2, c2, Q1, Q2, e1);
  }

  lemma CombineOne(e: int, x: int, c: int, other: int, p: int, f: int)
    requires Cong(c * other, 1, p)
    requires Cong(e, x * c, p)
    ensures Cong(e * other + f * p, x, p)
  {
    CongScale(other, e, x * c, p);
    CongScale(x, c * other, 1, p);
    assert (x * c) * other == x * (c * other);
    CongTrans(e * other, x * (c * other), x, p);
    CongIntro(e * other + f * p, e * other, f, p);
    CongTrans(e * other + f * p, e * other, x, p);
  }

  /** from_simd_element: one coefficient of the ciphertext from its two RNS components. */
  function FromRns(x1: int, x2: int, c1: int, c2: int): int {
    (Q2 * Centered(x1 * c1, Q1) + Q1 * Centered(x2 * c2, Q2)) % Q
  }

  lemma FromRnsExact(x1: int, x2: int, c1: int, c2: int, y: int)
    requires Cong(c1 * Q2, 1, Q1) && Cong(c2 * Q1, 1, Q2)
    requires Cong(x1, y, Q1) && Cong(x2, y, Q2)
    ensures FromRns(x1, x2, c1, c2) == y % Q
  {
    var e1, e2 := Centered(x1 * c1, Q1), Centered(x2 * c2, Q2);
    CrtCombine(e1, e2, x1, x2, c1, c2);
    var s := e1 * Q2 + e2 * Q1;
    CongTrans(s, x1, y, Q1);
    CongTrans(s, x2, y, Q2);
    CrtJoin(s, y);
    CongMod(s, y, Q);
  }

  // ------------------------------------------------------------------- decomposition

  /** The lane's combined lift after the two masked subtractions; comparisons are strict, as in the code. */
  function ShortestLift(e1: int, e2: int): int {
    var sum := MulLow32(e1, Q2) + MulLow32(e2, Q1);
    var once := if sum > Q then sum - Q else sum;
    if once > Q / 2 then once - Q else once
  }

  function HighPart(current: int): int {
    (current + HALF_BASE) / BASE
  }

  function LowPart(current: int): int {
    current - HighPart(current) * BASE
  }

  /** The multiple of the prime that makes a digit non-negative before it is reduced. */
  function DigitOffset(p: int): int
    requires p > 0
  {
    (Q / BASE / p + 2) * p
  }

  /** The two digits of a lane whose components are x1 and x2. */
  function Digits(x1: int, x2: int, c1: int, c2: int): (int, int) {
    var lift := ShortestLift(RING1.SmallestPositiveLift(RING1.MulOf(x1, c1)),
                             RING2.SmallestPositiveLift(RING2.MulOf(x2, c2)));
    (LowPart(lift), LowPart(HighPart(lift)))
  }

  function StoredDigit(z: Ring, low: int): int
    requires z.Modulus() > 0
  {
    z.ReduceAfterMul(Add64(low, DigitOffset(z.Modulus())))
  }

  lemma ShortestLiftRange(e1: int, e2: int)
    requires 0 <= e1 < Q1 && 0 <= e2 < Q2
    ensures Cong(ShortestLift(e1, e2), e1 * Q2 + e2 * Q1, Q)
    ensures -(Q - 1) / 2 <= ShortestLift(e1, e2) <= (Q - 1) / 2
  {
    hide Cong, MulLow32;
    LowProduct(e1, Q2);
    LowProduct(e2, Q1);
    var s := e1 * Q2 + e2 * Q1;
    var v := ShortestLift(e1, e2);
    CongRefl(s, Q);
    if v == s - Q {
      CongIntro(v, s, -1, Q);
    } else if v == s - 2 * Q {
      CongIntro(v, s, -2, Q);
    }
  }

  /** The balanced digits of a number below 2^50 recombine to it, and nothing is carried out. */
  lemma DigitsRecombine(lift: int)
    requires -(Q - 1) / 2 <= lift <= (Q - 1) / 2
    ensures var low0, low1 := LowPart(lift), LowPart(HighPart(lift));
            && -0x200_0000 <= low0 < 0x200_0000 && -0x200_0000 <= low1 < 0x200_0000
            && low0 + 0x400_0000 * low1 == lift
            && HighPart(HighPart(lift)) == 0
  {
  }

  /** The digit plus the offset is a valid reduction input, and reducing it keeps the digit's residue. */
  lemma StoredDigitLaw(low: int)
    requires -0x200_0000 <= low < 0x200_0000
    ensures RING1.Modulus() > 0 && RING2.Modulus() > 0
    ensures RING1.Repr(StoredDigit(RING1, low)) && Cong(StoredDigit(RING1, low), low, Q1)
    ensures RING2.Repr(StoredDigit(RING2, low)) && Cong(StoredDigit(RING2, low), low, Q2)
  {
    RingModuli();
    OffsetBound(RING1);
    OffsetBound(RING2);
    DigitReduction(RING1, low);
    DigitReduction(RING2, low);
  }

  lemma OffsetBound(z: Ring)
    requires z == RING1 || z == RING2
    ensures z.CheckInvariant() && z.Modulus() > 0
    ensures DigitOffset(z.Modulus()) == 2 * z.Modulus()
    ensures HALF_BASE <= 2 * z.Modulus() && 2 * z.Modulus() + HALF_BASE <= z.InputBound() < TWO_64
  {
    RingModuli();
    Pow2Values();
    assert Pow2(25) == 2 * Pow2(24);
    assert Pow2(26) == 2 * Pow2(25);
    if z == RING1 {
      assert DigitOffset(Q1) == 2 * Q1;
    } else {
      assert DigitOffset(Q2) == 2 * Q2;
    }
  }

  lemma DigitReduction(z: Ring, low: int)
    requires z.CheckInvariant() && z.Modulus() > 0
    requires -HALF_BASE <= low < HALF_BASE
    requires DigitOffset(z.Modulus()) == 2 * z.Modulus()
    requires HALF_BASE <= 2 * z.Modulus() && 2 * z.Modulus() + HALF_BASE <= z.InputBound() < TWO_64
    ensures z.Repr(StoredDigit(z, low)) && Cong(StoredDigit(z, low), low, z.Modulus())
  {
    hide Cong, Ring.CheckInvariant, Ring.InputBound, Ring.ReduceAfterMul, DigitOffset, Pow2;
    var p := z.Modulus();
    NoWrap(low, 2 * p);
    ReduceAfterMulLaw(z, low + 2 * p);
    CongIntro(low + 2 * p, low, 2, p);
    CongTrans(StoredDigit(z, low), low + 2 * p, low, p);
  }

  /** The decomposition is exact: if the lanes represent y in both components, the two digits recombine to
   *  the centred representative of y modulo Q. */
  lemma GadgetExact(x1: int, x2: int, c1: int, c2: int, y: int)
    requires RING1.Repr(x1) && RING2.Repr(x2) && RING1.Repr(c1) && RING2.Repr(c2)
    requires Cong(c1 * Q2, 1, Q1) && Cong(c2 * Q1, 1, Q2)
    requires Cong(x1, y, Q1) && Cong(x2, y, Q2)
    ensures var (low0, low1) := Digits(x1, x2, c1, c2);
            && -0x200_0000 <= low0 < 0x200_0000 && -0x200_0000 <= low1 < 0x200_0000
            && low0 + 0x400_0000 * low1 == Centered(y, Q)
            && low0 == LowPart(Centered(y, Q)) && low1 == LowPart(HighPart(Centered(y, Q)))
  {
    hide Ring.MulOf, Ring.SmallestPositiveLift, ShortestLift, LowPart, HighPart, Cong, Pow2, Ring.CheckInvariant;
    RingModuli();
    var e1 := RING1.SmallestPositiveLift(RING1.MulOf(x1, c1));
    var e2 := RING2.SmallestPositiveLift(RING2.MulOf(x2, c2));
    MulLaw(RING1, x1, c1);
    MulLaw(RING2, x2, c2);
    SmallestPositiveLiftLaw(RING1, RING1.MulOf(x1, c1));
    SmallestPositiveLiftLaw(RING2, RING2.MulOf(x2, c2));
    CongSelf(RING1.MulOf(x1, c1), Q1);
    CongSelf(RING2.MulOf(x2, c2), Q2);
    CongTrans(e1, RING1.MulOf(x1, c1), x1 * c1, Q1);
    CongTrans(e2, RING2.MulOf(x2, c2), x2 * c2, Q2);
    ShortestLiftRange(e1, e2);
    var lift := ShortestLift(e1, e2);
    CombinedLift(e1, e2, x1, x2, c1, c2, y, lift);
    CenteredUnique(lift, y, Q);
    DigitsRecombine(lift);
  }

  lemma CombinedLift(e1: int, e2: int, x1: int, x2: int, c1: int, c2: int, y: int, lift: int)
    requires Cong(c1 * Q2, 1, Q1) && Cong(c2 * Q1, 1, Q2)
    requires Cong(e1, x1 * c1, Q1) && Cong(e2, x2 * c2, Q2)
    requires Cong(x1, y, Q1) && Cong(x2, y, Q2)
    requires Cong(lift, e1 * Q2 + e2 * Q1, Q)
    ensures Cong(lift, y, Q)
  {
    hide Cong;
    var s := e1 * Q2 + e2 * Q1;
    CrtCombine(e1, e2, x1, x2, c1, c2);
    CongTrans(s, x1, y, Q1);
    CongTrans(s, x2, y, Q2);
    CrtJoin(s, y);
    CongTrans(lift, s, y, Q);
  }
}
