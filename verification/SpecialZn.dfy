/** Lazily reduced arithmetic modulo p = 2^K - alpha on one 64-bit lane.
 *  Representatives live in [0, 2p]; the vector instructions are given their per-lane integer meaning.
 */
module SpecialZn {
  import opened Arith

  // --------------------------------------------------------------- lane instructions

  function Add64(x: int, y: int): int {
    (x + y) % TWO_64
  }

  function Sub64(x: int, y: int): int {
    (x - y) % TWO_64
  }

  /** Product of the low halves of two lanes. */
  function MulLow32(x: int, y: int): int {
    (x % TWO_32) * (y % TWO_32)
  }

  /** The lane read as a signed number, as comparisons do. */
  function Signed64(x: int): int {
    if x % TWO_64 < TWO_64 / 2 then x % TWO_64 else x % TWO_64 - TWO_64
  }

  // ----------------------------------------------------------------------- parameters

  datatype Ring = Ring(K: nat, alpha: int) {
    function Modulus(): int {
      Pow2(K) - alpha
    }

    /** What the constructor asserts. */
    predicate CheckInvariant() {
      && alpha >= 0
      && 2 * Pow2(K) < TWO_32
      && 2 * alpha + 2 * alpha * alpha <= Pow2(K)
      && 2 * alpha < Modulus()
    }

    predicate Repr(x: int) {
      0 <= x <= 2 * Modulus()
    }

    /** The largest input of ReduceAfterMul: 2^(2K+1), and for alpha = 0 a little more. */
    function InputBound(): int {
      2 * Pow2(K) * Pow2(K) + if alpha == 0 then 2 * Pow2(K) else 0
    }

    // ---------------------------------------------------------------------- reductions

    function ReduceStep(data: int): int {
      Sub64(data, MulLow32(data / Pow2(K), Modulus()))
    }

    function ReduceAfterMul(data: int): int {
      ReduceStep(ReduceStep(data))
    }

    function ReduceFrom2p(data: int): int {
      if Signed64(data) > Signed64(Modulus()) then Sub64(data, Modulus()) else data
    }

    function ReduceFrom4p(data: int): int {
      if Signed64(data) > Signed64(2 * Modulus()) then Sub64(data, 2 * Modulus()) else data
    }

    function SmallestPositiveLift(x: int): int {
      var reduced := ReduceFrom2p(x);
      if reduced == Modulus() then Sub64(reduced, Modulus()) else reduced
    }

    // ------------------------------------------------------------------ ring operations

    function AddOf(x: int, y: int): int {
      ReduceFrom4p(Add64(x, y))
    }

    function SubOf(x: int, y: int): int {
      ReduceFrom4p(Sub64(Add64(x, 2 * Modulus()), y))
    }

    function NegateOf(x: int): int {
      Sub64(2 * Modulus(), x)
    }

    function MulOf(x: int, y: int): int {
      ReduceAfterMul(MulLow32(ReduceFrom2p(x), y))
    }

    function FmaOf(x: int, y: int, z: int): int {
      ReduceAfterMul(Add64(MulLow32(ReduceFrom2p(x), y), z))
    }

    /** The product by a completely reduced twiddle factor inside a butterfly. */
    function TwiddleOf(w: int, y: int): int {
      ReduceAfterMul(MulLow32(w, y))
    }
  }

  // -------------------------------------------------------------------------- bounds

  lemma PowerBound(z: Ring)
    requires z.CheckInvariant()
    ensures Pow2(z.K) <= 0x4000_0000
    ensures 0 < z.Modulus() <= Pow2(z.K)
    ensures 0 <= z.InputBound() < TWO_64 / 2
  {
    Pow2Values();
    if z.K >= 31 {
      Pow2Mono(31, z.K);
    } else {
      Pow2Mono(z.K, 30);
    }
    SquareBound(Pow2(z.K), 0x4000_0000);
  }

  lemma SquareBound(s: int, b: int)
    requires 0 <= s <= b
    ensures 0 <= 2 * s * s <= 2 * (b * b)
  {
    assert s * s <= b * s;
    assert b * s <= b * b;
    assert 2 * s * s == 2 * (s * s);
  }

  /** One reduction step replaces q * 2^K + r by q * alpha + r. */
  lemma ReduceStepValue(z: Ring, x: int, q: int, r: int)
    requires z.CheckInvariant()
    requires 0 <= r < Pow2(z.K) && 0 <= q < TWO_32 && x == q * Pow2(z.K) + r < TWO_64
    ensures z.ReduceStep(x) == q * z.alpha + r
    ensures Cong(z.ReduceStep(x), x, z.Modulus())
  {
    PowerBound(z);
    AlphaNonNegative(z);
    hide Cong, Pow2, Ring.CheckInvariant, Ring.InputBound, Sub64, MulLow32;
    DivModUnique(x, Pow2(z.K), q, r);
    StepProduct(q, Pow2(z.K), z.alpha);
    SubtractMultiple(x, q, r, Pow2(z.K), z.alpha);
    CongIntro(q * z.alpha + r, x, -q, z.Modulus());
  }

  lemma SubtractMultiple(x: int, q: int, r: int, s: int, a: int)
    requires 0 <= a <= s <= 0x4000_0000 && 0 <= r && 0 <= q < TWO_32
    requires x == q * s + r < TWO_64
    ensures Sub64(x, MulLow32(q, s - a)) == q * a + r
  {
    StepProduct(q, s, a);
    LowProduct(q, s - a);
    hide MulLow32;
    assert 0 <= x - q * (s - a) < TWO_64;
  }

  lemma LowProduct(x: int, y: int)
    requires 0 <= x < TWO_32 && 0 <= y < TWO_32
    ensures MulLow32(x, y) == x * y
  {
    DivModUnique(x, TWO_32, 0, x);
    DivModUnique(y, TWO_32, 0, y);
  }

  lemma AlphaNonNegative(z: Ring)
    requires z.CheckInvariant()
    ensures z.alpha >= 0
  {
  }

  lemma StepProduct(q: int, s: int, a: int)
    requires 0 <= q && 0 <= a <= s
    ensures 0 <= q * (s - a) == q * s - q * a
    ensures q * a >= 0
    ensures (-q) * (s - a) == -(q * s - q * a)
  {
  }

  /** Two steps bring every input up to the bound below 2p; the quotients fit the 32-bit multiplier. */
  lemma ReduceAfterMulLaw(z: Ring, x: int)
    requires z.CheckInvariant()
    requires 0 <= x <= z.InputBound()
    ensures z.Repr(z.ReduceAfterMul(x))
    ensures Cong(z.ReduceAfterMul(x), x, z.Modulus())
  {
    hide Cong, Pow2, Ring.ReduceStep;
    PowerBound(z);
    var s, a := Pow2(z.K), z.alpha;
    var r, q := Split(x, s);
    FirstQuotient(s, a, x, q, r);
    var y := q * a + r;
    var r', q' := Split(y, s);
    SecondQuotient(s, a, q, r, q', r');
    hide Ring.CheckInvariant, Ring.InputBound;
    ReduceStepValue(z, x, q, r);
    ReduceStepValue(z, y, q', r');
    CongTrans(z.ReduceAfterMul(x), y, x, z.Modulus());
  }

  /** An input that two steps leave above p, for every alpha but 0. */
  function AboveP(z: Ring): int {
    if z.alpha == 1 then Pow2(z.K) * Pow2(z.K) + Pow2(z.K) - 1 else Pow2(z.K) - 1
  }

  lemma AbovePStays(z: Ring)
    requires z.CheckInvariant() && z.alpha > 0
    ensures 0 <= AboveP(z) <= z.InputBound()
    ensures z.Modulus() < z.ReduceAfterMul(AboveP(z)) <= Pow2(z.K)
  {
    hide Ring.CheckInvariant, Ring.InputBound, Ring.ReduceStep, Ring.ReduceAfterMul, Ring.Modulus, Cong, Pow2, AboveP, MulLow32, Sub64;
    PowerBound(z);
    var s := Pow2(z.K);
    AboveFits(z);
    SquareFits(s);
    if z.alpha == 1 {
      ReduceStepValue(z, AboveP(z), s, s - 1);
      ReduceStepValue(z, 2 * s - 1, 1, s - 1);
      TwoSteps(z, AboveP(z), 2 * s - 1);
    } else {
      ReduceStepValue(z, s - 1, 0, s - 1);
      TwoSteps(z, s - 1, s - 1);
    }
  }

  lemma AboveFits(z: Ring)
    requires z.CheckInvariant() && z.alpha > 0
    ensures z.Modulus() == Pow2(z.K) - z.alpha && 0 < Pow2(z.K) <= 0x4000_0000
    ensures z.InputBound() == 2 * (Pow2(z.K) * Pow2(z.K))
    ensures AboveP(z) == if z.alpha == 1 then Pow2(z.K) * Pow2(z.K) + Pow2(z.K) - 1 else Pow2(z.K) - 1
  {
    PowerBound(z);
    hide Pow2, Ring.CheckInvariant;
    TwoSquares(Pow2(z.K));
  }

  lemma TwoSquares(s: int)
    ensures 2 * s * s == 2 * (s * s)
  {
  }

  lemma SquareFits(s: int)
    requires 0 < s <= 0x4000_0000
    ensures s <= s * s && 0 <= s * s + s - 1 < TWO_64
  {
    MulMonotone(1, s, s);
    MulMonotone(s, 0x4000_0000, s);
  }

  lemma TwoSteps(z: Ring, x: int, y: int)
    requires z.ReduceStep(x) == y
    ensures z.ReduceAfterMul(x) == z.ReduceStep(y)
  {
  }

  lemma WithoutAlpha(z: Ring, x: int)
    requires z.CheckInvariant() && z.alpha == 0 && 0 <= x <= z.InputBound()
    ensures z.ReduceAfterMul(x) < z.Modulus()
  {
    PowerBound(z);
    var s := Pow2(z.K);
    var r, q := Split(x, s);
    FirstQuotient(s, 0, x, q, r);
    hide Ring.CheckInvariant, Ring.InputBound, Ring.ReduceStep, Cong, Pow2;
    ReduceStepValue(z, x, q, r);
    ReduceStepValue(z, r, 0, r);
  }

  /** The results are at most p for all inputs if and only if alpha is 0. */
  lemma ReduceAfterMulBoundIff(z: Ring)
    requires z.CheckInvariant()
    ensures (forall x :: 0 <= x <= z.InputBound() ==> z.ReduceAfterMul(x) <= z.Modulus()) <==> z.alpha == 0
  {
    hide Ring.InputBound, Ring.ReduceAfterMul;
    AlphaNonNegative(z);
    if z.alpha == 0 {
      forall x | 0 <= x <= z.InputBound()
        ensures z.ReduceAfterMul(x) <= z.Modulus()
      {
        WithoutAlpha(z, x);
      }
    } else {
      AbovePStays(z);
    }
  }

  lemma FirstQuotient(s: int, a: int, x: int, q: int, r: int)
    requires 0 < s <= 0x4000_0000 && a >= 0
    requires 0 <= r < s && x == r + q * s
    requires 0 <= x <= 2 * s * s + if a == 0 then 2 * s else 0
    ensures 0 <= q <= 2 * s + if a == 0 then 2 else 0
  {
    var b := 2 * s + if a == 0 then 2 else 0;
    assert b * s == 2 * s * s + if a == 0 then 2 * s else 0;
    QuotientBound(q, s, b, x, r);
  }

  lemma SecondQuotient(s: int, a: int, q: int, r: int, q': int, r': int)
    requires 0 < s <= 0x4000_0000 && 0 <= a && 2 * a + 2 * a * a <= s
    requires 0 <= r < s && 0 <= q <= 2 * s + if a == 0 then 2 else 0
    requires 0 <= r' < s && q * a + r == r' + q' * s
    ensures 0 <= q * a + r < TWO_64
    ensures 0 <= q' <= 2 * a
    ensures 0 <= q' * a + r' <= 2 * (s - a)
  {
    var a2 := a * a;
    AlphaProduct(q, s, a);
    assert 2 * a * a == 2 * a2;
    var m := 2 * a * s;
    assert m <= 2 * s * s by {
      MulMonotone(2 * a, 2 * s, s);
    }
    SquareBound(s, 0x4000_0000);
    QuotientBound(q', s, 2 * a, q * a + r, r');
    MulMonotone(q', 2 * a, a);
    MulMonotone(0, q', a);
  }

  lemma AlphaProduct(q: int, s: int, a: int)
    requires 0 <= q <= 2 * s + if a == 0 then 2 else 0
    requires a >= 0
    ensures 0 <= q * a <= 2 * a * s
  {
    if a > 0 {
      MulMonotone(q, 2 * s, a);
    }
  }

  /** x < (b + 1) * s bounds the quotient of x by s. */
  lemma QuotientBound(q: int, s: int, b: int, x: int, r: int)
    requires s > 0 && 0 <= r < s && x == r + q * s
    requires 0 <= x < b * s + s
    ensures 0 <= q <= b
  {
    MulSign(q, s);
    MulSign(q - b, s);
    assert (q - b) * s == q * s - b * s;
  }

  lemma SubExact(x: int, y: int)
    requires 0 <= x - y < TWO_64
    ensures Sub64(x, y) == x - y
  {
  }

  lemma SignedExact(x: int)
    requires 0 <= x < TWO_64 / 2
    ensures Signed64(x) == x
  {
  }

  lemma ModulusRange(z: Ring)
    requires z.CheckInvariant()
    ensures 0 < z.Modulus() <= 0x4000_0000
  {
    PowerBound(z);
  }

  lemma ReduceFrom2pLaw(z: Ring, x: int)
    requires z.CheckInvariant() && z.Repr(x)
    ensures 0 <= z.ReduceFrom2p(x) <= z.Modulus()
    ensures Cong(z.ReduceFrom2p(x), x, z.Modulus())
  {
    hide Cong, Pow2, Ring.CheckInvariant, Ring.Modulus, Sub64, Signed64;
    ModulusRange(z);
    var p := z.Modulus();
    SignedExact(x);
    SignedExact(p);
    CongRefl(x, p);
    if x > p {
      SubExact(x, p);
      CongIntro(x - p, x, -1, p);
    }
  }

  lemma ReduceFrom4pLaw(z: Ring, x: int)
    requires z.CheckInvariant() && 0 <= x <= 4 * z.Modulus()
    ensures z.Repr(z.ReduceFrom4p(x))
    ensures Cong(z.ReduceFrom4p(x), x, z.Modulus())
  {
    hide Cong, Pow2, Ring.CheckInvariant, Ring.Modulus, Sub64, Signed64;
    ModulusRange(z);
    var p := z.Modulus();
    SignedExact(x);
    SignedExact(2 * p);
    CongRefl(x, p);
    if x > 2 * p {
      SubExact(x, 2 * p);
      CongIntro(x - 2 * p, x, -2, p);
    }
  }

  /** The lift is the residue itself, also for the representatives p and 2p of zero. */
  lemma SmallestPositiveLiftLaw(z: Ring, x: int)
    requires z.CheckInvariant() && z.Repr(x)
    ensures z.SmallestPositiveLift(x) == x % z.Modulus()
  {
    hide Cong, Pow2, Ring.CheckInvariant, Ring.InputBound;
    PowerBound(z);
    ReduceFrom2pLaw(z, x);
    var p := z.Modulus();
    var y := z.ReduceFrom2p(x);
    CongIntro(y - p, y, -1, p);
    CongTrans(y - p, y, x, p);
    var v := z.SmallestPositiveLift(x);
    CongMod(v, x, p);
    DivModUnique(v, p, 0, v);
  }

  lemma ProductBound(z: Ring, x: int, y: int, c: int)
    requires z.CheckInvariant()
    requires 0 <= x <= z.Modulus() && z.Repr(y) && z.Repr(c)
    ensures MulLow32(x, y) == x * y
    ensures 0 <= x * y <= 2 * Pow2(z.K) * Pow2(z.K)
    ensures 0 <= x * y + c <= z.InputBound()
  {
    PowerBound(z);
    AlphaNonNegative(z);
    hide Ring.CheckInvariant, Pow2, MulLow32;
    LowProduct(x, y);
    FmaBound(Pow2(z.K), z.alpha, x, y);
  }

  lemma BothMonotone(x: int, b: int, y: int, c: int)
    requires 0 <= x <= b && 0 <= y <= c
    ensures 0 <= x * y <= b * c
  {
    MulMonotone(0, x, y);
    MulMonotone(x, b, y);
    MulMonotone(y, c, b);
  }

  lemma FmaBound(s: int, a: int, x: int, y: int)
    requires 0 <= a < s
    requires 0 <= x <= s - a && 0 <= y <= 2 * (s - a)
    ensures 0 <= x * y <= 2 * s * s
    ensures x * y + 2 * (s - a) <= 2 * s * s + if a == 0 then 2 * s else 0
  {
    var p := s - a;
    BothMonotone(x, p, y, 2 * p);
    BothMonotone(p, s, 2 * p, 2 * s);
    DoubleSquare(s);
    if a > 0 {
      BothMonotone(p + 1, s, 2 * p, 2 * s);
      OneMoreTimes(p, 2 * p);
    }
  }

  lemma DoubleSquare(s: int)
    ensures s * (2 * s) == 2 * s * s
  {
  }

  lemma OneMoreTimes(x: int, y: int)
    ensures (x + 1) * y == x * y + y
  {
  }

  // ------------------------------------------------------------------- operation laws

  lemma AddLaw(z: Ring, x: int, y: int)
    requires z.CheckInvariant() && z.Repr(x) && z.Repr(y)
    ensures z.Repr(z.AddOf(x, y)) && Cong(z.AddOf(x, y), x + y, z.Modulus())
  {
    hide Cong, Pow2, Ring.CheckInvariant, Ring.Modulus, Ring.ReduceFrom4p, Add64;
    ModulusRange(z);
    NoWrap(x, y);
    ReduceFrom4pLaw(z, x + y);
  }

  lemma SubLaw(z: Ring, x: int, y: int)
    requires z.CheckInvariant() && z.Repr(x) && z.Repr(y)
    ensures z.Repr(z.SubOf(x, y)) && Cong(z.SubOf(x, y), x - y, z.Modulus())
  {
    hide Cong, Pow2, Ring.CheckInvariant, Ring.Modulus, Ring.ReduceFrom4p, Add64, Sub64;
    ModulusRange(z);
    var p := z.Modulus();
    NoWrap(x, 2 * p);
    SubExact(x + 2 * p, y);
    ReduceFrom4pLaw(z, x + 2 * p - y);
    CongIntro(x + 2 * p - y, x - y, 2, p);
    CongTrans(z.SubOf(x, y), x + 2 * p - y, x - y, p);
  }

  lemma NegateLaw(z: Ring, x: int)
    requires z.CheckInvariant() && z.Repr(x)
    ensures z.Repr(z.NegateOf(x)) && Cong(z.NegateOf(x), -x, z.Modulus())
  {
    hide Cong, Pow2, Ring.CheckInvariant, Ring.InputBound;
    PowerBound(z);
    CongIntro(2 * z.Modulus() - x, -x, 2, z.Modulus());
  }

  lemma FmaLaw(z: Ring, x: int, y: int, c: int)
    requires z.CheckInvariant() && z.Repr(x) && z.Repr(y) && z.Repr(c)
    ensures z.Repr(z.FmaOf(x, y, c)) && Cong(z.FmaOf(x, y, c), x * y + c, z.Modulus())
  {
    hide Cong, Pow2, Ring.CheckInvariant, Ring.InputBound, Ring.ReduceAfterMul, Ring.ReduceFrom2p, Ring.Modulus, Add64, MulLow32;
    var p := z.Modulus();
    InputBoundRange(z);
    ReduceFrom2pLaw(z, x);
    var x' := z.ReduceFrom2p(x);
    ProductBound(z, x', y, c);
    NoWrap(x' * y, c);
    ReduceAfterMulLaw(z, x' * y + c);
    CongScale(y, x', x, p);
    CongRefl(c, p);
    CongAdd(x' * y, x * y, c, c, p);
    CongTrans(z.FmaOf(x, y, c), x' * y + c, x * y + c, p);
  }

  lemma InputBoundRange(z: Ring)
    requires z.CheckInvariant()
    ensures 0 <= z.InputBound() < TWO_64 && z.Repr(0)
  {
    PowerBound(z);
  }

  lemma MulLaw(z: Ring, x: int, y: int)
    requires z.CheckInvariant() && z.Repr(x) && z.Repr(y)
    ensures z.Repr(z.MulOf(x, y)) && Cong(z.MulOf(x, y), x * y, z.Modulus())
  {
    hide Cong, Pow2, Ring.CheckInvariant, Ring.InputBound, Ring.ReduceAfterMul, Ring.ReduceFrom2p, Ring.Modulus, Add64, MulLow32;
    InputBoundRange(z);
    ReduceFrom2pLaw(z, x);
    ProductBound(z, z.ReduceFrom2p(x), y, 0);
    NoWrap(z.ReduceFrom2p(x) * y, 0);
    FmaLaw(z, x, y, 0);
  }

  lemma TwiddleLaw(z: Ring, w: int, y: int)
    requires z.CheckInvariant() && 0 <= w <= z.Modulus() && z.Repr(y)
    ensures z.Repr(z.TwiddleOf(w, y)) && Cong(z.TwiddleOf(w, y), w * y, z.Modulus())
  {
    hide Cong, Pow2, Ring.CheckInvariant, Ring.InputBound, Ring.ReduceAfterMul;
    PowerBound(z);
    ProductBound(z, w, y, 0);
    ReduceAfterMulLaw(z, w * y);
  }

  // -------------------------------------------------------------- in-place operations

  class Lane {
    var value: int
    constructor (v: int)
      ensures value == v
    {
      value := v;
    }
  }

  method AddAssign(z: Ring, lhs: Lane, rhs: int)
    requires z.CheckInvariant() && z.Repr(lhs.value) && z.Repr(rhs)
    modifies lhs
    ensures z.Repr(lhs.value) && Cong(lhs.value, old(lhs.value) + rhs, z.Modulus())
  {
    AddLaw(z, lhs.value, rhs);
    var sum := Add64(lhs.value, rhs);
    lhs.value := z.ReduceFrom4p(sum);
  }

  method SubAssign(z: Ring, lhs: Lane, rhs: int)
    requires z.CheckInvariant() && z.Repr(lhs.value) && z.Repr(rhs)
    modifies lhs
    ensures z.Repr(lhs.value) && Cong(lhs.value, old(lhs.value) - rhs, z.Modulus())
  {
    SubLaw(z, lhs.value, rhs);
    var increased := Add64(lhs.value, 2 * z.Modulus());
    var diff := Sub64(increased, rhs);
    lhs.value := z.ReduceFrom4p(diff);
  }

  method NegateInplace(z: Ring, lhs: Lane)
    requires z.CheckInvariant() && z.Repr(lhs.value)
    modifies lhs
    ensures z.Repr(lhs.value) && Cong(lhs.value, -old(lhs.value), z.Modulus())
  {
    NegateLaw(z, lhs.value);
    lhs.value := Sub64(2 * z.Modulus(), lhs.value);
  }

  method MulAssign(z: Ring, lhs: Lane, rhs: int)
    requires z.CheckInvariant() && z.Repr(lhs.value) && z.Repr(rhs)
    modifies lhs
    ensures z.Repr(lhs.value) && Cong(lhs.value, old(lhs.value) * rhs, z.Modulus())
  {
    MulLaw(z, lhs.value, rhs);
    var prod := MulLow32(z.ReduceFrom2p(lhs.value), rhs);
    lhs.value := z.ReduceAfterMul(prod);
  }

  /** The Cooley-Tukey butterfly (x, y) -> (x + wy, x - wy). */
  method Butterfly(z: Ring, x: Lane, y: Lane, twiddle: int)
    requires z.CheckInvariant() && x != y
    requires z.Repr(x.value) && z.Repr(y.value) && 0 <= twiddle <= z.Modulus()
    modifies x, y
    ensures z.Repr(x.value) && z.Repr(y.value)
    ensures Cong(x.value, old(x.value) + twiddle * old(y.value), z.Modulus())
    ensures Cong(y.value, old(x.value) - twiddle * old(y.value), z.Modulus())
  {
    hide Cong, Pow2, Ring.CheckInvariant, Ring.ReduceAfterMul, Ring.ReduceFrom4p, Ring.Modulus, Add64, Sub64, MulLow32;
    var p := z.Modulus();
    ghost var x0, y0 := x.value, y.value;
    var twiddled := z.ReduceAfterMul(MulLow32(twiddle, y.value));
    TwiddleLaw(z, twiddle, y.value);
    SubLaw(z, x.value, twiddled);
    AddLaw(z, x.value, twiddled);
    y.value := z.ReduceFrom4p(Sub64(Add64(x.value, 2 * p), twiddled));
    x.value := z.ReduceFrom4p(Add64(x.value, twiddled));
    CongRefl(x0, p);
    CongAdd(x0, x0, twiddled, twiddle * y0, p);
    CongTrans(x.value, x0 + twiddled, x0 + twiddle * y0, p);
    CongScale(-1, twiddled, twiddle * y0, p);
    CongAdd(x0, x0, -1 * twiddled, -1 * (twiddle * y0), p);
    CongTrans(y.value, x0 - twiddled, x0 - twiddle * y0, p);
  }

  /** The inverse butterfly (x, y) -> (x + y, w(x - y)). */
  method InvButterfly(z: Ring, x: Lane, y: Lane, twiddle: int)
    requires z.CheckInvariant() && x != y
    requires z.Repr(x.value) && z.Repr(y.value) && 0 <= twiddle <= z.Modulus()
    modifies x, y
    ensures z.Repr(x.value) && z.Repr(y.value)
    ensures Cong(x.value, old(x.value) + old(y.value), z.Modulus())
    ensures Cong(y.value, twiddle * (old(x.value) - old(y.value)), z.Modulus())
  {
    hide Cong, Pow2, Ring.CheckInvariant, Ring.ReduceAfterMul, Ring.ReduceFrom4p, Ring.Modulus, Add64, Sub64, MulLow32;
    var p := z.Modulus();
    ghost var x0, y0 := x.value, y.value;
    AddLaw(z, x.value, y.value);
    SubLaw(z, x.value, y.value);
    var xNew := z.ReduceFrom4p(Add64(x.value, y.value));
    ghost var diff := z.SubOf(x0, y0);
    TwiddleLaw(z, twiddle, diff);
    y.value := z.ReduceAfterMul(MulLow32(twiddle, z.ReduceFrom4p(Sub64(Add64(x.value, 2 * p), y.value))));
    x.value := xNew;
    CongScale(twiddle, diff, x0 - y0, p);
    CongTrans(y.value, twiddle * diff, twiddle * (x0 - y0), p);
  }

  /** A butterfly followed by the inverse butterfly with the inverse twiddle doubles both values. */
  method ButterflyRoundTrip(z: Ring, x: Lane, y: Lane, twiddle: int, inverse: int)
    requires z.CheckInvariant() && x != y
    requires z.Repr(x.value) && z.Repr(y.value)
    requires 0 <= twiddle <= z.Modulus() && 0 <= inverse <= z.Modulus()
    requires Cong(inverse * twiddle, 1, z.Modulus())
    modifies x, y
    ensures z.Repr(x.value) && z.Repr(y.value)
    ensures Cong(x.value, 2 * old(x.value), z.Modulus())
    ensures Cong(y.value, 2 * old(y.value), z.Modulus())
  {
    hide Cong, Ring.CheckInvariant, Ring.Repr, Ring.Modulus;
    ghost var x0, y0 := x.value, y.value;
    Butterfly(z, x, y, twiddle);
    ghost var x1, y1 := x.value, y.value;
    InvButterfly(z, x, y, inverse);
    RoundTripValues(z.Modulus(), twiddle, inverse, x0, y0, x1, y1, x.value, y.value);
  }

  /** The values of the two butterflies, composed. */
  lemma RoundTripValues(p: int, w: int, v: int, x0: int, y0: int, x1: int, y1: int, x2: int, y2: int)
    requires Cong(v * w, 1, p)
    requires Cong(x1, x0 + w * y0, p) && Cong(y1, x0 - w * y0, p)
    requires Cong(x2, x1 + y1, p) && Cong(y2, v * (x1 - y1), p)
    ensures Cong(x2, 2 * x0, p) && Cong(y2, 2 * y0, p)
  {
    hide Cong;
    var wy := w * y0;
    CongAdd(x1, x0 + wy, y1, x0 - wy, p);
    CongTrans(x2, x1 + y1, 2 * x0, p);
    CongScale(v, x1 - y1, 2 * wy, p);
    CongScale(2 * y0, v * w, 1, p);
    DoubledProduct(v, w, y0);
    CongTrans(v * (x1 - y1), v * (2 * wy), 2 * y0, p);
    CongTrans(y2, v * (x1 - y1), 2 * y0, p);
  }

  lemma DoubledProduct(v: int, w: int, y: int)
    ensures v * (2 * (w * y)) == (v * w) * (2 * y)
  {
  }

  // ---------------------------------------------------------------- sums of any length

  function Total(els: seq<int>): int {
    if els == [] then 0 else Total(els[..|els| - 1]) + els[|els| - 1]
  }

  /** Adds without reducing for p summands at a time; the running value never leaves the range that
   *  ReduceAfterMul accepts. */
  method SumAll(z: Ring, els: seq<int>) returns (result: int)
    requires z.CheckInvariant()
    requires forall k :: 0 <= k < |els| ==> z.Repr(els[k])
    ensures z.Repr(result) && Cong(result, Total(els), z.Modulus())
  {
    hide Cong, Ring.CheckInvariant, Ring.InputBound, Pow2, Ring.ReduceAfterMul, Add64;
    var p := z.Modulus();
    PowerBound(z);
    result := 0;
    CongRefl(0, p);
    var i := 0;
    for k := 0 to |els|
      invariant 0 <= i <= p
      invariant 0 <= result <= Ceiling(p, i)
      invariant Cong(result, Total(els[..k]), p)
    {
      hide Ceiling;
      RunningBound(z, i);
      if i == p {
        ReduceAfterMulLaw(z, result);
        CongTrans(z.ReduceAfterMul(result), result, Total(els[..k]), p);
        i := 0;
        result := z.ReduceAfterMul(result);
        RunningBound(z, 0);
      }
      RunningBound(z, i + 1);
      CongRefl(els[k], p);
      CongAdd(result, Total(els[..k]), els[k], els[k], p);
      assert els[..k + 1][..k] == els[..k];
      NoWrap(result, els[k]);
      result := Add64(result, els[k]);
      i := i + 1;
    }
    RunningBound(z, i);
    assert els[..|els|] == els;
    ReduceAfterMulLaw(z, result);
    CongTrans(z.ReduceAfterMul(result), result, Total(els), p);
    result := z.ReduceAfterMul(result);
  }

  lemma NoWrap(x: int, y: int)
    requires 0 <= x + y < TWO_64
    ensures Add64(x, y) == x + y
  {
  }

  /** How large the running sum can be after i summands on top of a reduced value. */
  function Ceiling(p: int, i: int): int {
    (i + 1) * (2 * p)
  }

  lemma RunningBound(z: Ring, i: int)
    requires z.CheckInvariant()
    ensures 0 <= i <= z.Modulus() ==> 0 < Ceiling(z.Modulus(), i) <= z.InputBound() < TWO_64 / 2
    ensures Ceiling(z.Modulus(), i) == Ceiling(z.Modulus(), i - 1) + 2 * z.Modulus()
    ensures Ceiling(z.Modulus(), 0) == 2 * z.Modulus()
  {
    hide Ring.CheckInvariant, Pow2, Ring.InputBound, Ring.Modulus, MulLow32;
    var p := z.Modulus();
    PowerBound(z);
    ProductBound(z, p, 2 * p, 2 * p);
    CeilingStep(p, i);
    if 0 <= i <= p {
      MulMonotone(i, p, 2 * p);
      MulMonotone(0, i, 2 * p);
    }
  }

  lemma CeilingStep(p: int, i: int)
    ensures Ceiling(p, i) == i * (2 * p) + 2 * p
    ensures Ceiling(p, i - 1) == i * (2 * p) && Ceiling(p, 0) == 2 * p
  {
  }

  // -------------------------------------------------------------------- compressed form

  /** Storing a lane as a 32-bit signed integer. */
  function Compress(x: int): (y: int)
    ensures -0x8000_0000 <= y < 0x8000_0000 && (y - x) % 0x1_0000_0000 == 0
  {
    var low := x % TWO_32;
    if low < TWO_32 / 2 then low else low - TWO_32
  }

  /** Compression is lossless exactly for representatives that fit 31 bits. */
  lemma CompressLossless(z: Ring, x: int)
    requires z.CheckInvariant() && z.Repr(x)
    ensures Compress(x) == x <==> x < 0x8000_0000
    ensures z.alpha > 0 ==> Compress(x) == x
  {
    PowerBound(z);
  }

  /** With K = 30 and alpha = 0 the representative 2p of zero comes back negative. */
  lemma CompressLosesTwoP()
    ensures var z := Ring(30, 0);
            z.CheckInvariant() && z.Repr(2 * z.Modulus()) && !z.Repr(Compress(2 * z.Modulus()))
  {
    Pow2Values();
  }
}
