/** The subgroup of (Z/2N)* a shard is laid out over, and the sums over it.
 *  Everything rests on 5 having order exactly L modulo 4L when L is a power of two.
 */
module GaloisGroup {
  import opened Arith
  import opened Sums
  import opened Negacyclic

  // ------------------------------------------------------------------ powers of five

  lemma {:induction false} FiveResidue(k: nat)
    ensures Pow(5, k) % 8 == if k % 2 == 0 then 1 else 5
  {
    if k > 0 {
      FiveResidue(k - 1);
    }
  }

  lemma HalveCong(x: int, m: int)
    requires m > 0
    ensures Cong(2 * x, 0, 2 * m) <==> Cong(x, 0, m)
  {
    if Cong(2 * x, 0, 2 * m) {
      var k := CongWitness(2 * x, 0, 2 * m);
      assert k * (2 * m) == 2 * (k * m);
      CongIntro(x, 0, k, m);
    }
    if Cong(x, 0, m) {
      var k := CongWitness(x, 0, m);
      assert k * (2 * m) == 2 * (k * m);
      CongIntro(2 * x, 0, k, 2 * m);
    }
  }

  /** An odd factor can be cancelled modulo a power of two. */
  lemma {:induction false} OddCancel(k: nat, y: int, z: int)
    requires y % 2 == 1
    requires Cong(y * z, 0, Pow2(k))
    ensures Cong(z, 0, Pow2(k))
  {
    if k == 0 {
      CongOne(z, 0);
    } else {
      var h := EvenPart(k, y, z);
      OddCancel(k - 1, y, h);
      HalveCong(h, Pow2(k - 1));
    }
  }

  lemma EvenPart(k: nat, y: int, z: int) returns (h: int)
    requires k > 0 && y % 2 == 1
    requires Cong(y * z, 0, Pow2(k))
    ensures z == 2 * h
    ensures Cong(y * h, 0, Pow2(k - 1))
  {
    var c := CongWitness(y * z, 0, Pow2(k));
    DoubleRight(c, Pow2(k - 1));
    SignOdd(y, z);
    h := z / 2;
    DoubleRight(y, h);
    HalveCong(y * h, Pow2(k - 1));
  }

  lemma CongOne(x: int, y: int)
    ensures Cong(x, y, 1)
  {
    CongIntro(x, y, x - y, 1);
  }

  /** 5^d = 1 modulo 4 * 2^m exactly when 2^m divides d. */
  lemma {:induction false} OrderOfFive(m: nat, d: nat)
    ensures Cong(Pow(5, d), 1, 4 * Pow2(m)) <==> Cong(d, 0, Pow2(m))
  {
    hide Cong, Pow;
    if m == 0 {
      CongOne(d, 0);
      FiveOddResidue(d);
      var r, q := Split(Pow(5, d), 4);
      CongIntro(Pow(5, d), 1, q, 4);
    } else {
      var half := Pow2(m - 1);
      var r, h := Split(d, 2);
      if r == 1 {
        FiveResidue(d);
        OddOrder(d, half);
      } else {
        EvenOrder(m, h);
        OrderOfFive(m - 1, h);
        HalveCong(h, half);
      }
    }
  }

  lemma OddOrder(d: nat, half: nat)
    requires d % 2 == 1 && half > 0
    requires Pow(5, d) % 8 == 5
    ensures !Cong(Pow(5, d), 1, 4 * (2 * half))
    ensures !Cong(d, 0, 2 * half)
  {
    if Cong(Pow(5, d), 1, 4 * (2 * half)) {
      CongFactor(Pow(5, d), 1, 8, half);
      CongMod(Pow(5, d), 1, 8);
    }
    if Cong(d, 0, 2 * half) {
      CongFactor(d, 0, 2, half);
      CongMod(d, 0, 2);
    }
  }

  /** 5^(2h) - 1 = (5^h - 1)(5^h + 1), and 5^h + 1 is twice an odd number. */
  lemma EvenOrder(m: nat, h: nat)
    requires m > 0
    ensures Cong(Pow(5, 2 * h), 1, 4 * Pow2(m)) <==> Cong(Pow(5, h), 1, 4 * Pow2(m - 1))
  {
    hide *;
    PowAdd(5, h, h);
    FiveOddResidue(h);
    SquareOrder(m, Pow(5, h));
    assert 2 * h == h + h;
  }

  lemma SquareOrder(m: nat, x: int)
    requires m > 0
    requires x % 4 == 1
    ensures Cong(x * x, 1, 4 * Pow2(m)) <==> Cong(x, 1, 4 * Pow2(m - 1))
  {
    var y := HalfOfOdd(x);
    var q := 4 * Pow2(m - 1);
    assert 4 * Pow2(m) == 2 * q && q == Pow2(m + 1);
    hide Cong, Pow2;
    DifferenceOfSquares(x, y);
    CongZero(x * x, 1, 2 * q);
    HalveCong(y * (x - 1), q);
    CongZero(x, 1, q);
    if Cong(x - 1, 0, q) {
      CongScale(y, x - 1, 0, q);
    }
    if Cong(y * (x - 1), 0, q) {
      OddCancel(m + 1, y, x - 1);
    }
  }

  lemma HalfOfOdd(x: int) returns (y: int)
    requires x % 4 == 1
    ensures x + 1 == 2 * y && y % 2 == 1
  {
    y := (x + 1) / 2;
  }

  lemma DifferenceOfSquares(x: int, y: int)
    requires x + 1 == 2 * y
    ensures x * x - 1 == 2 * (y * (x - 1))
  {
    assert x * x - 1 == (x + 1) * (x - 1);
    assert (2 * y) * (x - 1) == 2 * (y * (x - 1));
  }

  lemma CongZero(x: int, y: int, m: int)
    ensures Cong(x, y, m) <==> Cong(x - y, 0, m)
  {
    CongRefl(y, m);
    if Cong(x, y, m) {
      CongAdd(x, y, y, y, m);
    }
    if Cong(x - y, 0, m) {
      CongAdd(x - y, 0, y, y, m);
    }
  }

  /** The powers 5^0, ..., 5^(L-1) are pairwise distinct modulo 4L. */
  lemma FiveInjective(m: nat, i: nat, j: nat)
    requires i < Pow2(m) && j < Pow2(m)
    requires Cong(Pow(5, i), Pow(5, j), 4 * Pow2(m))
    ensures i == j
  {
    hide Cong;
    CongSym(Pow(5, i), Pow(5, j), 4 * Pow2(m));
    if i < j {
      FiveDistinct(m, i, j);
    } else if j < i {
      FiveDistinct(m, j, i);
    }
  }

  lemma FiveDistinct(m: nat, i: nat, j: nat)
    requires i < j < Pow2(m)
    ensures !Cong(Pow(5, i), Pow(5, j), 4 * Pow2(m))
  {
    hide Cong, Pow, Pow2;
    var q := 4 * Pow2(m);
    var d := j - i;
    if Cong(Pow(5, i), Pow(5, j), q) {
      CongSym(Pow(5, i), Pow(5, j), q);
      CongZero(Pow(5, j), Pow(5, i), q);
      PowAdd(5, i, d);
      FiveOddResidue(i);
      FactorCancel(m, Pow(5, i), Pow(5, d), Pow(5, j));
      OrderOfFive(m, d);
      CongClose(d, 0, Pow2(m));
    }
  }

  lemma FiveOddResidue(k: nat)
    ensures Pow(5, k) % 2 == 1 && Pow(5, k) % 4 == 1
  {
    hide Pow;
    FiveResidue(k);
    OneOrFive(Pow(5, k));
  }

  lemma OneOrFive(x: int)
    requires x % 8 == 1 || x % 8 == 5
    ensures x % 2 == 1 && x % 4 == 1
  {
    var r, q := Split(x, 8);
    var h := if r == 1 then 0 else 1;
    DivModUnique(x, 4, 2 * q + h, 1);
    DivModUnique(x, 2, 4 * q + 2 * h, 1);
  }

  lemma FactorCancel(m: nat, x: int, y: int, z: int)
    requires x % 2 == 1 && z == x * y
    requires Cong(z - x, 0, 4 * Pow2(m))
    ensures Cong(y, 1, 4 * Pow2(m))
  {
    hide Cong;
    PullFactor(x, y);
    assert 4 * Pow2(m) == Pow2(m + 2);
    OddCancel(m + 2, x, y - 1);
    CongZero(y, 1, 4 * Pow2(m));
  }

  lemma PullFactor(x: int, y: int)
    ensures x * y - x == x * (y - 1)
  {
  }

  // ------------------------------------------------------------------- index groups

  /** Which part of the Galois group a shard uses; the full group needs the conjugated half as well. */
  datatype IndexGroup = IndexGroup(N: nat, l: nat) {
    predicate RequiresConj() {
      l == N
    }

    function LoopLen(): nat {
      if l < N then l else N / 2
    }

    function QueryBasePower(): nat
      requires LoopLen() > 0
    {
      N / 2 / LoopLen()
    }

    /** N is a power of two and the group was made by FullGroup or SubgroupOfSize. */
    ghost predicate Valid(n: nat) {
      && n > 0
      && N == Pow2(n)
      && (l == N || (l > 0 && N % l == 0 && 2 * l <= N))
    }

    /** The loop length is 2^m, and 2N = 4 * 2^m * QueryBasePower(). */
    ghost predicate Layout(m: nat) {
      && LoopLen() == Pow2(m)
      && N == 2 * Pow2(m) * QueryBasePower()
      && QueryBasePower() > 0
      && (RequiresConj() ==> QueryBasePower() == 1)
      && l == if RequiresConj() then 2 * Pow2(m) else Pow2(m)
    }

    /** The i-th element of the group: the powers of 5, then (for the full group) their negatives. */
    function Element(i: nat): int {
      if i < LoopLen() then Pow(5, i) else -Pow(5, i - LoopLen())
    }
  }

  function FullGroup(N: nat): IndexGroup {
    IndexGroup(N, N)
  }

  lemma {:induction false} DivisorOfPow2(n: nat, d: nat) returns (m: nat)
    requires d > 0 && Pow2(n) % d == 0
    ensures d == Pow2(m)
    decreases n, d
  {
    if d == 1 {
      m := 0;
    } else if n == 0 {
      DivModUnique(1, d, 0, 1);
      assert false;
    } else {
      var x := Pow2(n - 1);
      var r, q := Split(2 * x, d);
      if d % 2 == 0 {
        HalfDivides(x, d / 2, q);
        m := DivisorOfPow2(n - 1, d / 2);
        m := m + 1;
      } else {
        OddDivides(x, d, q);
        m := DivisorOfPow2(n - 1, d);
      }
    }
  }

  lemma HalfDivides(x: int, h: int, q: int)
    requires h > 0 && 2 * x == q * (2 * h)
    ensures x % h == 0
  {
    DoubleRight(q, h);
    DivModUnique(x, h, q, 0);
  }

  lemma OddDivides(x: int, d: int, q: int)
    requires d > 0 && d % 2 == 1 && 2 * x == q * d
    ensures x % d == 0
  {
    if q % 2 == 1 {
      SignOdd(q, d);
    }
    var h := q / 2;
    DoubleRight(d, h);
    DivModUnique(x, d, h, 0);
  }

  /** Every valid group has the layout the rest of the model works with. */
  lemma ValidLayout(g: IndexGroup, n: nat) returns (m: nat)
    requires g.Valid(n)
    ensures g.Layout(m)
  {
    if g.l == g.N {
      m := n - 1;
      DivModUnique(g.N / 2, Pow2(m), 1, 0);
    } else {
      m := DivisorOfPow2(n, g.l);
      var q := g.N / g.l;
      assert g.N == q * g.l;
      SubgroupLayout(g, m, n, q);
    }
  }

  lemma SubgroupLayout(g: IndexGroup, m: nat, n: nat, q: int)
    requires g.l == Pow2(m) && g.N == Pow2(n) && 2 * g.l <= g.N
    requires g.N == q * g.l
    ensures g.Layout(m)
  {
    var h := q / 2;
    if q % 2 == 1 {
      OddQuotient(q, m, n);
    }
    EvenQuotient(g.N, q, h, g.l);
    assert g.QueryBasePower() == h;
    assert 2 * Pow2(m) * h == 2 * (h * g.l);
  }

  lemma EvenQuotient(N: nat, q: int, h: int, l: nat)
    requires l > 0 && q == 2 * h && N == q * l > 0
    ensures N / 2 / l == h
    ensures N == 2 * (h * l)
    ensures h > 0
  {
    assert (2 * h) * l == 2 * (h * l);
    DivModUnique(N / 2, l, h, 0);
    MulSign(h, l);
  }

  /** Two powers of two with an odd quotient are equal. */
  lemma {:induction false} OddQuotient(q: int, m: nat, n: nat)
    requires q % 2 == 1
    requires Pow2(n) == q * Pow2(m)
    ensures n == m
  {
    if m > 0 {
      DoubleRight(q, Pow2(m - 1));
      if n > 0 {
        OddQuotient(q, m - 1, n - 1);
      }
    } else {
      assert q * 1 == q;
    }
  }

  lemma ElementOdd(g: IndexGroup, i: nat)
    ensures g.Element(i) % 2 == 1
    ensures i < g.LoopLen() ==> g.Element(i) % 4 == 1
  {
    hide Pow, IndexGroup.LoopLen;
    FiveOddResidue(i);
    if i >= g.LoopLen() {
      FiveOddResidue(i - g.LoopLen());
      NegResidue(Pow(5, i - g.LoopLen()));
    }
  }

  /** The listed elements are pairwise distinct modulo 4 * LoopLen(). */
  lemma ElementInjective(g: IndexGroup, m: nat, i: nat, j: nat)
    requires g.Layout(m)
    requires i < g.l && j < g.l
    requires Cong(g.Element(i), g.Element(j), 4 * Pow2(m))
    ensures i == j
  {
    SameHalf(Pow2(m), m, i, j, g.Element(i), g.Element(j));
  }

  lemma SameHalf(L: nat, m: nat, i: nat, j: nat, x: int, y: int)
    requires L == Pow2(m)
    requires i < 2 * L && j < 2 * L
    requires x == if i < L then Pow(5, i) else -Pow(5, i - L)
    requires y == if j < L then Pow(5, j) else -Pow(5, j - L)
    requires Cong(x, y, 4 * L)
    ensures i == j
  {
    hide *;
    SignResidue(L, i, x);
    SignResidue(L, j, y);
    CongFactor(x, y, 4, L);
    CongMod(x, y, 4);
    if i < L {
      FiveInjective(m, i, j);
    } else {
      CongNeg(x, y, 4 * L);
      FiveInjective(m, i - L, j - L);
    }
  }

  lemma SignResidue(L: nat, i: nat, x: int)
    requires x == if i < L then Pow(5, i) else -Pow(5, i - L)
    ensures x % 4 == if i < L then 1 else 3
  {
    hide *;
    if i < L {
      FiveOddResidue(i);
    } else {
      FiveOddResidue(i - L);
      NegResidue(Pow(5, i - L));
    }
  }

  lemma NegResidue(x: int)
    requires x % 4 == 1
    ensures (-x) % 4 == 3 && (-x) % 2 == 1
  {
    var r, q := Split(x, 4);
    DivModUnique(-x, 4, -q - 1, 3);
    DivModUnique(-x, 2, -2 * q - 1, 1);
  }

  // --------------------------------------------------------- positions after a coset FFT

  /** Distance of neighbouring evaluation points of a length-l transform. */
  function Step(g: IndexGroup): nat
    requires g.l > 0
  {
    2 * g.N / g.l
  }

  lemma StepValue(g: IndexGroup, m: nat)
    requires g.Layout(m)
    ensures g.l > 0
    ensures Step(g) == if g.RequiresConj() then 2 else 4 * g.QueryBasePower()
    ensures Step(g) > 0
    ensures Step(g) * g.l == 2 * g.N
  {
    if g.RequiresConj() {
      DivModUnique(2 * g.N, g.l, 2, 0);
    } else {
      assert 2 * (2 * Pow2(m) * g.QueryBasePower()) == (4 * g.QueryBasePower()) * Pow2(m);
      DivModUnique(2 * g.N, g.l, 4 * g.QueryBasePower(), 0);
    }
  }

  /** The residue of z * Element(i) modulo 2N, from which the position of that power is computed. */
  function CosetLift(g: IndexGroup, z: int, i: nat): int
    requires g.N > 0
  {
    (z * g.Element(i)) % (2 * g.N)
  }

  /** Where a length-l transform over the coset of z leaves the value at exponent z * Element(i). */
  function CosetIndex(g: IndexGroup, z: int, i: nat): int
    requires g.l > 0 && g.N > 0 && Step(g) > 0
  {
    (CosetLift(g, z, i) - z % Step(g)) / Step(g)
  }

  function CosetMap(g: IndexGroup, z: int): int -> int
    requires g.l > 0 && g.N > 0 && Step(g) > 0
  {
    i => if i < 0 then i else CosetIndex(g, z, i)
  }

  lemma CosetResidue(g: IndexGroup, m: nat, o: int, i: nat)
    requires g.Layout(m)
    requires o % 2 == 1
    requires i < g.l
    ensures g.l > 0 && Step(g) > 0
    ensures Cong(o * g.QueryBasePower() * g.Element(i), o * g.QueryBasePower(), Step(g))
  {
    StepValue(g, m);
    ElementOdd(g, i);
    ResidueOfMultiple(g.RequiresConj(), o, g.QueryBasePower(), g.Element(i), Step(g));
  }

  lemma ResidueOfMultiple(conj: bool, o: int, bp: nat, e: int, w: nat)
    requires bp > 0
    requires w == if conj then 2 else 4 * bp
    requires if conj then e % 2 == 1 else e % 4 == 1
    ensures Cong(o * bp * e, o * bp, w)
  {
    if conj {
      OddMultiple(o * bp, (e - 1) / 2, e);
    } else {
      FourMultiple(o, bp, (e - 1) / 4, e);
    }
  }

  lemma OddMultiple(z: int, h: int, e: int)
    requires e == 2 * h + 1
    ensures Cong(z * e, z, 2)
  {
    assert z * e == z + (z * h) * 2 by {
      assert z * (2 * h + 1) == (z * h) * 2 + z;
    }
    CongIntro(z * e, z, z * h, 2);
  }

  lemma FourMultiple(o: int, bp: nat, h: int, e: int)
    requires bp > 0
    requires e == 4 * h + 1
    ensures Cong((o * bp) * e, o * bp, 4 * bp)
  {
    var z := o * bp;
    assert z * (4 * h + 1) == (z * h) * 4 + z;
    assert (o * bp) * h == (o * h) * bp;
    assert ((o * h) * bp) * 4 == (o * h) * (4 * bp);
    CongIntro(z * e, z, o * h, 4 * bp);
  }

  /** The division in CosetIndex is exact and the position lies below l. */
  lemma CosetIndexExact(g: IndexGroup, m: nat, o: int, i: nat)
    requires g.Layout(m)
    requires o % 2 == 1
    requires i < g.l
    ensures g.l > 0 && g.N > 0 && Step(g) > 0
    ensures var z := o * g.QueryBasePower();
            && 0 <= CosetIndex(g, z, i) < g.l
            && CosetLift(g, z, i) == CosetIndex(g, z, i) * Step(g) + z % Step(g)
  {
    StepValue(g, m);
    CosetResidue(g, m, o, i);
    var z := o * g.QueryBasePower();
    LiftDivides(z * g.Element(i), z, Step(g), g.l, 2 * g.N);
  }

  /** Residues modulo w * l split into a quotient below l and the residue modulo w. */
  lemma LiftDivides(x: int, z: int, w: nat, l: nat, m: nat)
    requires w > 0 && l > 0 && m == w * l > 0
    requires Cong(x, z, w)
    ensures var q := (x % m - z % w) / w; 0 <= q < l && x % m == q * w + z % w
  {
    hide Cong;
    var lift := x % m;
    CongSelf(x, m);
    CongFactor(lift, x, w, l);
    CongTrans(lift, x, z, w);
    CongMod(lift, z, w);
    var r, q := Split(lift, w);
    DivModUnique(lift - r, w, q, 0);
    QuotientRange(lift, r, q, w, l);
  }

  lemma QuotientRange(x: int, r: int, q: int, w: nat, l: nat)
    requires w > 0 && 0 <= r < w && x == r + q * w && 0 <= x < w * l
    ensures 0 <= q < l
  {
    MulSign(q, w);
    MulSign(q - l + 1, w);
    assert (q - l + 1) * w == q * w - l * w + w;
    assert l * w == w * l;
  }

  /** The positions form a permutation of 0..l. */
  lemma CosetIndexPermutes(g: IndexGroup, m: nat, o: int)
    requires g.Layout(m)
    requires o % 2 == 1
    ensures g.l > 0 && g.N > 0 && Step(g) > 0
    ensures Permutes(CosetMap(g, o * g.QueryBasePower()), g.l)
  {
    StepValue(g, m);
    var z := o * g.QueryBasePower();
    forall i: int | 0 <= i < g.l
      ensures 0 <= CosetIndex(g, z, i) < g.l
    {
      CosetIndexExact(g, m, o, i);
    }
    forall i: int, j: int | 0 <= i < g.l && 0 <= j < g.l && CosetIndex(g, z, i) == CosetIndex(g, z, j)
      ensures i == j
    {
      CosetIndexExact(g, m, o, i);
      CosetIndexExact(g, m, o, j);
      CosetCancel(g, m, o, i, j);
      ElementInjective(g, m, i, j);
    }
  }

  lemma CosetCancel(g: IndexGroup, m: nat, o: int, i: nat, j: nat)
    requires g.Layout(m)
    requires o % 2 == 1
    requires CosetLift(g, o * g.QueryBasePower(), i) == CosetLift(g, o * g.QueryBasePower(), j)
    ensures Cong(g.Element(i), g.Element(j), 4 * Pow2(m))
  {
    hide Cong, Pow2, IndexGroup.Element, IndexGroup.QueryBasePower, IndexGroup.LoopLen, Pow;
    var bp := g.QueryBasePower();
    DoubleTwice(Pow2(m), bp);
    MulSign(bp, 4 * Pow2(m));
    ScaledCancel(o, bp, m, g.Element(i), g.Element(j), 2 * g.N);
  }

  lemma DoubleTwice(x: int, y: int)
    ensures 2 * (2 * x * y) == (4 * x) * y
    ensures (4 * x) * y == y * (4 * x)
  {
  }

  lemma ScaledCancel(o: int, bp: nat, m: nat, x: int, y: int, n: nat)
    requires o % 2 == 1 && bp > 0
    requires n == (4 * Pow2(m)) * bp > 0
    requires ((o * bp) * x) % n == ((o * bp) * y) % n
    ensures Cong(x, y, 4 * Pow2(m))
  {
    hide Cong;
    var q := 4 * Pow2(m);
    CongMod((o * bp) * x, (o * bp) * y, n);
    ScaleDown(o, bp, q, x, y);
    assert q == Pow2(m + 2);
    OddCancel(m + 2, o, x - y);
    CongZero(x, y, q);
  }

  lemma ScaleDown(o: int, bp: nat, q: nat, x: int, y: int)
    requires bp > 0
    requires Cong((o * bp) * x, (o * bp) * y, q * bp)
    ensures Cong(o * (x - y), 0, q)
  {
    var k := CongWitness((o * bp) * x, (o * bp) * y, q * bp);
    assert bp * (o * (x - y)) == bp * (k * q) by {
      assert (o * bp) * x - (o * bp) * y == (o * bp) * (x - y);
      assert (o * bp) * (x - y) == bp * (o * (x - y));
      assert k * (q * bp) == bp * (k * q);
    }
    CancelFactor(bp, o * (x - y), k * q);
    CongIntro(o * (x - y), 0, k, q);
  }

  lemma CancelFactor(b: int, x: int, y: int)
    requires b > 0
    requires b * x == b * y
    ensures x == y
  {
    assert (x - y) * b == 0;
    MulBand(x - y, b);
  }

  /** The elements of the full group are all odd residues modulo 2N, each of them once. */
  lemma EveryOddResidue(g: IndexGroup, m: nat, x: int) returns (i: nat)
    requires g.Layout(m) && g.RequiresConj()
    requires 0 <= x < 2 * g.N && x % 2 == 1
    ensures i < g.l && g.Element(i) % (2 * g.N) == x
    ensures forall j: nat :: j < g.l && g.Element(j) % (2 * g.N) == x ==> j == i
  {
    hide Cong, Pow2, Pow, IndexGroup.Element, CosetIndex, Permutes;
    StepValue(g, m);
    CosetIndexPermutes(g, m, 1);
    var p := CosetMap(g, 1 * g.QueryBasePower());
    var k := PermutesOnto(p, g.l, (x - 1) / 2);
    i := k;
    CosetIndexExact(g, m, 1, i);
    CosetLiftIs(g, 1, i);
    forall j: nat | j < g.l && g.Element(j) % (2 * g.N) == x
      ensures j == i
    {
      CosetLiftIs(g, 1, j);
      CosetCancel(g, m, 1, i, j);
      ElementInjective(g, m, i, j);
    }
  }

  // ---------------------------------------------------------------------- orthogonality

  /** Half a turn: some multiple of d is an odd multiple of half of 2^m. */
  lemma {:induction false} HalfTurn(m: nat, d: int) returns (delta: nat, o: int)
    requires d != 0 && Abs(d) < Pow2(m)
    ensures 2 * (d * delta) == o * Pow2(m)
    ensures o % 2 == 1
  {
    if d % 2 == 1 {
      delta, o := Pow2(m - 1), d;
      DoubleRight(d, Pow2(m - 1));
    } else {
      var h := d / 2;
      delta, o := HalfTurn(m - 1, h);
      DoubleRight(delta, h);
      DoubleRight(o, Pow2(m - 1));
    }
  }

  lemma DoubleRight(x: int, y: int)
    ensures x * (2 * y) == 2 * (x * y)
    ensures (2 * y) * x == 2 * (y * x)
  {
  }

  /** A step function through the ring that turns over the full circle in n = 2^m steps sums to zero:
   *  rotating by half a turn both keeps the sum and negates it. No division is needed. */
  lemma Orthogonality(a: Elem, c: int, e: int, m: nat, d: int, f: int -> int)
    requires |a| > 0
    requires d != 0 && Abs(d) < Pow2(m)
    requires e * Pow2(m) == (2 * |a|) * d
    requires forall s :: f(s) == At(a, c + e * s)
    ensures Sum(Pow2(m), f) == 0
  {
    hide Cong, At, Pow2;
    var n := Pow2(m);
    var delta, o := HalfTurn(m, d);
    StepPeriodic(a, c, e, n, d, f);
    var h := s => f(s + delta);
    SumRotate(n, f, delta, h);
    HalfTurnStep(a, e, n, d, delta, o);
    forall s | 0 <= s < n
      ensures h(s) == -1 * f(s)
    {
      HalfTurnNegates(a, c, e, s, delta, o);
    }
    SumScale(n, -1, f, h);
  }

  lemma HalfTurnNegates(a: Elem, c: int, e: int, s: int, delta: int, o: int)
    requires |a| > 0 && o % 2 == 1
    requires e * delta == o * |a|
    ensures At(a, c + e * (s + delta)) == -At(a, c + e * s)
  {
    assert e * (s + delta) == e * s + e * delta;
    AtTurns(a, c + e * s, o);
  }

  lemma HalfTurnStep(a: Elem, e: int, n: int, d: int, delta: nat, o: int)
    requires |a| > 0 && n > 0
    requires 2 * (d * delta) == o * n
    requires e * n == (2 * |a|) * d
    ensures e * delta == o * |a|
  {
    assert n * (e * delta) == n * (o * |a|) by {
      assert n * (e * delta) == (e * n) * delta;
      assert ((2 * |a|) * d) * delta == |a| * (2 * (d * delta));
      assert |a| * (o * n) == n * (o * |a|);
    }
    CancelFactor(n, e * delta, o * |a|);
  }

  lemma StepPeriodic(a: Elem, c: int, e: int, n: int, d: int, f: int -> int)
    requires |a| > 0 && n > 0
    requires e * n == (2 * |a|) * d
    requires forall s :: f(s) == At(a, c + e * s)
    ensures Periodic(f, n)
  {
    forall s, t | Cong(s, t, n)
      ensures f(s) == f(t)
    {
      var k := CongWitness(s, t, n);
      assert c + e * s == c + e * t + (k * d) * (2 * |a|) by {
        assert e * (t + k * n) == e * t + k * (e * n);
        assert k * ((2 * |a|) * d) == (k * d) * (2 * |a|);
      }
      CongIntro(c + e * s, c + e * t, k * d, 2 * |a|);
      AtCong(a, c + e * s, c + e * t);
    }
  }

  /** Sum over the whole group: multiplying a by X^(bp * j * d) and adding over j leaves l * a for d = 0
   *  and nothing for any other |d| < l. */
  lemma GroupOrthogonality(g: IndexGroup, m: nat, a: Elem, c: int, d: int, f: int -> int)
    requires g.Layout(m)
    requires |a| == g.N
    requires Abs(d) < g.l
    requires forall i: nat | i < g.l :: f(i) == At(a, c - g.QueryBasePower() * g.Element(i) * d)
    ensures Sum(g.l, f) == if d == 0 then g.l * At(a, c) else 0
  {
    if d == 0 {
      SumConst(g.l, At(a, c), f);
    } else {
      StepValue(g, m);
      GroupCancel(g, m, a, c, d, f, g.QueryBasePower());
    }
  }

  lemma GroupCancel(g: IndexGroup, m: nat, a: Elem, c: int, d: int, f: int -> int, bp: nat)
    requires g.Layout(m) && g.l > 0 && Step(g) > 0 && Step(g) * g.l == 2 * g.N
    requires bp == g.QueryBasePower()
    requires |a| == g.N > 0
    requires d != 0 && Abs(d) < g.l
    requires forall i: nat | i < g.l :: f(i) == At(a, c - bp * g.Element(i) * d)
    ensures Sum(g.l, f) == 0
  {
    hide Cong, Pow2, At, IndexGroup.Layout, IndexGroup.Element, IndexGroup.QueryBasePower, CosetIndex, CosetMap, Step, Pow, StepMap;
    var k := if g.RequiresConj() then m + 1 else m;
    GroupSize(g, m);
    var w, z := Step(g), 1 * bp;
    CosetIndexPermutes(g, m, 1);
    var p := CosetMap(g, z);
    var e := -(w * d);
    var c' := c - (z % w) * d;
    var u := StepMap(a, c', e);
    forall i: int | 0 <= i < g.l
      ensures f(i) == u(p(i))
    {
      CosetTerm(g, m, a, c, d, bp, i);
    }
    SumReindex(g.l, u, p, f);
    FullCircle(w, d, g.l, g.N);
    StepMapIs(a, c', e);
    Orthogonality(a, c', e, k, -d, u);
  }

  lemma GroupSize(g: IndexGroup, m: nat)
    requires g.Layout(m)
    ensures g.l == Pow2(if g.RequiresConj() then m + 1 else m)
  {
    hide IndexGroup.QueryBasePower;
  }

  /** Every e-th position of a from c on. */
  function StepMap(a: Elem, c: int, e: int): int -> int
    requires |a| > 0
  {
    s => At(a, c + e * s)
  }

  lemma StepMapIs(a: Elem, c: int, e: int)
    requires |a| > 0
    ensures forall s :: StepMap(a, c, e)(s) == At(a, c + e * s)
  {
    hide At;
  }

  lemma CosetTerm(g: IndexGroup, m: nat, a: Elem, c: int, d: int, bp: nat, i: nat)
    requires g.Layout(m) && g.l > 0 && Step(g) > 0 && |a| == g.N > 0
    requires bp == g.QueryBasePower() && i < g.l
    ensures At(a, c - bp * g.Element(i) * d)
            == StepMap(a, c - ((1 * bp) % Step(g)) * d, -(Step(g) * d))(CosetMap(g, 1 * bp)(i))
  {
    hide At, Pow2, IndexGroup.Layout, IndexGroup.Element, IndexGroup.QueryBasePower, CosetIndex, Step, Pow, Cong;
    CosetIndexExact(g, m, 1, i);
    CosetLiftIs(g, bp, i);
    LiftedPosition(a, c, d, bp * g.Element(i), CosetLift(g, 1 * bp, i), CosetIndex(g, 1 * bp, i), Step(g), (1 * bp) % Step(g));
  }

  lemma CosetLiftIs(g: IndexGroup, bp: nat, i: nat)
    requires g.N > 0
    ensures CosetLift(g, 1 * bp, i) == (bp * g.Element(i)) % (2 * g.N)
  {
    hide Pow, IndexGroup.Element;
    assert 1 * bp == bp;
  }

  lemma LiftedPosition(a: Elem, c: int, d: int, x: int, lift: int, p: int, w: int, r: int)
    requires |a| > 0
    requires lift == x % (2 * |a|)
    requires lift == p * w + r
    ensures At(a, c - x * d) == At(a, (c - r * d) + -(w * d) * p)
  {
    CongSelf(x, 2 * |a|);
    CongRefl(d, 2 * |a|);
    CongRefl(c, 2 * |a|);
    CongMul(lift, x, d, d, 2 * |a|);
    CongAdd(c, c, lift * d, x * d, 2 * |a|);
    AtCong(a, c - lift * d, c - x * d);
    LiftProduct(p, w, r, d);
  }

  lemma LiftProduct(p: int, w: int, r: int, d: int)
    ensures -((p * w + r) * d) == -(r * d) + -(w * d) * p
  {
    assert (p * w + r) * d == (p * w) * d + r * d;
    assert (p * w) * d == (w * d) * p;
    assert -(w * d) * p == -((w * d) * p);
  }

  lemma FullCircle(w: int, d: int, l: int, n: int)
    requires w * l == 2 * n
    ensures -(w * d) * l == (2 * n) * -d
  {
    assert (w * d) * l == (w * l) * d;
    assert -(w * d) * l == -((w * d) * l);
    assert (2 * n) * -d == -((2 * n) * d);
  }

  // ------------------------------------------------------------ slots of a length-N transform

  /** Slot i of a transform holds the value at exponent 2i + 1; multiplying exponents by u moves it here. */
  function SlotOf(N: nat, u: int, i: int): int
    requires N > 0
  {
    ((u * (2 * i + 1)) % (2 * N) - 1) / 2
  }

  function SlotMap(N: nat, u: int): int -> int
    requires N > 0
  {
    i => SlotOf(N, u, i)
  }

  /** The division by two is exact, and the slot lies below N. */
  lemma SlotExponent(N: nat, u: int, i: int)
    requires N > 0 && u % 2 == 1
    ensures 0 <= SlotOf(N, u, i) < N
    ensures 2 * SlotOf(N, u, i) + 1 == (u * (2 * i + 1)) % (2 * N)
    ensures Cong(2 * SlotOf(N, u, i) + 1, u * (2 * i + 1), 2 * N)
  {
    hide Cong;
    var x := u * (2 * i + 1);
    OddFactor(i);
    SignOdd(u, 2 * i + 1);
    CongSelf(x, 2 * N);
    OddRemainder(x, N);
    HalfOfSlot(x % (2 * N), N);
  }

  lemma OddFactor(i: int)
    ensures (2 * i + 1) % 2 == 1
  {
  }

  lemma OddRemainder(x: int, n: nat)
    requires n > 0 && x % 2 == 1
    ensures (x % (2 * n)) % 2 == 1 && 0 <= x % (2 * n) < 2 * n
  {
    hide Cong;
    CongSelf(x, 2 * n);
    CongFactor(x % (2 * n), x, 2, n);
    CongMod(x % (2 * n), x, 2);
  }

  lemma HalfOfSlot(r: int, n: nat)
    requires 0 <= r < 2 * n && r % 2 == 1
    ensures 0 <= (r - 1) / 2 < n && 2 * ((r - 1) / 2) + 1 == r
  {
  }

  lemma SlotMapPermutes(N: nat, u: int, v: int)
    requires N > 0
    requires Inverse(u, v, N)
    ensures Permutes(SlotMap(N, u), N)
  {
    InverseOdd(u, v, N);
    forall i | 0 <= i < N
      ensures 0 <= SlotMap(N, u)(i) < N
    {
      SlotExponent(N, u, i);
    }
    forall i, j | 0 <= i < N && 0 <= j < N && SlotMap(N, u)(i) == SlotMap(N, u)(j)
      ensures i == j
    {
      SlotExponent(N, u, i);
      SlotExponent(N, u, j);
      CongMod(u * (2 * i + 1), u * (2 * j + 1), 2 * N);
      UnitCancel(u, v, 2 * i + 1, 2 * j + 1, 2 * N);
      CongClose(2 * i + 1, 2 * j + 1, 2 * N);
    }
  }

  /** Moving by u and then by its inverse v ends where it started. */
  lemma SlotInverse(N: nat, u: int, v: int, i: int)
    requires 0 <= i < N
    requires Inverse(u, v, N)
    ensures SlotOf(N, u, SlotOf(N, v, i)) == i
  {
    InverseOdd(u, v, N);
    var j := SlotOf(N, v, i);
    SlotExponent(N, v, i);
    SlotExponent(N, u, j);
    CongScale(u, 2 * j + 1, v * (2 * i + 1), 2 * N);
    CongScale(2 * i + 1, u * v, 1, 2 * N);
    TripleProduct(u, v, 2 * i + 1);
    CongTrans(2 * SlotOf(N, u, j) + 1, u * (2 * j + 1), (u * v) * (2 * i + 1), 2 * N);
    CongTrans(2 * SlotOf(N, u, j) + 1, (u * v) * (2 * i + 1), 2 * i + 1, 2 * N);
    CongClose(2 * SlotOf(N, u, j) + 1, 2 * i + 1, 2 * N);
  }

  lemma InversePow(u: int, v: int, k: nat, N: nat)
    requires N > 0
    requires Inverse(u, v, N)
    ensures Inverse(Pow(u, k), Pow(v, k), N)
  {
    PowDistribute(u, v, k);
    PowCong(u * v, 1, k, 2 * N);
    PowOne(k);
  }

  lemma InverseSym(u: int, v: int, N: nat)
    requires N > 0
    requires Inverse(u, v, N)
    ensures Inverse(v, u, N)
  {
    assert u * v == v * u;
  }
}
