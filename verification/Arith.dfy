/** Integer facts about quotients, residues and powers that the other modules share. */
module Arith {

  const TWO_32 := 0x1_0000_0000
  const TWO_64 := 0x1_0000_0000_0000_0000

  function Abs(x: int): nat {
    if x < 0 then -x else x
  }

  function Min(x: int, y: int): int {
    if x < y then x else y
  }

  function Times(k: int, m: int): int {
    k * m
  }

  /** x and y differ by a multiple of m. */
  ghost predicate Cong(x: int, y: int, m: int) {
    exists k :: x == y + Times(k, m)
  }

  lemma MulSign(k: int, m: int)
    requires m > 0
    ensures k >= 1 ==> k * m >= m
    ensures k <= -1 ==> k * m <= -m
  {
    assert k >= 1 ==> (k - 1) * m >= 0;
    assert k <= -1 ==> (-1 - k) * m >= 0;
  }

  lemma MulMonotone(x: int, y: int, c: int)
    requires x <= y && c >= 0
    ensures x * c <= y * c
  {
  }

  lemma MulBand(k: int, m: int)
    requires m > 0
    requires -m < k * m < m
    ensures k == 0
  {
    MulSign(k, m);
  }

  lemma MulShuffle(a: int, b: int, c: int, d: int)
    ensures (a * b) * (c * d) == (a * c) * (b * d)
  {
    assert (a * b) * (c * d) == a * (b * (c * d));
    assert b * (c * d) == c * (b * d);
    assert a * (c * (b * d)) == (a * c) * (b * d);
  }

  lemma SwapProduct(x: int, y: int)
    ensures x * y == y * x
  {
  }

  lemma TripleProduct(x: int, y: int, z: int)
    ensures x * y * z == x * (y * z)
  {
  }

  lemma SwapInner(c: int, d: int, i: int)
    ensures d * (c * i) == (c * d) * i
  {
  }

  lemma DivModUnique(x: int, m: int, q: int, r: int)
    requires m > 0
    requires 0 <= r < m
    requires x == q * m + r
    ensures x / m == q
    ensures x % m == r
  {
    assert x == (x / m) * m + x % m;
    var k := q - x / m;
    assert k * m == q * m - (x / m) * m;
    MulBand(k, m);
  }

  /** Quotient and remainder, without the operators. */
  lemma Split(x: int, m: int) returns (r: int, q: int)
    requires m > 0
    ensures 0 <= r < m
    ensures x == r + q * m
    ensures r == x % m && q == x / m
  {
    r, q := x % m, x / m;
  }

  lemma ModShift(x: int, k: int, m: int)
    requires m > 0
    ensures (x + k * m) % m == x % m
    ensures (x + k * m) / m == x / m + k
  {
    assert x + k * m == (x / m + k) * m + x % m by {
      assert (x / m + k) * m == (x / m) * m + k * m;
    }
    DivModUnique(x + k * m, m, x / m + k, x % m);
  }

  lemma CongIntro(x: int, y: int, k: int, m: int)
    requires x == y + k * m
    ensures Cong(x, y, m)
  {
    assert Times(k, m) == k * m;
  }

  lemma CongWitness(x: int, y: int, m: int) returns (k: int)
    requires Cong(x, y, m)
    ensures x == y + k * m
  {
    k :| x == y + Times(k, m);
  }

  lemma CongRefl(x: int, m: int)
    ensures Cong(x, x, m)
  {
    CongIntro(x, x, 0, m);
  }

  lemma CongSym(x: int, y: int, m: int)
    requires Cong(x, y, m)
    ensures Cong(y, x, m)
  {
    var k := CongWitness(x, y, m);
    assert (-k) * m == -(k * m);
    CongIntro(y, x, -k, m);
  }

  lemma CongTrans(x: int, y: int, z: int, m: int)
    requires Cong(x, y, m) && Cong(y, z, m)
    ensures Cong(x, z, m)
  {
    var k := CongWitness(x, y, m);
    var l := CongWitness(y, z, m);
    assert (k + l) * m == k * m + l * m;
    CongIntro(x, z, k + l, m);
  }

  /** Congruence is equality of residues. */
  lemma CongMod(x: int, y: int, m: int)
    requires m > 0
    ensures Cong(x, y, m) <==> x % m == y % m
  {
    if Cong(x, y, m) {
      var k := CongWitness(x, y, m);
      ModShift(y, k, m);
    }
    if x % m == y % m {
      var k := x / m - y / m;
      assert k * m == (x / m) * m - (y / m) * m;
      CongIntro(x, y, k, m);
    }
  }

  lemma CongSelf(x: int, m: int)
    requires m > 0
    ensures Cong(x % m, x, m)
    ensures 0 <= x % m < m
  {
    var r, q := Split(x, m);
    assert (-q) * m == -(q * m);
    CongIntro(x % m, x, -q, m);
  }

  lemma CongAdd(a: int, b: int, c: int, d: int, m: int)
    requires Cong(a, b, m) && Cong(c, d, m)
    ensures Cong(a + c, b + d, m)
    ensures Cong(a - c, b - d, m)
  {
    var k := CongWitness(a, b, m);
    var l := CongWitness(c, d, m);
    assert (k + l) * m == k * m + l * m;
    assert (k - l) * m == k * m - l * m;
    CongIntro(a + c, b + d, k + l, m);
    CongIntro(a - c, b - d, k - l, m);
  }

  lemma CongMul(a: int, b: int, c: int, d: int, m: int)
    requires Cong(a, b, m) && Cong(c, d, m)
    ensures Cong(a * c, b * d, m)
  {
    var k := CongWitness(a, b, m);
    var l := CongWitness(c, d, m);
    var e := b * l + k * (d + l * m);
    assert a * c == b * d + e * m by {
      assert (b + k * m) * c == b * c + (k * m) * c;
      assert b * (d + l * m) == b * d + (b * l) * m;
      assert (k * m) * c == (k * c) * m;
      assert (b * l + k * c) * m == (b * l) * m + (k * c) * m;
    }
    CongIntro(a * c, b * d, e, m);
  }

  lemma CongScale(c: int, x: int, y: int, m: int)
    requires Cong(x, y, m)
    ensures Cong(c * x, c * y, m)
    ensures Cong(x * c, y * c, m)
  {
    CongRefl(c, m);
    CongMul(c, c, x, y, m);
    CongMul(x, y, c, c, m);
  }

  /** Two numbers with the same residue that lie closer together than the modulus are equal. */
  lemma CongClose(x: int, y: int, m: int)
    requires m > 0
    requires Cong(x, y, m)
    requires -m < x - y < m
    ensures x == y
  {
    var k := CongWitness(x, y, m);
    MulBand(k, m);
  }

  /** A congruence modulo a product holds modulo each factor. */
  lemma CongFactor(x: int, y: int, m: int, n: int)
    requires Cong(x, y, m * n)
    ensures Cong(x, y, m)
  {
    var k := CongWitness(x, y, m * n);
    assert k * (m * n) == (k * n) * m;
    CongIntro(x, y, k * n, m);
  }

  /** The representative of x modulo an odd m that is closest to zero. */
  function Centered(x: int, m: int): (r: int)
    requires m > 0 && m % 2 == 1
    ensures Cong(r, x, m)
    ensures -(m - 1) / 2 <= r <= (m - 1) / 2
  {
    CongSelf(x, m);
    if 2 * (x % m) < m then x % m
    else
      CongIntro(x % m - m, x % m, -1, m);
      CongTrans(x % m - m, x % m, x, m);
      x % m - m
  }

  lemma CenteredUnique(r: int, x: int, m: int)
    requires m > 0 && m % 2 == 1
    requires Cong(r, x, m)
    requires -(m - 1) / 2 <= r <= (m - 1) / 2
    ensures Centered(x, m) == r
  {
    CongSym(r, x, m);
    CongTrans(Centered(x, m), x, r, m);
    CongClose(Centered(x, m), r, m);
  }

  function Pow(b: int, e: nat): int {
    if e == 0 then 1 else b * Pow(b, e - 1)
  }

  lemma {:induction false} PowAdd(b: int, e: nat, f: nat)
    ensures Pow(b, e + f) == Pow(b, e) * Pow(b, f)
  {
    if e > 0 {
      PowAdd(b, e - 1, f);
      assert b * (Pow(b, e - 1) * Pow(b, f)) == (b * Pow(b, e - 1)) * Pow(b, f);
    }
  }

  lemma {:induction false} PowMul(b: int, e: nat, f: nat)
    ensures e * f >= 0
    ensures Pow(Pow(b, e), f) == Pow(b, e * f)
    decreases f
  {
    if f == 0 {
      assert e * f == 0;
    } else {
      PowMul(b, e, f - 1);
      assert e * f == e + e * (f - 1);
      PowAdd(b, e, e * (f - 1));
    }
  }

  lemma {:induction false} PowDistribute(a: int, b: int, e: nat)
    ensures Pow(a * b, e) == Pow(a, e) * Pow(b, e)
  {
    if e > 0 {
      PowDistribute(a, b, e - 1);
      MulShuffle(a, b, Pow(a, e - 1), Pow(b, e - 1));
    }
  }

  lemma {:induction false} PowCong(a: int, b: int, e: nat, m: int)
    requires Cong(a, b, m)
    ensures Cong(Pow(a, e), Pow(b, e), m)
  {
    if e == 0 {
      CongRefl(1, m);
    } else {
      PowCong(a, b, e - 1, m);
      CongMul(a, b, Pow(a, e - 1), Pow(b, e - 1), m);
    }
  }

  lemma {:induction false} PowOne(e: nat)
    ensures Pow(1, e) == 1
  {
    if e > 0 {
      PowOne(e - 1);
    }
  }

  /** The powers of two, as a type of its own so that solvers need not unfold Pow. */
  function Pow2(e: nat): (r: nat)
    ensures r >= 1
    ensures e > 0 ==> r % 2 == 0
  {
    if e == 0 then 1 else 2 * Pow2(e - 1)
  }

  lemma {:induction false} Pow2Add(e: nat, f: nat)
    ensures Pow2(e + f) == Pow2(e) * Pow2(f)
  {
    if e > 0 {
      Pow2Add(e - 1, f);
      DoubleLeft(Pow2(e - 1), Pow2(f));
    }
  }

  lemma DoubleLeft(x: int, y: int)
    ensures 2 * (x * y) == (2 * x) * y
  {
  }

  lemma Pow2Sum(e: nat, f: nat, x: int, y: int)
    requires Pow2(e) == x && Pow2(f) == y
    ensures Pow2(e + f) == x * y
  {
    Pow2Add(e, f);
  }

  lemma Pow2Small()
    ensures Pow2(1) == 2 && Pow2(2) == 4 && Pow2(4) == 16
  {
  }

  lemma {:induction false} Pow2Mono(e: nat, f: nat)
    requires e <= f
    ensures Pow2(e) <= Pow2(f)
    decreases f
  {
    if e < f {
      Pow2Mono(e, f - 1);
    }
  }

  lemma Pow2Values()
    ensures Pow2(4) == 16 && Pow2(8) == 256 && Pow2(10) == 1024
    ensures Pow2(12) == 4096 && Pow2(16) == 0x1_0000
    ensures Pow2(17) == 0x2_0000 && Pow2(24) == 0x100_0000
    ensures Pow2(30) == 0x4000_0000 && Pow2(31) == 0x8000_0000 && Pow2(32) == 0x1_0000_0000
    ensures Pow2(34) == 0x4_0000_0000 && Pow2(50) == 0x4_0000_0000_0000
    ensures Pow2(64) == 0x1_0000_0000_0000_0000
  {
    hide Pow2;
    Pow2Small();
    Pow2Sum(4, 4, 16, 16);
    Pow2Sum(8, 2, 256, 4);
    Pow2Sum(8, 4, 256, 16);
    Pow2Sum(8, 8, 256, 256);
    Pow2Sum(16, 1, 0x1_0000, 2);
    Pow2Sum(16, 8, 0x1_0000, 256);
    Pow2Sum(16, 16, 0x1_0000, 0x1_0000);
    Pow2Sum(10, 10, 1024, 1024);
    Pow2Sum(20, 10, 0x10_0000, 1024);
    Pow2Sum(30, 1, 0x4000_0000, 2);
    Pow2Sum(32, 2, 0x1_0000_0000, 4);
    Pow2Sum(34, 16, 0x4_0000_0000, 0x1_0000);
    Pow2Sum(32, 32, 0x1_0000_0000, 0x1_0000_0000);
  }
}
