/** Number-theoretic transforms modulo one RNS prime.
 *  The library FFT is specified as evaluation at the powers of its root; the weighting loops and the
 *  final permutation around it are the program's own.
 */
module Ntt {
  import opened Arith
  import opened Sums
  import opened Negacyclic
  import opened GaloisGroup
  import P = Permute

  /** A 2N-th root of unity zeta modulo p together with its inverse and that of N. */
  datatype Root = Root(p: nat, N: nat, zeta: int, inv: int, invN: int) {
    ghost predicate Valid() {
      && p > 0
      && N > 0
      && Cong(zeta * inv, 1, p)
      && Cong(Pow(inv, N), -1, p)
      && Cong(invN * N, 1, p)
    }
  }

  lemma RootPositive(r: Root)
    requires r.Valid()
    ensures r.p > 0 && r.N > 0
  {
  }

  /** zeta^(-e), extended to all integers so that a half turn changes the sign exactly. */
  function W(r: Root, e: int): int
    requires r.N > 0
  {
    At(seq(r.N, i requires 0 <= i => Pow(r.inv, i)), e)
  }

  lemma WTurn(r: Root, e: int, k: int)
    requires r.N > 0
    ensures W(r, e + k * r.N) == Signed(k, W(r, e))
  {
    AtTurns(seq(r.N, i requires 0 <= i => Pow(r.inv, i)), e, k);
  }

  lemma WCong(r: Root, e: int, f: int)
    requires r.N > 0
    requires Cong(e, f, 2 * r.N)
    ensures W(r, e) == W(r, f)
  {
    AtCong(seq(r.N, i requires 0 <= i => Pow(r.inv, i)), e, f);
  }

  lemma {:induction false} WPow(r: Root, e: nat)
    requires r.Valid()
    ensures Cong(W(r, e), Pow(r.inv, e), r.p)
  {
    if e < r.N {
      CongRefl(W(r, e), r.p);
    } else {
      var f := e - r.N;
      WPow(r, f);
      WTurn(r, f, 1);
      PowAdd(r.inv, r.N, f);
      CongSym(Pow(r.inv, r.N), -1, r.p);
      CongMul(-1, Pow(r.inv, r.N), W(r, f), Pow(r.inv, f), r.p);
    }
  }

  lemma WAddNat(r: Root, e: nat, f: nat)
    requires r.Valid()
    ensures Cong(W(r, e + f), W(r, e) * W(r, f), r.p)
  {
    WPow(r, e);
    WPow(r, f);
    WPow(r, e + f);
    PowAdd(r.inv, e, f);
    CongMul(W(r, e), Pow(r.inv, e), W(r, f), Pow(r.inv, f), r.p);
    CongSym(W(r, e) * W(r, f), Pow(r.inv, e + f), r.p);
    CongTrans(W(r, e + f), Pow(r.inv, e + f), W(r, e) * W(r, f), r.p);
  }

  lemma WAdd(r: Root, e: int, f: int)
    requires r.Valid()
    ensures Cong(W(r, e + f), W(r, e) * W(r, f), r.p)
  {
    var m := 2 * r.N;
    var e', f' := e % m, f % m;
    CongSelf(e, m);
    CongSelf(f, m);
    CongAdd(e', e, f', f, m);
    WCong(r, e', e);
    WCong(r, f', f);
    WCong(r, e' + f', e + f);
    WAddNat(r, e', f');
  }

  /** zeta^e, the positive powers. */
  lemma WNeg(r: Root, e: int)
    requires r.Valid() && e >= 0
    ensures Cong(W(r, -e), Pow(r.zeta, e), r.p)
  {
    var w, x, y := W(r, -e), Pow(r.zeta, e), Pow(r.inv, e);
    PowDistribute(r.zeta, r.inv, e);
    PowCong(r.zeta * r.inv, 1, e, r.p);
    PowOne(e);
    WAdd(r, -e, e);
    WPow(r, e);
    InverseUnique(w, W(r, e), x, y, r.p);
  }

  lemma InverseUnique(w: int, v: int, x: int, y: int, p: int)
    requires Cong(x * y, 1, p) && Cong(1, w * v, p) && Cong(v, y, p)
    ensures Cong(w, x, p)
  {
    CongSym(x * y, 1, p);
    CongScale(w, 1, x * y, p);
    CongSym(v, y, p);
    CongScale(w * x, y, v, p);
    CongSym(1, w * v, p);
    CongScale(x, w * v, 1, p);
    CyclicProduct(w, x, y, v);
    CongTrans(w, w * (x * y), (w * x) * v, p);
    CongTrans(w, (w * v) * x, x, p);
  }

  lemma CyclicProduct(w: int, x: int, y: int, v: int)
    ensures w * (x * y) == (w * x) * y
    ensures (w * x) * v == (w * v) * x
  {
  }

  // -------------------------------------------------------------------- evaluation

  function EvalTerm(r: Root, a: Elem, e: int): int -> int
    requires r.N > 0 && |a| > 0
  {
    i => At(a, i) * W(r, e * i)
  }

  /** The polynomial with coefficients a at the point zeta^(-e). */
  function Eval(r: Root, a: Elem, e: int): int
    requires r.N > 0 && |a| > 0
  {
    Sum(|a|, EvalTerm(r, a, e))
  }

  lemma EvalCong(r: Root, a: Elem, e: int, f: int)
    requires r.N > 0 && |a| > 0
    requires Cong(e, f, 2 * r.N)
    ensures Eval(r, a, e) == Eval(r, a, f)
  {
    forall i | 0 <= i < |a|
      ensures EvalTerm(r, a, e)(i) == EvalTerm(r, a, f)(i)
    {
      CongRefl(i, 2 * r.N);
      CongMul(e, f, i, i, 2 * r.N);
      WCong(r, e * i, f * i);
    }
    SumExt(|a|, EvalTerm(r, a, e), EvalTerm(r, a, f));
  }

  lemma EvalElemCong(r: Root, a: Elem, b: Elem, e: int)
    requires r.N > 0 && |a| > 0
    requires ElemCong(a, b, r.p)
    ensures Cong(Eval(r, a, e), Eval(r, b, e), r.p)
  {
    forall i | 0 <= i < |a|
      ensures Cong(EvalTerm(r, a, e)(i), EvalTerm(r, b, e)(i), r.p)
    {
      CongRefl(W(r, e * i), r.p);
      assert Cong(a[i], b[i], r.p);
      CongMul(a[i], b[i], W(r, e * i), W(r, e * i), r.p);
    }
    SumCong(|a|, EvalTerm(r, a, e), EvalTerm(r, b, e), r.p);
  }

  lemma EvalAdd(r: Root, a: Elem, b: Elem, e: int)
    requires r.N > 0 && |a| == |b| > 0
    ensures Eval(r, Add(a, b), e) == Eval(r, a, e) + Eval(r, b, e)
  {
    forall i | 0 <= i < |a|
      ensures EvalTerm(r, Add(a, b), e)(i) == EvalTerm(r, a, e)(i) + EvalTerm(r, b, e)(i)
    {
      assert (a[i] + b[i]) * W(r, e * i) == a[i] * W(r, e * i) + b[i] * W(r, e * i);
    }
    SumAdd(|a|, EvalTerm(r, a, e), EvalTerm(r, b, e), EvalTerm(r, Add(a, b), e));
  }

  lemma EvalTermPeriodic(r: Root, a: Elem, e: int)
    requires r.N == |a| > 0 && e % 2 == 1
    ensures Periodic(EvalTerm(r, a, e), r.N)
  {
    forall i, j | Cong(i, j, r.N)
      ensures EvalTerm(r, a, e)(i) == EvalTerm(r, a, e)(j)
    {
      var k := CongWitness(i, j, r.N);
      AtTurns(a, j, k);
      Distribute(e, j, k, r.N);
      WTurn(r, e * j, e * k);
      SignOdd(e, k);
      NegNeg(At(a, j), W(r, e * j));
    }
  }

  /** The summands of a shifted element, read k positions further on. */
  function AheadTerm(r: Root, a: Elem, k: int, e: int): int -> int
    requires r.N > 0 && |a| > 0
  {
    i => EvalTerm(r, Shift(a, k), e)(i + k)
  }

  /** A sum over a whole turn may start anywhere. */
  lemma AheadSum(r: Root, a: Elem, k: int, e: int)
    requires r.N == |a| > 0 && e % 2 == 1
    ensures Eval(r, Shift(a, k), e) == Sum(r.N, AheadTerm(r, a, k, e))
  {
    hide EvalTerm, Shift;
    EvalTermPeriodic(r, Shift(a, k), e);
    SumRotate(r.N, EvalTerm(r, Shift(a, k), e), k, AheadTerm(r, a, k, e));
  }

  function ScaledTerm(c: int, f: int -> int): int -> int {
    i => c * f(i)
  }

  /** Multiplying by X^k multiplies the value at zeta^(-e) by zeta^(-ek). */
  lemma EvalShift(r: Root, a: Elem, k: int, e: int)
    requires r.Valid() && r.N == |a| && e % 2 == 1
    ensures Cong(Eval(r, Shift(a, k), e), W(r, e * k) * Eval(r, a, e), r.p)
  {
    var scaled := ScaledTerm(W(r, e * k), EvalTerm(r, a, e));
    hide Cong, EvalTerm, W, Shift;
    forall i | 0 <= i < r.N
      ensures Cong(AheadTerm(r, a, k, e)(i), scaled(i), r.p)
    {
      ShiftedTerm(r, a, k, e, i);
    }
    SumCong(r.N, AheadTerm(r, a, k, e), scaled, r.p);
    AheadSum(r, a, k, e);
    SumScale(r.N, W(r, e * k), EvalTerm(r, a, e), scaled);
  }

  lemma ShiftedTerm(r: Root, a: Elem, k: int, e: int, i: int)
    requires r.Valid() && r.N == |a|
    ensures Cong(EvalTerm(r, Shift(a, k), e)(i + k), W(r, e * k) * EvalTerm(r, a, e)(i), r.p)
  {
    AtShift(a, k, i + k);
    WAdd(r, e * k, e * i);
    PullInner(At(a, i), e, i, k, W(r, e * k), W(r, e * i));
    CongScale(At(a, i), W(r, e * k + e * i), W(r, e * k) * W(r, e * i), r.p);
  }

  lemma PullInner(x: int, e: int, i: int, k: int, u: int, v: int)
    ensures e * (i + k) == e * k + e * i
    ensures x * (u * v) == u * (x * v)
  {
  }

  /** Applying X -> X^g moves the value at exponent g * e to exponent e. */
  lemma EvalGalois(r: Root, a: Elem, g: int, h: int, e: int)
    requires r.N == |a| > 0 && e % 2 == 1
    requires Inverse(g, h, r.N)
    ensures Eval(r, Galois(a, h), e) == Eval(r, a, g * e)
  {
    InverseOdd(g, h, r.N);
    SignOdd(g, e);
    EvalTermPeriodic(r, a, g * e);
    var f := EvalTerm(r, Galois(a, h), e);
    forall i | 0 <= i < r.N
      ensures f(i) == EvalTerm(r, a, g * e)(h * i)
    {
      AtGalois(a, h, i);
      InverseExponent(g, h, e, i, 2 * r.N);
      WCong(r, (g * e) * (h * i), e * i);
    }
    assert h * g == g * h;
    SumDilate(r.N, EvalTerm(r, a, g * e), h, g, f);
  }

  lemma InverseExponent(g: int, h: int, e: int, i: int, m: int)
    requires Cong(g * h, 1, m)
    ensures Cong((g * e) * (h * i), e * i, m)
  {
    CongRefl(e * i, m);
    CongMul(g * h, 1, e * i, e * i, m);
    MulShuffle(g, e, h, i);
  }

  /** The table whose rows sum to the terms of Eval(a * b) and whose columns are shifted copies of b. */
  function ProductTable(r: Root, a: Elem, b: Elem, e: int): (int, int) -> int
    requires r.N > 0 && |a| == |b| > 0
  {
    (i, j) => At(a, j) * At(b, i - j) * W(r, e * i)
  }

  function ShiftedColumns(r: Root, a: Elem, b: Elem, e: int): int -> int
    requires r.N > 0 && |a| == |b| > 0
  {
    j => At(a, j) * Eval(r, Shift(b, j), e)
  }

  /** Evaluation is multiplicative. */
  lemma EvalMul(r: Root, a: Elem, b: Elem, e: int)
    requires r.Valid() && r.N == |a| == |b| && e % 2 == 1
    ensures Cong(Eval(r, Mul(a, b), e), Eval(r, a, e) * Eval(r, b, e), r.p)
  {
    hide Cong, W, MulTerm, Mul, EvalTerm, ProductTable, ShiftedColumns;
    var n := r.N;
    var f, cols := ProductTable(r, a, b, e), ShiftedColumns(r, a, b, e);
    var y := Eval(r, b, e);
    var g := EvalTerm(r, a, e);
    var h := j => y * g(j);
    forall i | 0 <= i < n
      ensures EvalTerm(r, Mul(a, b), e)(i) == Sum(n, Row(f, i))
    {
      ProductRow(r, a, b, e, i);
    }
    forall j | 0 <= j < n
      ensures cols(j) == Sum(n, Col(f, j))
      ensures Cong(cols(j), h(j), r.p)
    {
      ProductColumn(r, a, b, e, j);
      ShiftedColumn(r, a, b, e, j);
    }
    SumSwap(n, n, f, EvalTerm(r, Mul(a, b), e), cols);
    SumCong(n, cols, h, r.p);
    SumScale(n, y, g, h);
    PullLast(1, y, Eval(r, a, e));
  }

  lemma ShiftedColumn(r: Root, a: Elem, b: Elem, e: int, j: int)
    requires r.Valid() && r.N == |a| == |b| && e % 2 == 1
    ensures Cong(ShiftedColumns(r, a, b, e)(j), Eval(r, b, e) * EvalTerm(r, a, e)(j), r.p)
  {
    hide Cong, W, Eval;
    EvalShift(r, b, j, e);
    CongScale(At(a, j), Eval(r, Shift(b, j), e), W(r, e * j) * Eval(r, b, e), r.p);
    PullLast(At(a, j), W(r, e * j), Eval(r, b, e));
  }

  lemma PullLast(x: int, y: int, z: int)
    ensures x * (y * z) == z * (x * y)
    ensures x * y * z == z * (x * y)
  {
  }

  lemma ProductRow(r: Root, a: Elem, b: Elem, e: int, i: int)
    requires r.N == |a| == |b| > 0
    ensures EvalTerm(r, Mul(a, b), e)(i) == Sum(r.N, Row(ProductTable(r, a, b, e), i))
  {
    hide W, Mul;
    AtMul(a, b, i);
    var c := W(r, e * i);
    var g, h := MulTerm(a, b, i), Row(ProductTable(r, a, b, e), i);
    forall j | 0 <= j < r.N
      ensures h(j) == c * g(j)
    {
      PullLast(At(a, j), At(b, i - j), c);
    }
    SumScale(r.N, c, g, h);
    PullLast(1, c, Sum(r.N, g));
  }

  lemma ProductColumn(r: Root, a: Elem, b: Elem, e: int, j: int)
    requires r.N == |a| == |b| > 0
    ensures ShiftedColumns(r, a, b, e)(j) == Sum(r.N, Col(ProductTable(r, a, b, e), j))
  {
    hide W;
    var g, h := EvalTerm(r, Shift(b, j), e), Col(ProductTable(r, a, b, e), j);
    forall i | 0 <= i < r.N
      ensures h(i) == At(a, j) * g(i)
    {
      AtShift(b, j, i);
      TripleProduct(At(a, j), At(b, i - j), W(r, e * i));
    }
    SumScale(r.N, At(a, j), g, h);
  }

  // ------------------------------------------------------------------- transforms

  /** b^e for the exponents that occur; the value elsewhere is irrelevant. */
  function PowAt(b: int, e: int): int {
    if e < 0 then 1 else Pow(b, e)
  }

  /** The library FFT with inverse root w: entry j is the sum of v[i] * w^(ij). */
  function FftOf(p: nat, w: int, v: Elem): (u: Elem)
    requires p > 0 && |v| > 0
    ensures |u| == |v|
  {
    seq(|v|, j requires 0 <= j => Sum(|v|, i => At(v, i) * PowAt(w, i * j)) % p)
  }

  method Fft(p: nat, w: int, values: array<int>)
    requires p > 0 && values.Length > 0
    modifies values
    ensures values[..] == FftOf(p, w, old(values[..]))
  {
    var u := FftOf(p, w, values[..]);
    forall j | 0 <= j < values.Length {
      values[j] := u[j];
    }
  }

  /** The list multiplied entrywise by the powers of b. */
  function TwistOf(p: nat, b: int, v: Elem): (u: Elem)
    requires p > 0
    ensures |u| == |v|
  {
    seq(|v|, i requires 0 <= i < |v| => (v[i] * Pow(b, i)) % p)
  }

  /** The weighting loop shared by all three transforms: a running power, reduced at every step. */
  method Twist(p: nat, b: int, values: array<int>)
    requires p > 0
    modifies values
    ensures values[..] == TwistOf(p, b, old(values[..]))
  {
    ghost var was := values[..];
    var current := 1;
    CongRefl(1, p);
    for i := 0 to values.Length
      invariant Cong(current, Pow(b, i), p)
      invariant forall j :: 0 <= j < i ==> values[j] == TwistOf(p, b, was)[j]
      invariant forall j :: i <= j < values.Length ==> values[j] == was[j]
    {
      TwistStep(p, was[i], b, current, Pow(b, i));
      values[i] := (values[i] * current) % p;
      current := (current * b) % p;
    }
  }

  lemma TwistStep(p: nat, x: int, b: int, current: int, power: int)
    requires p > 0
    requires Cong(current, power, p)
    ensures (x * current) % p == (x * power) % p
    ensures Cong((current * b) % p, b * power, p)
  {
    CongRefl(x, p);
    CongRefl(b, p);
    CongMul(x, x, current, power, p);
    CongMod(x * current, x * power, p);
    CongMul(current, power, b, b, p);
    CongSelf(current * b, p);
    CongTrans((current * b) % p, current * b, power * b, p);
  }

  /** Twisting by zeta^(-c) and transforming with root zeta^w evaluates at the points zeta^-(c + wj). */
  lemma TwistedFft(r: Root, v: Elem, c: nat, w: nat, b: int, x: int, j: nat)
    requires r.Valid() && |v| > 0 && j < |v|
    requires Cong(b, Pow(r.inv, c), r.p) && Cong(x, Pow(r.inv, w), r.p)
    ensures FftOf(r.p, x, TwistOf(r.p, b, v))[j] == Eval(r, v, c + w * j) % r.p
  {
    var u := TwistOf(r.p, b, v);
    var f := i => At(u, i) * PowAt(x, i * j);
    var g := EvalTerm(r, v, c + w * j);
    forall i | 0 <= i < |v|
      ensures Cong(f(i), g(i), r.p)
    {
      TwistedTerm(r, v[i], c, w, b, x, i, j);
    }
    SumCong(|v|, f, g, r.p);
    CongMod(Sum(|v|, f), Sum(|v|, g), r.p);
  }

  lemma TwistedTerm(r: Root, y: int, c: nat, w: nat, b: int, x: int, i: nat, j: nat)
    requires r.Valid()
    requires Cong(b, Pow(r.inv, c), r.p) && Cong(x, Pow(r.inv, w), r.p)
    ensures i * j >= 0
    ensures Cong((y * Pow(b, i)) % r.p * Pow(x, i * j), y * W(r, (c + w * j) * i), r.p)
  {
    hide Cong, W, Pow, PowAt;
    var p := r.p;
    PowCong(b, Pow(r.inv, c), i, p);
    PowMul(r.inv, c, i);
    PowCong(x, Pow(r.inv, w), i * j, p);
    PowMul(r.inv, w, i * j);
    PowAdd(r.inv, c * i, w * (i * j));
    ExponentSum(c, w, i, j);
    var e := (c + w * j) * i;
    WPow(r, e);
    CongSym(W(r, e), Pow(r.inv, e), p);
    CongMul(Pow(b, i), Pow(r.inv, c * i), Pow(x, i * j), Pow(r.inv, w * (i * j)), p);
    CongTrans(Pow(b, i) * Pow(x, i * j), Pow(r.inv, e), W(r, e), p);
    CongRefl(y, p);
    CongMul(y, y, Pow(b, i) * Pow(x, i * j), W(r, e), p);
    CongSelf(y * Pow(b, i), p);
    CongRefl(Pow(x, i * j), p);
    CongMul((y * Pow(b, i)) % p, y * Pow(b, i), Pow(x, i * j), Pow(x, i * j), p);
    TripleProduct(y, Pow(b, i), Pow(x, i * j));
    CongTrans((y * Pow(b, i)) % p * Pow(x, i * j), y * (Pow(b, i) * Pow(x, i * j)), y * W(r, e), p);
  }

  lemma ExponentSum(c: nat, w: nat, i: nat, j: nat)
    ensures c * i + w * (i * j) == (c + w * j) * i
    ensures i * j >= 0 && c * i >= 0 && w * (i * j) >= 0 && (c + w * j) * i >= 0
  {
    assert (w * j) * i == w * (i * j);
    assert (c + w * j) * i == c * i + (w * j) * i;
  }

  /** The values of a ring element at the odd exponents 1, 3, ..., 2N - 1. */
  function NttOf(r: Root, a: Elem): (u: Elem)
    requires r.p > 0 && r.N == |a| > 0
    ensures |u| == r.N
  {
    seq(r.N, i requires 0 <= i => Eval(r, a, 2 * i + 1) % r.p)
  }

  method WeightedNtt(r: Root, values: array<int>)
    requires r.Valid() && values.Length == r.N
    modifies values
    ensures values[..] == NttOf(r, old(values[..]))
  {
    ghost var was := values[..];
    Twist(r.p, r.inv, values);
    Fft(r.p, (r.inv * r.inv) % r.p, values);
    CongSelf(r.inv * r.inv, r.p);
    assert Pow(r.inv, 1) == r.inv && Pow(r.inv, 2) == r.inv * r.inv by {
      assert Pow(r.inv, 0) == 1;
    }
    CongRefl(r.inv, r.p);
    forall j | 0 <= j < r.N
      ensures values[j] == NttOf(r, was)[j]
    {
      TwistedFft(r, was, 1, 2, r.inv, (r.inv * r.inv) % r.p, j);
    }
  }

  function InvTerm(r: Root, v: Elem, j: int): int -> int
    requires r.N > 0 && |v| > 0
  {
    i => At(v, i) * W(r, -((2 * i + 1) * j))
  }

  /** The inverse transform of a list of values, as the program computes it. */
  function InvNttOf(r: Root, v: Elem): (a: Elem)
    requires r.p > 0 && r.N == |v| > 0
    ensures |a| == r.N
  {
    TwistOf(r.p, r.zeta, ScaleMod(r.p, r.invN, FftOf(r.p, (r.zeta * r.zeta) % r.p, v)))
  }

  function ScaleMod(p: nat, c: int, v: Elem): (u: Elem)
    requires p > 0
    ensures |u| == |v|
  {
    seq(|v|, i requires 0 <= i < |v| => (c * v[i]) % p)
  }

  /** inv_fft of the library: the transform with the inverse root, divided by the length. */
  method InvFft(p: nat, w: int, invLen: int, values: array<int>)
    requires p > 0 && values.Length > 0
    modifies values
    ensures values[..] == ScaleMod(p, invLen, FftOf(p, w, old(values[..])))
  {
    Fft(p, w, values);
    var u := ScaleMod(p, invLen, values[..]);
    forall j | 0 <= j < values.Length {
      values[j] := u[j];
    }
  }

  method InvWeightedNtt(r: Root, values: array<int>)
    requires r.Valid() && values.Length == r.N
    modifies values
    ensures values[..] == InvNttOf(r, old(values[..]))
  {
    InvFft(r.p, (r.zeta * r.zeta) % r.p, r.invN, values);
    Twist(r.p, r.zeta, values);
  }

  // ------------------------------------------------------------- inverse transform

  /** Summing the values against zeta^((2i+1)j) isolates coefficient j, N times. */
  lemma EvalInverse(r: Root, a: Elem, j: nat, g: int -> int)
    requires r.Valid() && r.N == |a| && j < r.N
    requires exists n :: r.N == Pow2(n)
    requires forall i :: g(i) == Eval(r, a, 2 * i + 1) * W(r, -((2 * i + 1) * j))
    ensures Cong(Sum(r.N, g), r.N * a[j], r.p)
  {
    hide Cong, W, Eval, EvalTerm, At, Pow2, Root.Valid, InverseTable;
    var n := r.N;
    var f := InverseTable(r, a, j);
    var rows := i => Sum(n, Row(f, i));
    var cols := k => if k == j then n * At(a, k) else 0;
    forall i | 0 <= i < n
      ensures Cong(g(i), rows(i), r.p)
    {
      InverseTableAt(r, a, j);
      InverseRow(r, a, i, j, f);
    }
    SumCong(n, g, rows, r.p);
    forall k | 0 <= k < n
      ensures cols(k) == Sum(n, Col(f, k))
    {
      InverseTableAt(r, a, j);
      InverseColumn(r, a, k, j, f);
    }
    SumSwap(n, n, f, rows, cols);
    SumSingle(n, j, cols);
    AtPlain(a, j);
  }

  /** Coefficient k at the i-th odd exponent, against zeta^((2i+1)j). */
  function InverseTable(r: Root, a: Elem, j: int): (int, int) -> int
    requires r.N > 0 && |a| > 0
  {
    (i, k) => At(a, k) * W(r, (2 * i + 1) * (k - j))
  }

  lemma InverseTableAt(r: Root, a: Elem, j: int)
    requires r.N > 0 && |a| > 0
    ensures forall i, k :: InverseTable(r, a, j)(i, k) == At(a, k) * W(r, (2 * i + 1) * (k - j))
  {
    hide At, W;
  }

  lemma InverseRow(r: Root, a: Elem, i: int, j: nat, f: (int, int) -> int)
    requires r.Valid() && r.N == |a|
    requires forall k :: f(i, k) == At(a, k) * W(r, (2 * i + 1) * (k - j))
    ensures Cong(Eval(r, a, 2 * i + 1) * W(r, -((2 * i + 1) * j)), Sum(r.N, Row(f, i)), r.p)
  {
    hide Cong, W;
    var e := 2 * i + 1;
    var c := W(r, -(e * j));
    var g := EvalTerm(r, a, e);
    var h := k => c * g(k);
    SumScale(r.N, c, g, h);
    forall k | 0 <= k < r.N
      ensures Cong(h(k), Row(f, i)(k), r.p)
    {
      InverseRowTerm(r, At(a, k), e, j, k);
    }
    SumCong(r.N, h, Row(f, i), r.p);
    PullLast(1, c, Eval(r, a, e));
  }

  lemma InverseRowTerm(r: Root, x: int, e: int, j: int, k: int)
    requires r.Valid()
    ensures Cong(W(r, -(e * j)) * (x * W(r, e * k)), x * W(r, e * (k - j)), r.p)
  {
    hide Cong, W;
    WAdd(r, -(e * j), e * k);
    var c, d, w := W(r, -(e * j)), W(r, e * k), W(r, e * (k - j));
    PullInner(0, e, k, -j, 0, 0);
    NegNeg(e, j);
    CongSym(w, c * d, r.p);
    CongScale(x, c * d, w, r.p);
    PullInner(x, 0, 0, 0, c, d);
  }

  lemma InverseColumn(r: Root, a: Elem, k: nat, j: nat, f: (int, int) -> int)
    requires r.N == |a| && k < r.N && j < r.N
    requires exists n :: r.N == Pow2(n)
    requires forall i :: f(i, k) == At(a, k) * W(r, (2 * i + 1) * (k - j))
    ensures Sum(r.N, Col(f, k)) == if k == j then r.N * At(a, k) else 0
  {
    var d := k - j;
    var n :| r.N == Pow2(n);
    hide Pow, Pow2, At;
    var z := seq(r.N, i requires 0 <= i => Pow(r.inv, i));
    var u := i => At(z, d + 2 * d * i);
    forall i | 0 <= i < r.N
      ensures Col(f, k)(i) == At(a, k) * u(i)
    {
      OddStep(i, d);
    }
    SumScale(r.N, At(a, k), u, Col(f, k));
    InverseColumnSum(r, z, u, d, n);
    PullLast(1, At(a, k), r.N);
  }

  lemma OddStep(i: int, d: int)
    ensures (2 * i + 1) * d == d + 2 * d * i
  {
  }

  lemma InverseColumnSum(r: Root, z: Elem, u: int -> int, d: int, n: nat)
    requires r.N == |z| == Pow2(n) && Abs(d) < r.N
    requires z[0] == 1
    requires forall i :: u(i) == At(z, d + 2 * d * i)
    ensures Sum(r.N, u) == if d == 0 then r.N else 0
  {
    if d == 0 {
      SumConst(r.N, 1, u);
    } else {
      DoubleRight(d, Pow2(n));
      PullLast(2, d, Pow2(n));
      Orthogonality(z, d, 2 * d, n, d, u);
    }
  }

  /** The inverse transform undoes the transform. */
  lemma NttRoundTrip(r: Root, a: Elem)
    requires r.Valid() && r.N == |a|
    requires exists n :: r.N == Pow2(n)
    ensures ElemCong(InvNttOf(r, NttOf(r, a)), a, r.p)
  {
    forall j | 0 <= j < r.N
      ensures Cong(InvNttOf(r, NttOf(r, a))[j], a[j], r.p)
    {
      NttRoundTripAt(r, a, j);
    }
  }

  lemma NttRoundTripAt(r: Root, a: Elem, j: nat)
    requires r.Valid() && r.N == |a| && j < r.N
    requires exists n :: r.N == Pow2(n)
    ensures Cong(InvNttOf(r, NttOf(r, a))[j], a[j], r.p)
  {
    hide Cong, W, Eval, InvTerm, Pow, PowAt, InvNttOf, NttOf;
    var p := r.p;
    var v := NttOf(r, a);
    InvNttSum(r, v, j);
    var s := Sum(r.N, InvTerm(r, v, j));
    ReducedSum(r, a, j);
    CongScale(r.invN, s, r.N * a[j], p);
    CongScale(a[j], r.invN * r.N, 1, p);
    TripleProduct(r.invN, r.N, a[j]);
    CongTrans(r.invN * s, (r.invN * r.N) * a[j], a[j], p);
    CongTrans(InvNttOf(r, v)[j], r.invN * s, a[j], p);
  }

  lemma ReducedSum(r: Root, a: Elem, j: nat)
    requires r.Valid() && r.N == |a| && j < r.N
    requires exists n :: r.N == Pow2(n)
    ensures Cong(Sum(r.N, InvTerm(r, NttOf(r, a), j)), r.N * a[j], r.p)
  {
    hide Cong, W, Eval;
    var p := r.p;
    var v := NttOf(r, a);
    var h := i => Eval(r, a, 2 * i + 1) * W(r, -((2 * i + 1) * j));
    forall i | 0 <= i < r.N
      ensures Cong(InvTerm(r, v, j)(i), h(i), p)
    {
      CongSelf(Eval(r, a, 2 * i + 1), p);
      CongScale(W(r, -((2 * i + 1) * j)), v[i], Eval(r, a, 2 * i + 1), p);
    }
    SumCong(r.N, InvTerm(r, v, j), h, p);
    EvalInverse(r, a, j, h);
    CongTrans(Sum(r.N, InvTerm(r, v, j)), Sum(r.N, h), r.N * a[j], p);
  }

  lemma InvNttSum(r: Root, v: Elem, j: nat)
    requires r.Valid() && r.N == |v| && j < r.N
    ensures Cong(InvNttOf(r, v)[j], r.invN * Sum(r.N, InvTerm(r, v, j)), r.p)
  {
    hide Cong, W, Pow, PowAt, At;
    var p := r.p;
    var x := (r.zeta * r.zeta) % p;
    var f := i => At(v, i) * PowAt(x, i * j);
    var s := Sum(r.N, f);
    var z := Pow(r.zeta, j);
    var h := i => z * f(i);
    SumScale(r.N, z, f, h);
    forall i | 0 <= i < r.N
      ensures Cong(h(i), InvTerm(r, v, j)(i), p)
    {
      InvNttTerm(r, At(v, i), x, i, j);
    }
    SumCong(r.N, h, InvTerm(r, v, j), p);
    InvNttUnfold(p, r.invN, s, z, Sum(r.N, InvTerm(r, v, j)));
    InvNttAt(r, v, j, x, f);
  }

  lemma InvNttAt(r: Root, v: Elem, j: nat, x: int, f: int -> int)
    requires r.p > 0 && r.N == |v| && j < r.N && x == (r.zeta * r.zeta) % r.p
    requires forall i :: f(i) == At(v, i) * PowAt(x, i * j)
    ensures InvNttOf(r, v)[j] == ((r.invN * (Sum(r.N, f) % r.p)) % r.p * Pow(r.zeta, j)) % r.p
  {
    hide Pow, PowAt, At;
    SumExt(r.N, f, i => At(v, i) * PowAt(x, i * j));
  }

  /** The inverse transform only depends on the residues of the values. */
  lemma InvNttElemCong(r: Root, u: Elem, v: Elem)
    requires r.Valid() && r.N == |u| == |v|
    requires ElemCong(u, v, r.p)
    ensures ElemCong(InvNttOf(r, u), InvNttOf(r, v), r.p)
  {
    forall j | 0 <= j < r.N
      ensures Cong(InvNttOf(r, u)[j], InvNttOf(r, v)[j], r.p)
    {
      InvNttElemCongAt(r, u, v, j);
    }
  }

  lemma InvNttElemCongAt(r: Root, u: Elem, v: Elem, j: nat)
    requires r.Valid() && r.N == |u| == |v| && j < r.N
    requires ElemCong(u, v, r.p)
    ensures Cong(InvNttOf(r, u)[j], InvNttOf(r, v)[j], r.p)
  {
    assert r.p > 0;
    hide Cong, W, InvNttOf, Root.Valid, InvTerm, ElemCong;
    InvNttSum(r, u, j);
    InvNttSum(r, v, j);
    forall i | 0 <= i < r.N
      ensures Cong(InvTerm(r, u, j)(i), InvTerm(r, v, j)(i), r.p)
    {
      InvTermCong(r, u, v, j, i);
    }
    SumCong(r.N, InvTerm(r, u, j), InvTerm(r, v, j), r.p);
    var x, y := Sum(r.N, InvTerm(r, u, j)), Sum(r.N, InvTerm(r, v, j));
    CongScale(r.invN, x, y, r.p);
    CongTrans(InvNttOf(r, u)[j], r.invN * x, r.invN * y, r.p);
    CongSym(InvNttOf(r, v)[j], r.invN * y, r.p);
    CongTrans(InvNttOf(r, u)[j], r.invN * y, InvNttOf(r, v)[j], r.p);
  }

  lemma InvTermCong(r: Root, u: Elem, v: Elem, j: int, i: nat)
    requires r.N == |u| == |v| && i < r.N && ElemCong(u, v, r.p)
    ensures Cong(InvTerm(r, u, j)(i), InvTerm(r, v, j)(i), r.p)
  {
    hide Cong, W;
    assert Cong(u[i], v[i], r.p);
    CongScale(W(r, -((2 * i + 1) * j)), u[i], v[i], r.p);
  }

  lemma InvNttUnfold(p: nat, c: int, s: int, z: int, t: int)
    requires p > 0
    requires Cong(z * s, t, p)
    ensures Cong(((c * (s % p)) % p * z) % p, c * t, p)
  {
    hide Cong;
    var s' := s % p;
    CongSelf(s, p);
    var u := c * s';
    var y := u % p;
    CongSelf(u, p);
    CongSelf(y * z, p);
    CongScale(c, s', s, p);
    CongTrans(y, u, c * s, p);
    CongScale(z, y, c * s, p);
    PullLast(c, s, z);
    CongScale(c, z * s, t, p);
    RotateProduct(c, s, z);
    CongTrans(y * z, (c * s) * z, c * t, p);
    CongTrans((y * z) % p, y * z, c * t, p);
  }

  lemma RotateProduct(c: int, s: int, z: int)
    ensures (c * s) * z == c * (z * s)
  {
  }

  lemma InvNttTerm(r: Root, y: int, x: int, i: nat, j: nat)
    requires r.Valid() && x == (r.zeta * r.zeta) % r.p
    ensures Cong(Pow(r.zeta, j) * (y * PowAt(x, i * j)), y * W(r, -((2 * i + 1) * j)), r.p)
  {
    var p := r.p;
    PowTwo(r.zeta);
    hide Cong, W, Pow;
    assert p > 0;
    ExponentSum(1, 2, j, i);
    InvExponent(i, j);
    CongSelf(r.zeta * r.zeta, p);
    PowCong(x, Pow(r.zeta, 2), i * j, p);
    PowMul(r.zeta, 2, i * j);
    PowAdd(r.zeta, j, 2 * (i * j));
    WNeg(r, (2 * i + 1) * j);
    InvNttGlue(p, y, Pow(r.zeta, j), Pow(x, i * j), Pow(r.zeta, 2 * (i * j)), W(r, -((2 * i + 1) * j)));
  }

  lemma PowTwo(b: int)
    ensures Pow(b, 2) == b * b
  {
    assert Pow(b, 0) == 1;
    assert Pow(b, 1) == b;
  }

  lemma InvExponent(i: nat, j: nat)
    ensures (2 * i + 1) * j == j + 2 * (i * j) && i * j >= 0
  {
  }

  lemma InvNttGlue(p: nat, y: int, z: int, u: int, u': int, w: int)
    requires Cong(u, u', p) && Cong(w, z * u', p)
    ensures Cong(z * (y * u), y * w, p)
  {
    CongRefl(z, p);
    CongRefl(y, p);
    CongMul(z, z, u, u', p);
    CongSym(w, z * u', p);
    CongTrans(z * u, z * u', w, p);
    CongMul(y, y, z * u, w, p);
    assert y * (z * u) == z * (y * u);
  }

  // --------------------------------------------------------------------- coset_ntt

  /** The values at the exponents z * Element(0), z * Element(1), ... */
  function CosetNttOf(r: Root, g: IndexGroup, z: int, v: Elem): (u: Elem)
    requires r.p > 0 && r.N > 0 && |v| == g.l > 0
    ensures |u| == g.l
  {
    seq(g.l, k requires 0 <= k => Eval(r, v, z * g.Element(k)) % r.p)
  }

  /** The coset of the points of a transform of length l. */
  function CosetOf(g: IndexGroup, z: int): nat
    requires g.N > 0 && g.l > 0 && Step(g) > 0
  {
    (z % (2 * g.N)) % Step(g)
  }

  function PowMod(b: int, e: nat, p: nat): int
    requires p > 0
  {
    Pow(b, e) % p
  }

  /** The values of zeta_power that the program uses. */
  ghost predicate OddPower(g: IndexGroup, z: int, o: int) {
    o % 2 == 1 && g.LoopLen() > 0 && z == o * g.QueryBasePower()
  }

  method CosetNtt(g: IndexGroup, r: Root, zetaPower: int, values: array<int>, ghost m: nat, ghost o: int)
    requires g.Layout(m) && r.Valid() && r.N == g.N
    requires values.Length == g.l > 0
    requires OddPower(g, zetaPower, o)
    modifies values
    ensures values[..] == CosetNttOf(r, g, zetaPower, old(values[..]))
  {
    hide Cong, Eval, Pow, Pow2, FftOf, TwistOf, CosetIndex, CosetLift, CosetOf, PowMod, OddPower, Step, IndexGroup.Layout, IndexGroup.Element, IndexGroup.QueryBasePower, Permutes;
    StepValue(g, m);
    ghost var was := values[..];
    var coset := CosetOf(g, zetaPower);
    var b := PowMod(r.inv, coset, r.p);
    var x := PowMod(r.inv, Step(g), r.p);
    Twist(r.p, b, values);
    Fft(r.p, x, values);
    CosetMapPermutes(g, m, zetaPower, o);
    var perm := CosetMap(g, zetaPower);
    ghost var transformed := values[..];
    P.Permute(values, perm);
    forall k | 0 <= k < g.l
      ensures values[k] == CosetNttOf(r, g, zetaPower, was)[k]
    {
      CosetSlot(g, r, zetaPower, was, m, o, coset, b, x, k);
    }
  }

  lemma CosetMapPermutes(g: IndexGroup, m: nat, z: int, o: int)
    requires g.Layout(m) && OddPower(g, z, o)
    ensures g.l > 0 && g.N > 0 && Step(g) > 0
    ensures Permutes(CosetMap(g, z), g.l)
  {
    hide IndexGroup.Layout, CosetIndex, CosetLift, Step, Permutes;
    CosetIndexPermutes(g, m, o);
  }

  lemma CosetSlot(g: IndexGroup, r: Root, zetaPower: int, was: Elem, m: nat, o: int, coset: nat, b: int, x: int, k: nat)
    requires g.Layout(m) && r.Valid() && r.N == g.N && |was| == g.l > k && Step(g) > 0
    requires OddPower(g, zetaPower, o)
    requires coset == CosetOf(g, zetaPower)
    requires b == PowMod(r.inv, coset, r.p) && x == PowMod(r.inv, Step(g), r.p)
    ensures 0 <= CosetIndex(g, zetaPower, k) < g.l
    ensures FftOf(r.p, x, TwistOf(r.p, b, was))[CosetIndex(g, zetaPower, k)] == CosetNttOf(r, g, zetaPower, was)[k]
  {
    hide Cong, Eval, Pow, Pow2, FftOf, TwistOf, CosetIndex, Step, IndexGroup.Layout, IndexGroup.Element, IndexGroup.QueryBasePower;
    StepValue(g, m);
    var w := Step(g);
    CosetIndexExact(g, m, o, k);
    ResidueOfResidue(zetaPower, w, g.l, 2 * g.N);
    CongSelf(Pow(r.inv, coset), r.p);
    CongSelf(Pow(r.inv, w), r.p);
    var i := CosetIndex(g, zetaPower, k);
    TwistedFft(r, was, coset, w, b, x, i);
    CongSelf(zetaPower * g.Element(k), 2 * g.N);
    EvalCong(r, was, CosetLift(g, zetaPower, k), zetaPower * g.Element(k));
    SwapProduct(i, w);
  }

  lemma ResidueOfResidue(z: int, w: nat, l: nat, m: nat)
    requires w > 0 && m == w * l > 0
    ensures (z % m) % w == z % w
  {
    CongSelf(z, m);
    CongFactor(z % m, z, w, l);
    CongMod(z % m, z, w);
  }
}
