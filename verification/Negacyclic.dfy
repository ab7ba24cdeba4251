/** The ring Z[X]/(X^N + 1) on coefficient lists of length N.
 *
 *  A list is read through At, which extends it to all integer positions with a[i + N] = -a[i].
 *  Multiplication by X^k is then a shift, and X -> X^g a dilation of the position.
 *  Sections of the program that compute modulo q, t or an RNS factor are compared with
 *  this ring coefficient by coefficient (ElemCong).
 */
module Negacyclic {
  import opened Arith
  import opened Sums

  type Elem = seq<int>

  function At(a: Elem, i: int): int
    requires |a| > 0
    decreases if i < 0 then |a| - i else i
  {
    if i < 0 then -At(a, i + |a|)
    else if i < |a| then a[i]
    else -At(a, i - |a|)
  }

  lemma AtPlain(a: Elem, i: int)
    requires 0 <= i < |a|
    ensures At(a, i) == a[i]
  {
  }

  /** Positions that agree modulo 2N carry the same value. */
  lemma AtCong(a: Elem, i: int, j: int)
    requires |a| > 0
    requires Cong(i, j, 2 * |a|)
    ensures At(a, i) == At(a, j)
  {
    var k := CongWitness(i, j, 2 * |a|);
    assert k * (2 * |a|) == (2 * k) * |a|;
    AtTurns(a, j, 2 * k);
  }

  lemma AtAnti(a: Elem, i: int)
    requires |a| > 0
    ensures At(a, i + |a|) == -At(a, i)
  {
  }

  /** x negated once for every half turn. */
  function Signed(k: int, x: int): int {
    if k % 2 == 0 then x else -x
  }

  lemma {:induction false} AtTurns(a: Elem, i: int, k: int)
    requires |a| > 0
    ensures At(a, i + k * |a|) == Signed(k, At(a, i))
    decreases Abs(k)
  {
    var n := |a|;
    if k > 0 {
      AtTurns(a, i, k - 1);
      assert (k - 1) * n + n == k * n;
      AtNext(a, i, k - 1, i + (k - 1) * n, i + k * n);
    } else if k < 0 {
      AtTurns(a, i, k + 1);
      assert (k + 1) * n - n == k * n;
      AtPrevious(a, i, k + 1, i + (k + 1) * n, i + k * n);
    }
  }

  lemma AtNext(a: Elem, i: int, k: int, x: int, y: int)
    requires |a| > 0
    requires y == x + |a|
    requires At(a, x) == Signed(k, At(a, i))
    ensures At(a, y) == Signed(k + 1, At(a, i))
  {
    AtAnti(a, x);
  }

  lemma AtPrevious(a: Elem, i: int, k: int, x: int, y: int)
    requires |a| > 0
    requires y == x - |a|
    requires At(a, x) == Signed(k, At(a, i))
    ensures At(a, y) == Signed(k - 1, At(a, i))
  {
    AtAnti(a, y);
  }

  // ------------------------------------------------------------ linear structure

  function Zero(n: nat): (r: Elem)
    ensures |r| == n
  {
    seq(n, i => 0)
  }

  function Add(a: Elem, b: Elem): (r: Elem)
    requires |a| == |b|
    ensures |r| == |a|
  {
    seq(|a|, i requires 0 <= i < |a| => a[i] + b[i])
  }

  function Scale(c: int, a: Elem): (r: Elem)
    ensures |r| == |a|
  {
    seq(|a|, i requires 0 <= i < |a| => c * a[i])
  }

  lemma {:induction false} AtZero(n: nat, i: int)
    requires n > 0
    ensures At(Zero(n), i) == 0
  {
    var j, c := Split(i, n);
    AtTurns(Zero(n), j, c);
  }

  lemma {:induction false} AtAdd(a: Elem, b: Elem, i: int)
    requires |a| == |b| > 0
    ensures At(Add(a, b), i) == At(a, i) + At(b, i)
  {
    var j, c := Split(i, |a|);
    AtTurns(Add(a, b), j, c);
    AtTurns(a, j, c);
    AtTurns(b, j, c);
  }

  lemma {:induction false} AtScale(c: int, a: Elem, i: int)
    requires |a| > 0
    ensures At(Scale(c, a), i) == c * At(a, i)
  {
    var j, d := Split(i, |a|);
    AtTurns(Scale(c, a), j, d);
    AtTurns(a, j, d);
    NegNeg(c, a[j]);
  }

  // -------------------------------------------------------- monomials and automorphisms

  /** X^k * a. */
  function Shift(a: Elem, k: int): (r: Elem)
    requires |a| > 0
    ensures |r| == |a|
  {
    seq(|a|, i requires 0 <= i < |a| => At(a, i - k))
  }

  lemma AtShift(a: Elem, k: int, i: int)
    requires |a| > 0
    ensures At(Shift(a, k), i) == At(a, i - k)
  {
    var n := |a|;
    var j, c := Split(i, n);
    AtTurns(Shift(a, k), j, c);
    AtPlain(Shift(a, k), j);
    AtTurns(a, j - k, c);
    assert j - k + c * n == i - k;
  }

  /** The automorphism X -> X^g, given by h with g * h = 1 modulo 2N. */
  function Galois(a: Elem, h: int): (r: Elem)
    requires |a| > 0
    ensures |r| == |a|
  {
    seq(|a|, i requires 0 <= i < |a| => At(a, h * i))
  }

  lemma SignOdd(h: int, c: int)
    requires h % 2 == 1
    ensures (h * c) % 2 == c % 2
  {
    var r, m := Split(h, 2);
    var s, k := Split(c, 2);
    OddTimes(m, c);
    DivModUnique(h * c, 2, m * c + k, s);
  }

  lemma OddTimes(m: int, c: int)
    ensures (1 + m * 2) * c == 2 * (m * c) + c
  {
  }

  lemma AtGalois(a: Elem, h: int, i: int)
    requires |a| > 0
    requires h % 2 == 1
    ensures At(Galois(a, h), i) == At(a, h * i)
  {
    var n := |a|;
    var j, c := Split(i, n);
    AtTurns(Galois(a, h), j, c);
    AtPlain(Galois(a, h), j);
    Distribute(h, j, c, n);
    AtTurns(a, h * j, h * c);
    SignOdd(h, c);
  }

  lemma Distribute(h: int, j: int, c: int, n: int)
    ensures h * (j + c * n) == h * j + (h * c) * n
  {
    assert h * (j + c * n) == h * j + h * (c * n);
    assert h * (c * n) == (h * c) * n;
  }

  /** The unit element, X^0. */
  function One(n: nat): (r: Elem)
    ensures |r| == n
  {
    seq(n, i => if i == 0 then 1 else 0)
  }

  /** The element X^k. */
  function Mono(n: nat, k: int): (r: Elem)
    requires n > 0
    ensures |r| == n
  {
    Shift(One(n), k)
  }

  // ------------------------------------------------------------------ multiplication

  /** The summands of coefficient i of a product, as a function of the position in the first factor. */
  function MulTerm(a: Elem, b: Elem, i: int): int -> int
    requires |a| == |b| > 0
  {
    j => At(a, j) * At(b, i - j)
  }

  function Mul(a: Elem, b: Elem): (r: Elem)
    requires |a| == |b| > 0
    ensures |r| == |a|
  {
    seq(|a|, i requires 0 <= i < |a| => Sum(|a|, MulTerm(a, b, i)))
  }

  /** f depends on its argument only modulo n. */
  ghost predicate Periodic(f: int -> int, n: int)
    requires n > 0
  {
    forall i, j :: Cong(i, j, n) ==> f(i) == f(j)
  }

  lemma MulTermPeriodic(a: Elem, b: Elem, i: int)
    requires |a| == |b| > 0
    ensures Periodic(MulTerm(a, b, i), |a|)
  {
    hide At;
    var n := |a|;
    forall j, k | Cong(j, k, n)
      ensures MulTerm(a, b, i)(j) == MulTerm(a, b, i)(k)
    {
      var c := CongWitness(j, k, n);
      hide Cong;
      AtTurns(a, k, c);
      AtTurns(b, i - k, -c);
      BackShift(i, j, k, c, n);
      NegNeg(At(a, k), At(b, i - k));
    }
  }

  lemma BackShift(i: int, j: int, k: int, c: int, n: int)
    requires j == k + c * n
    ensures i - j == i - k + (-c) * n
  {
  }

  lemma NegNeg(x: int, y: int)
    ensures (-x) * (-y) == x * y
    ensures x * (-y) == -(x * y)
  {
  }

  /** A full-period sum may start anywhere. */
  lemma SumRotate(n: nat, f: int -> int, c: int, h: int -> int)
    requires n > 0
    requires Periodic(f, n)
    requires forall i :: 0 <= i < n ==> h(i) == f(i + c)
    ensures Sum(n, f) == Sum(n, h)
  {
    var p := i => (i + c) % n;
    forall i, j | 0 <= i < n && 0 <= j < n && p(i) == p(j)
      ensures i == j
    {
      CongMod(i + c, j + c, n);
      CongRefl(c, n);
      CongAdd(i + c, j + c, c, c, n);
      CongClose(i, j, n);
    }
    forall i | 0 <= i < n
      ensures h(i) == f(p(i))
    {
      CongSelf(i + c, n);
    }
    SumReindex(n, f, p, h);
  }

  /** A full-period sum may step by any unit. */
  lemma SumDilate(n: nat, f: int -> int, c: int, d: int, h: int -> int)
    requires n > 0
    requires Periodic(f, n)
    requires Cong(c * d, 1, n)
    requires forall i :: 0 <= i < n ==> h(i) == f(c * i)
    ensures Sum(n, f) == Sum(n, h)
  {
    var p := i => (c * i) % n;
    forall i, j | 0 <= i < n && 0 <= j < n && p(i) == p(j)
      ensures i == j
    {
      CongMod(c * i, c * j, n);
      UnitCancel(c, d, i, j, n);
      CongClose(i, j, n);
    }
    forall i | 0 <= i < n
      ensures 0 <= p(i) < n && h(i) == f(p(i))
    {
      CongSelf(c * i, n);
    }
    SumReindex(n, f, p, h);
  }

  lemma UnitCancel(c: int, d: int, i: int, j: int, n: int)
    requires Cong(c * d, 1, n)
    requires Cong(c * i, c * j, n)
    ensures Cong(i, j, n)
  {
    hide Cong;
    CongScale(d, c * i, c * j, n);
    CongScale(i, c * d, 1, n);
    CongScale(j, c * d, 1, n);
    SwapInner(c, d, i);
    SwapInner(c, d, j);
    CongSym((c * d) * i, i, n);
    CongTrans(i, (c * d) * i, (c * d) * j, n);
    CongTrans(i, (c * d) * j, j, n);
  }

  lemma AtMul(a: Elem, b: Elem, i: int)
    requires |a| == |b| > 0
    ensures At(Mul(a, b), i) == Sum(|a|, MulTerm(a, b, i))
  {
    var n := |a|;
    var j, c := Split(i, n);
    AtTurns(Mul(a, b), j, c);
    AtPlain(Mul(a, b), j);
    SumTurn(a, b, j, c);
  }

  lemma SumTurn(a: Elem, b: Elem, j: int, c: int)
    requires |a| == |b| > 0
    ensures Sum(|a|, MulTerm(a, b, j + c * |a|)) == Signed(c, Sum(|a|, MulTerm(a, b, j)))
  {
    var f, g := MulTerm(a, b, j), MulTerm(a, b, j + c * |a|);
    forall k | 0 <= k < |a|
      ensures g(k) == Signed(c, f(k))
    {
      MulTermTurn(a, b, j, k, c);
    }
    if c % 2 == 0 {
      SumExt(|a|, f, g);
    } else {
      SumScale(|a|, -1, f, g);
    }
  }

  lemma MulTermTurn(a: Elem, b: Elem, j: int, k: int, c: int)
    requires |a| == |b| > 0
    ensures MulTerm(a, b, j + c * |a|)(k) == Signed(c, MulTerm(a, b, j)(k))
  {
    AtTurns(b, j - k, c);
    assert j + c * |a| - k == j - k + c * |a|;
    NegNeg(At(a, k), At(b, j - k));
  }

  lemma MulAddRight(a: Elem, b: Elem, c: Elem)
    requires |a| == |b| == |c| > 0
    ensures Mul(a, Add(b, c)) == Add(Mul(a, b), Mul(a, c))
  {
    forall i | 0 <= i < |a|
      ensures Mul(a, Add(b, c))[i] == Mul(a, b)[i] + Mul(a, c)[i]
    {
      forall j | 0 <= j < |a|
        ensures MulTerm(a, Add(b, c), i)(j) == MulTerm(a, b, i)(j) + MulTerm(a, c, i)(j)
      {
        AtAdd(b, c, i - j);
        assert At(a, j) * (At(b, i - j) + At(c, i - j)) == At(a, j) * At(b, i - j) + At(a, j) * At(c, i - j);
      }
      SumAdd(|a|, MulTerm(a, b, i), MulTerm(a, c, i), MulTerm(a, Add(b, c), i));
    }
  }

  lemma MulAddLeft(a: Elem, b: Elem, c: Elem)
    requires |a| == |b| == |c| > 0
    ensures Mul(Add(a, b), c) == Add(Mul(a, c), Mul(b, c))
  {
    forall i | 0 <= i < |a|
      ensures Mul(Add(a, b), c)[i] == Mul(a, c)[i] + Mul(b, c)[i]
    {
      forall j | 0 <= j < |a|
        ensures MulTerm(Add(a, b), c, i)(j) == MulTerm(a, c, i)(j) + MulTerm(b, c, i)(j)
      {
        AtAdd(a, b, j);
        assert (At(a, j) + At(b, j)) * At(c, i - j) == At(a, j) * At(c, i - j) + At(b, j) * At(c, i - j);
      }
      SumAdd(|a|, MulTerm(a, c, i), MulTerm(b, c, i), MulTerm(Add(a, b), c, i));
    }
  }

  lemma MulScaleRight(a: Elem, c: int, b: Elem)
    requires |a| == |b| > 0
    ensures Mul(a, Scale(c, b)) == Scale(c, Mul(a, b))
  {
    forall i | 0 <= i < |a|
      ensures Mul(a, Scale(c, b))[i] == c * Mul(a, b)[i]
    {
      forall j | 0 <= j < |a|
        ensures MulTerm(a, Scale(c, b), i)(j) == c * MulTerm(a, b, i)(j)
      {
        AtScale(c, b, i - j);
        assert At(a, j) * (c * At(b, i - j)) == c * (At(a, j) * At(b, i - j));
      }
      SumScale(|a|, c, MulTerm(a, b, i), MulTerm(a, Scale(c, b), i));
    }
  }

  lemma MulScaleLeft(c: int, a: Elem, b: Elem)
    requires |a| == |b| > 0
    ensures Mul(Scale(c, a), b) == Scale(c, Mul(a, b))
  {
    forall i | 0 <= i < |a|
      ensures Mul(Scale(c, a), b)[i] == c * Mul(a, b)[i]
    {
      forall j | 0 <= j < |a|
        ensures MulTerm(Scale(c, a), b, i)(j) == c * MulTerm(a, b, i)(j)
      {
        AtScale(c, a, j);
        assert (c * At(a, j)) * At(b, i - j) == c * (At(a, j) * At(b, i - j));
      }
      SumScale(|a|, c, MulTerm(a, b, i), MulTerm(Scale(c, a), b, i));
    }
  }

  /** Multiplication is associative: both sides sum the same table, one by rows and one by columns. */
  lemma MulAssoc(a: Elem, b: Elem, c: Elem)
    requires |a| == |b| == |c| > 0
    ensures Mul(Mul(a, b), c) == Mul(a, Mul(b, c))
  {
    var n := |a|;
    forall i | 0 <= i < n
      ensures Mul(Mul(a, b), c)[i] == Mul(a, Mul(b, c))[i]
    {
      MulAssocAt(a, b, c, i);
    }
  }

  lemma MulAssocAt(a: Elem, b: Elem, c: Elem, i: int)
    requires |a| == |b| == |c| > 0 && 0 <= i < |a|
    ensures Mul(Mul(a, b), c)[i] == Mul(a, Mul(b, c))[i]
  {
    hide At, Mul, MulTerm, Cong, TripleTable;
    MulAt(Mul(a, b), c, i);
    MulAt(a, Mul(b, c), i);
    var n := |a|;
    var f := TripleTable(a, b, c, i);
    TripleTableAt(a, b, c, i);
    var rows, cols := MulTerm(Mul(a, b), c, i), MulTerm(a, Mul(b, c), i);
    forall j | 0 <= j < n
      ensures rows(j) == Sum(n, Row(f, j))
    {
      AssocRow(a, b, c, i, j, f);
    }
    forall k | 0 <= k < n
      ensures cols(k) == Sum(n, Col(f, k))
    {
      AssocColumn(a, b, c, i, k, f);
    }
    SumSwap(n, n, f, rows, cols);
  }

  /** All products of three coefficients that reach position i. */
  function TripleTable(a: Elem, b: Elem, c: Elem, i: int): (int, int) -> int
    requires |a| == |b| == |c| > 0
  {
    (j, k) => At(a, k) * At(b, j - k) * At(c, i - j)
  }

  lemma TripleTableAt(a: Elem, b: Elem, c: Elem, i: int)
    requires |a| == |b| == |c| > 0
    ensures forall j, k :: TripleTable(a, b, c, i)(j, k) == At(a, k) * At(b, j - k) * At(c, i - j)
  {
    hide At;
  }

  lemma MulAt(a: Elem, b: Elem, i: int)
    requires |a| == |b| > 0 && 0 <= i < |a|
    ensures Mul(a, b)[i] == Sum(|a|, MulTerm(a, b, i))
  {
    hide At, MulTerm;
  }

  lemma AssocRow(a: Elem, b: Elem, c: Elem, i: int, j: int, f: (int, int) -> int)
    requires |a| == |b| == |c| > 0
    requires forall k :: f(j, k) == At(a, k) * At(b, j - k) * At(c, i - j)
    ensures MulTerm(Mul(a, b), c, i)(j) == Sum(|a|, Row(f, j))
  {
    hide At, Mul, MulTerm, Cong;
    var n := |a|;
    var row, g := Row(f, j), MulTerm(a, b, j);
    AtMul(a, b, j);
    forall k | 0 <= k < n
      ensures row(k) == At(c, i - j) * g(k)
    {
      MulTermAt(a, b, j, k);
      SwapProduct(At(a, k) * At(b, j - k), At(c, i - j));
    }
    SumScale(n, At(c, i - j), g, row);
    MulTermAt(Mul(a, b), c, i, j);
    SwapProduct(Sum(n, g), At(c, i - j));
  }

  lemma AssocColumn(a: Elem, b: Elem, c: Elem, i: int, k: int, f: (int, int) -> int)
    requires |a| == |b| == |c| > 0
    requires forall j :: f(j, k) == At(a, k) * At(b, j - k) * At(c, i - j)
    ensures MulTerm(a, Mul(b, c), i)(k) == Sum(|a|, Col(f, k))
  {
    hide At, Mul, Cong, MulTerm;
    var n := |a|;
    var g := MulTerm(b, c, i - k);
    var h := j => g(j + -k);
    var col := Col(f, k);
    forall j | 0 <= j < n
      ensures col(j) == At(a, k) * h(j)
    {
      AssocTerm(a, b, c, i, j, k);
    }
    SumScale(n, At(a, k), h, col);
    MulTermPeriodic(b, c, i - k);
    SumRotate(n, g, -k, h);
    AtMul(b, c, i - k);
    MulTermAt(a, Mul(b, c), i, k);
  }

  lemma MulTermAt(a: Elem, b: Elem, i: int, k: int)
    requires |a| == |b| > 0
    ensures MulTerm(a, b, i)(k) == At(a, k) * At(b, i - k)
  {
  }

  lemma AssocTerm(a: Elem, b: Elem, c: Elem, i: int, j: int, k: int)
    requires |a| == |b| == |c| > 0
    ensures At(a, k) * At(b, j - k) * At(c, i - j) == At(a, k) * MulTerm(b, c, i - k)(j + -k)
  {
    assert i - k - (j + -k) == i - j;
    TripleProduct(At(a, k), At(b, j - k), At(c, i - j));
  }

  /** Multiplying by X^k shifts. */
  lemma MulMono(a: Elem, k: int)
    requires |a| > 0
    ensures Mul(a, Mono(|a|, k)) == Shift(a, k)
  {
    var n := |a|;
    forall i | 0 <= i < n
      ensures Mul(a, Mono(n, k))[i] == At(a, i - k)
    {
      var f := MulTerm(a, Mono(n, k), i);
      var j0, c := Split(i - k, n);
      forall j | 0 <= j < n
        ensures f(j) == if j == j0 then At(a, i - k) else 0
      {
        MonoTerm(a, k, i, j, j0, c);
      }
      SumSingle(n, j0, f);
    }
  }

  lemma MonoTerm(a: Elem, k: int, i: int, j: int, j0: int, c: int)
    requires |a| > 0
    requires 0 <= j < |a| && 0 <= j0 < |a|
    requires i - k == j0 + c * |a|
    ensures MulTerm(a, Mono(|a|, k), i)(j) == if j == j0 then At(a, i - k) else 0
  {
    var n := |a|;
    AtShift(One(n), k, i - j);
    assert i - j - k == j0 - j + c * n;
    AtTurns(One(n), j0 - j, c);
    AtTurns(a, j0, c);
    if j0 >= j {
      AtPlain(One(n), j0 - j);
    } else {
      AtAnti(One(n), j0 - j);
      AtPlain(One(n), j0 - j + n);
    }
  }

  // ------------------------------------------------------------ Galois automorphisms

  /** g and h are inverse to each other modulo 2n. */
  ghost predicate Inverse(g: int, h: int, n: nat)
    requires n > 0
  {
    Cong(g * h, 1, 2 * n)
  }

  lemma InverseOdd(g: int, h: int, n: nat)
    requires n > 0
    requires Inverse(g, h, n)
    ensures g % 2 == 1 && h % 2 == 1
    ensures Cong(g * h, 1, n)
  {
    var k := CongWitness(g * h, 1, 2 * n);
    assert k * (2 * n) == 2 * (k * n);
    EvenFactor(g, h);
    EvenFactor(h, g);
    assert h * g == g * h;
    assert k * (2 * n) == (2 * k) * n;
    CongIntro(g * h, 1, 2 * k, n);
  }

  lemma EvenFactor(g: int, h: int)
    ensures g % 2 == 0 ==> (g * h) % 2 == 0
  {
    if g % 2 == 0 {
      var m := g / 2;
      assert g * h == 2 * (m * h);
    }
  }

  lemma GaloisAdd(a: Elem, b: Elem, h: int)
    requires |a| == |b| > 0
    ensures Galois(Add(a, b), h) == Add(Galois(a, h), Galois(b, h))
  {
    forall i | 0 <= i < |a|
      ensures Galois(Add(a, b), h)[i] == Galois(a, h)[i] + Galois(b, h)[i]
    {
      AtAdd(a, b, h * i);
    }
  }

  lemma GaloisScale(c: int, a: Elem, h: int)
    requires |a| > 0
    ensures Galois(Scale(c, a), h) == Scale(c, Galois(a, h))
  {
    forall i | 0 <= i < |a|
      ensures Galois(Scale(c, a), h)[i] == c * Galois(a, h)[i]
    {
      AtScale(c, a, h * i);
    }
  }

  /** The automorphism is multiplicative, hence a ring homomorphism. */
  lemma GaloisMul(a: Elem, b: Elem, g: int, h: int)
    requires |a| == |b| > 0
    requires Inverse(g, h, |a|)
    ensures Galois(Mul(a, b), h) == Mul(Galois(a, h), Galois(b, h))
  {
    var n := |a|;
    InverseOdd(g, h, n);
    forall i | 0 <= i < n
      ensures Galois(Mul(a, b), h)[i] == Mul(Galois(a, h), Galois(b, h))[i]
    {
      AtMul(a, b, h * i);
      MulTermPeriodic(a, b, h * i);
      var f := MulTerm(Galois(a, h), Galois(b, h), i);
      forall j | 0 <= j < n
        ensures f(j) == MulTerm(a, b, h * i)(h * j)
      {
        AtGalois(a, h, j);
        AtGalois(b, h, i - j);
        assert h * (i - j) == h * i - h * j;
      }
      assert h * g == g * h;
      SumDilate(n, MulTerm(a, b, h * i), h, g, f);
    }
  }

  // ------------------------------------------------------------------- congruences

  ghost predicate ElemCong(a: Elem, b: Elem, m: int)
  {
    |a| == |b| && forall i :: 0 <= i < |a| ==> Cong(a[i], b[i], m)
  }

  lemma CongNeg(x: int, y: int, m: int)
    requires Cong(x, y, m)
    ensures Cong(-x, -y, m)
  {
    CongRefl(0, m);
    CongAdd(0, 0, x, y, m);
  }

  lemma {:induction false} AtElemCong(a: Elem, b: Elem, i: int, m: int)
    requires |a| > 0
    requires ElemCong(a, b, m)
    ensures Cong(At(a, i), At(b, i), m)
  {
    var j, c := Split(i, |a|);
    AtTurns(a, j, c);
    AtTurns(b, j, c);
    assert Cong(a[j], b[j], m);
    CongNeg(a[j], b[j], m);
  }

  lemma AddElemCong(a: Elem, b: Elem, c: Elem, d: Elem, m: int)
    requires ElemCong(a, b, m) && ElemCong(c, d, m)
    requires |a| == |c|
    ensures ElemCong(Add(a, c), Add(b, d), m)
  {
    forall i | 0 <= i < |a|
      ensures Cong(Add(a, c)[i], Add(b, d)[i], m)
    {
      CongAdd(a[i], b[i], c[i], d[i], m);
    }
  }

  lemma MulElemCong(a: Elem, b: Elem, c: Elem, d: Elem, m: int)
    requires ElemCong(a, b, m) && ElemCong(c, d, m)
    requires |a| == |c| > 0
    ensures ElemCong(Mul(a, c), Mul(b, d), m)
  {
    forall i | 0 <= i < |a|
      ensures Cong(Mul(a, c)[i], Mul(b, d)[i], m)
    {
      forall j | 0 <= j < |a|
        ensures Cong(MulTerm(a, c, i)(j), MulTerm(b, d, i)(j), m)
      {
        AtElemCong(a, b, j, m);
        AtElemCong(c, d, i - j, m);
        CongMul(At(a, j), At(b, j), At(c, i - j), At(d, i - j), m);
      }
      SumCong(|a|, MulTerm(a, c, i), MulTerm(b, d, i), m);
    }
  }

  lemma GaloisElemCong(a: Elem, b: Elem, h: int, m: int)
    requires |a| > 0
    requires ElemCong(a, b, m)
    ensures ElemCong(Galois(a, h), Galois(b, h), m)
  {
    forall i | 0 <= i < |a|
      ensures Cong(Galois(a, h)[i], Galois(b, h)[i], m)
    {
      AtElemCong(a, b, h * i, m);
    }
  }
}
