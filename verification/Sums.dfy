/** Finite sums over 0..n and the laws used to rearrange them.
 *  The laws take every summand function as a parameter and relate them pointwise on 0..n,
 *  so that a caller may use whatever function it has at hand.
 */
module Sums {
  import opened Arith

  function Sum(n: nat, f: int -> int): int {
    if n == 0 then 0 else Sum(n - 1, f) + f(n - 1)
  }

  lemma {:induction false} SumExt(n: nat, f: int -> int, g: int -> int)
    requires forall i :: 0 <= i < n ==> f(i) == g(i)
    ensures Sum(n, f) == Sum(n, g)
  {
    if n > 0 {
      SumExt(n - 1, f, g);
    }
  }

  lemma {:induction false} SumCong(n: nat, f: int -> int, g: int -> int, m: int)
    requires forall i :: 0 <= i < n ==> Cong(f(i), g(i), m)
    ensures Cong(Sum(n, f), Sum(n, g), m)
  {
    if n == 0 {
      CongRefl(0, m);
    } else {
      SumCong(n - 1, f, g, m);
      CongAdd(Sum(n - 1, f), Sum(n - 1, g), f(n - 1), g(n - 1), m);
    }
  }

  lemma {:induction false} SumAdd(n: nat, f: int -> int, g: int -> int, h: int -> int)
    requires forall i :: 0 <= i < n ==> h(i) == f(i) + g(i)
    ensures Sum(n, h) == Sum(n, f) + Sum(n, g)
  {
    if n > 0 {
      SumAdd(n - 1, f, g, h);
    }
  }

  lemma {:induction false} SumScale(n: nat, c: int, f: int -> int, h: int -> int)
    requires forall i :: 0 <= i < n ==> h(i) == c * f(i)
    ensures Sum(n, h) == c * Sum(n, f)
  {
    if n == 0 {
      assert c * 0 == 0;
    } else {
      SumScale(n - 1, c, f, h);
      assert c * (Sum(n - 1, f) + f(n - 1)) == c * Sum(n - 1, f) + c * f(n - 1);
    }
  }

  lemma {:induction false} SumZero(n: nat, f: int -> int)
    requires forall i :: 0 <= i < n ==> f(i) == 0
    ensures Sum(n, f) == 0
  {
    if n > 0 {
      SumZero(n - 1, f);
    }
  }

  lemma {:induction false} SumConst(n: nat, c: int, f: int -> int)
    requires forall i :: 0 <= i < n ==> f(i) == c
    ensures Sum(n, f) == n * c
  {
    if n > 0 {
      SumConst(n - 1, c, f);
      assert n * c == (n - 1) * c + c;
    }
  }

  /** A sum with a single non-zero term. */
  lemma {:induction false} SumSingle(n: nat, k: nat, f: int -> int)
    requires k < n
    requires forall i :: 0 <= i < n && i != k ==> f(i) == 0
    ensures Sum(n, f) == f(k)
  {
    if k == n - 1 {
      SumZero(n - 1, f);
    } else {
      SumSingle(n - 1, k, f);
    }
  }

  lemma {:induction false} SumSplit(m: nat, n: nat, f: int -> int, g: int -> int)
    requires forall i :: 0 <= i < n ==> g(i) == f(m + i)
    ensures Sum(m + n, f) == Sum(m, f) + Sum(n, g)
  {
    if n > 0 {
      SumSplit(m, n - 1, f, g);
    }
  }

  lemma {:induction false} SumBound(n: nat, f: int -> int, b: int)
    requires forall i :: 0 <= i < n ==> -b <= f(i) <= b
    ensures -(n * b) <= Sum(n, f) <= n * b
  {
    if n > 0 {
      SumBound(n - 1, f, b);
      assert n * b == (n - 1) * b + b;
    }
  }

  // ---------------------------------------------------------------- double sums

  function Row(f: (int, int) -> int, i: int): int -> int {
    j => f(i, j)
  }

  function Col(f: (int, int) -> int, j: int): int -> int {
    i => f(i, j)
  }

  /** Summing an m by n table by rows or by columns gives the same total. */
  lemma {:induction false} SumSwap(m: nat, n: nat, f: (int, int) -> int, rows: int -> int, cols: int -> int)
    requires forall i :: 0 <= i < m ==> rows(i) == Sum(n, Row(f, i))
    requires forall j :: 0 <= j < n ==> cols(j) == Sum(m, Col(f, j))
    ensures Sum(m, rows) == Sum(n, cols)
  {
    if m == 0 {
      SumZero(n, cols);
    } else {
      var head := j => Sum(m - 1, Col(f, j));
      SumSwap(m - 1, n, f, rows, head);
      SumAdd(n, head, Row(f, m - 1), cols);
    }
  }

  // ---------------------------------------------------------------- reindexing

  /** p maps 0..n injectively into 0..n (and is therefore a permutation of it). */
  ghost predicate Permutes(p: int -> int, n: nat) {
    && (forall i :: 0 <= i < n ==> 0 <= p(i) < n)
    && (forall i, j :: 0 <= i < n && 0 <= j < n && p(i) == p(j) ==> i == j)
  }

  ghost function Range(n: nat): (s: set<int>)
    ensures forall i :: i in s <==> 0 <= i < n
    ensures |s| == n
  {
    if n == 0 then {} else Range(n - 1) + {n - 1}
  }

  ghost function Image(p: int -> int, n: nat): (s: set<int>)
    ensures forall y :: y in s <==> exists i :: 0 <= i < n && p(i) == y
  {
    set i | 0 <= i < n :: p(i)
  }

  lemma {:induction false} ImageSize(p: int -> int, n: nat, k: nat)
    requires Permutes(p, n) && k <= n
    ensures |Image(p, k)| == k
  {
    if k == 0 {
      assert Image(p, 0) == {};
    } else {
      ImageSize(p, n, k - 1);
      assert Image(p, k) == Image(p, k - 1) + {p(k - 1)};
      assert p(k - 1) !in Image(p, k - 1);
    }
  }

  lemma SubsetSameSize(a: set<int>, b: set<int>)
    requires a <= b && |a| == |b|
    ensures a == b
  {
    assert b == a + (b - a);
    assert |b| == |a| + |b - a|;
  }

  /** An injective self-map of a finite range is onto. */
  lemma PermutesOnto(p: int -> int, n: nat, y: int) returns (i: int)
    requires Permutes(p, n)
    requires 0 <= y < n
    ensures 0 <= i < n && p(i) == y
  {
    ImageSize(p, n, n);
    assert Image(p, n) <= Range(n);
    SubsetSameSize(Image(p, n), Range(n));
    assert y in Image(p, n);
    i :| 0 <= i < n && p(i) == y;
  }


  /** Permuting the index of a sum does not change it: both sides equal the double sum over the graph of p. */
  lemma SumReindex(n: nat, f: int -> int, p: int -> int, h: int -> int)
    requires Permutes(p, n)
    requires forall i :: 0 <= i < n ==> h(i) == f(p(i))
    ensures Sum(n, f) == Sum(n, h)
  {
    var g := (i: int, y: int) => if p(i) == y then f(y) else 0;
    forall i | 0 <= i < n
      ensures h(i) == Sum(n, Row(g, i))
    {
      SumSingle(n, p(i), Row(g, i));
    }
    forall y | 0 <= y < n
      ensures f(y) == Sum(n, Col(g, y))
    {
      var k := PermutesOnto(p, n, y);
      SumSingle(n, k, Col(g, y));
    }
    SumSwap(n, n, g, h, f);
  }
}
