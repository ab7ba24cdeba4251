/** Why the answer to a query is the requested entry: the layout of a shard and the Horner loop over it,
 *  both stated on plaintext ring elements.
 */
module Retrieval {
  import opened Arith
  import opened Sums
  import opened Negacyclic
  import opened GaloisGroup

  /** l entries, each a ring element with N coefficients. */
  ghost predicate Entries(g: IndexGroup, entries: seq<Elem>) {
    |entries| == g.l && forall j :: 0 <= j < |entries| ==> |entries[j]| == g.N
  }

  /** Coefficient c of entry j, at any position. */
  function EntryAt(entries: seq<Elem>, j: int, c: int): int {
    if 0 <= j < |entries| && |entries[j]| > 0 then At(entries[j], c) else 0
  }

  /** The summands of coefficient c of the transformed entry at exponent e. */
  function HatTerm(g: IndexGroup, entries: seq<Elem>, e: int, c: int): int -> int
    requires g.LoopLen() > 0
  {
    j => EntryAt(entries, j, c + g.QueryBasePower() * e * j)
  }

  /** The entries read as a polynomial in zeta_(4L) = X^QueryBasePower() and evaluated at zeta_(4L)^(-e). */
  function Hat(g: IndexGroup, entries: seq<Elem>, e: int): (r: Elem)
    requires g.LoopLen() > 0
    ensures |r| == g.N
  {
    seq(g.N, c requires 0 <= c => Sum(|entries|, HatTerm(g, entries, e, c)))
  }

  /** What the shard stores for group element number k (of the main or of the conjugated half): the
   *  transformed entry, rotated back by 5^k, scaled by the inverse of l and reduced to the centred
   *  representatives modulo t. */
  function StoredElement(g: IndexGroup, t: int, invL: int, entries: seq<Elem>, conj: bool, k: nat): (r: Elem)
    requires g.LoopLen() > 0 && g.N > 0
    requires t > 0 && t % 2 == 1
    ensures |r| == g.N
  {
    var hat := Hat(g, entries, g.Element(if conj then g.LoopLen() + k else k));
    CenterAll(t, Scale(invL, Galois(hat, Pow(5, k))))
  }

  function CenterAll(t: int, a: Elem): (r: Elem)
    requires t > 0 && t % 2 == 1
    ensures |r| == |a|
    ensures ElemCong(r, a, t)
  {
    seq(|a|, i requires 0 <= i < |a| => Centered(a[i], t))
  }

  /** The stored elements in the order in which the loop reads them: last power of 5 first. */
  function Stored(g: IndexGroup, t: int, invL: int, entries: seq<Elem>, conj: bool): (r: seq<Elem>)
    requires g.LoopLen() > 0 && g.N > 0
    requires t > 0 && t % 2 == 1
    ensures |r| == g.LoopLen()
    ensures forall i :: 0 <= i < |r| ==> |r[i]| == g.N
  {
    seq(g.LoopLen(), i requires 0 <= i < g.LoopLen() => StoredElement(g, t, invL, entries, conj, g.LoopLen() - 1 - i))
  }

  /** The evaluation loop on plaintexts: rotate the accumulator by 5 and add the next stored element
   *  times the query monomial X^e. The parameter h is the inverse of 5 modulo 2N. */
  function Horner(N: nat, h: int, stored: seq<Elem>, e: int): (r: Elem)
    requires N > 0
    requires forall i :: 0 <= i < |stored| ==> |stored[i]| == N
    ensures |r| == N
  {
    if stored == [] then Zero(N)
    else
      var n := |stored| - 1;
      Add(Galois(Horner(N, h, stored[..n], e), h), Shift(stored[n], e))
  }

  // ------------------------------------------------------------------ the loop unrolled

  function HornerTerm(h: int, stored: seq<Elem>, e: int, c: int): int -> int {
    i => if 0 <= i < |stored| && |stored[i]| > 0 then At(stored[i], Pow(h, |stored| - 1 - i) * c - e) else 0
  }

  lemma {:induction false} HornerUnrolled(N: nat, h: int, stored: seq<Elem>, e: int, c: int)
    requires N > 0 && h % 2 == 1
    requires forall i :: 0 <= i < |stored| ==> |stored[i]| == N
    ensures At(Horner(N, h, stored, e), c) == Sum(|stored|, HornerTerm(h, stored, e, c))
    decreases |stored|
  {
    hide At, Galois, Shift, Pow, HornerTerm;
    if stored == [] {
      AtZero(N, c);
    } else {
      var n := |stored| - 1;
      var init := stored[..n];
      var acc := Horner(N, h, init, e);
      HornerUnrolled(N, h, init, e, h * c);
      AtAdd(Galois(acc, h), Shift(stored[n], e), c);
      AtGalois(acc, h, c);
      AtShift(stored[n], e, c);
      forall i | 0 <= i < n
        ensures HornerTerm(h, init, e, h * c)(i) == HornerTerm(h, stored, e, c)(i)
      {
        HornerTermAt(h, init, e, h * c, i);
        HornerTermAt(h, stored, e, c, i);
        NextPower(h, n - 1 - i, c);
      }
      SumExt(n, HornerTerm(h, init, e, h * c), HornerTerm(h, stored, e, c));
      FirstPower(h, c);
      HornerTermAt(h, stored, e, c, n);
    }
  }

  lemma HornerTermAt(h: int, stored: seq<Elem>, e: int, c: int, i: nat)
    requires i < |stored| && |stored[i]| > 0
    ensures HornerTerm(h, stored, e, c)(i) == At(stored[i], Pow(h, |stored| - 1 - i) * c - e)
  {
    hide At, Pow;
  }

  lemma NextPower(h: int, k: nat, c: int)
    ensures Pow(h, k) * (h * c) == Pow(h, k + 1) * c
  {
    SwapInner(h, Pow(h, k), c);
  }

  lemma FirstPower(h: int, c: int)
    ensures Pow(h, 0) * c == c
  {
  }

  // ------------------------------------------------------------- transformed entries

  lemma AtHat(g: IndexGroup, entries: seq<Elem>, e: int, c: int)
    requires g.LoopLen() > 0 && g.N > 0
    requires Entries(g, entries)
    ensures At(Hat(g, entries, e), c) == Sum(g.l, HatTerm(g, entries, e, c))
  {
    var j, k := Split(c, g.N);
    var hat := Hat(g, entries, e);
    AtTurns(hat, j, k);
    var f, f' := HatTerm(g, entries, e, j), HatTerm(g, entries, e, c);
    forall i | 0 <= i < g.l
      ensures f'(i) == Signed(k, f(i))
    {
      var x := g.QueryBasePower() * e * i;
      AtTurns(entries[i], j + x, k);
      assert j + x + k * g.N == c + x;
    }
    if k % 2 == 0 {
      SumExt(g.l, f, f');
    } else {
      SumScale(g.l, -1, f, f');
    }
  }

  // ---------------------------------------------------------------------- retrieval

  /** The contribution of group element i to coefficient c of the answer, before scaling. */
  function AnswerTerm(g: IndexGroup, entries: seq<Elem>, idx: int, c: int): int -> int
    requires g.LoopLen() > 0
  {
    i => if i < 0 then 0 else Sum(g.l, HatTerm(g, entries, g.Element(i), c - g.QueryBasePower() * g.Element(i) * idx))
  }

  /** Adding the transformed entries over the whole group, each times its power of the query, leaves
   *  l times the requested entry. */
  lemma AnswerSum(g: IndexGroup, m: nat, entries: seq<Elem>, idx: nat, c: int)
    requires g.Layout(m) && g.N > 0
    requires Entries(g, entries)
    requires idx < g.l
    ensures Sum(g.l, AnswerTerm(g, entries, idx, c)) == g.l * At(entries[idx], c)
  {
    hide AnswerTerm, AnswerTable, At, IndexGroup.QueryBasePower, IndexGroup.Element;
    var f := AnswerTable(g, entries, idx, c);
    var cols := j => if j == idx then g.l * At(entries[idx], c) else 0;
    forall i | 0 <= i < g.l
      ensures AnswerTerm(g, entries, idx, c)(i) == Sum(g.l, Row(f, i))
    {
      AnswerRow(g, entries, idx, c, i);
    }
    forall j | 0 <= j < g.l
      ensures cols(j) == Sum(g.l, Col(f, j))
    {
      AnswerColumn(g, m, entries, idx, c, j);
    }
    SumSwap(g.l, g.l, f, AnswerTerm(g, entries, idx, c), cols);
    SumSingle(g.l, idx, cols);
  }

  /** Entry j shifted by the i-th group element times (idx - j). */
  function AnswerTable(g: IndexGroup, entries: seq<Elem>, idx: int, c: int): (int, int) -> int
    requires g.LoopLen() > 0
  {
    (i, j) => if i < 0 then 0 else EntryAt(entries, j, c - g.QueryBasePower() * g.Element(i) * (idx - j))
  }

  lemma AnswerRow(g: IndexGroup, entries: seq<Elem>, idx: int, c: int, i: nat)
    requires g.LoopLen() > 0
    ensures AnswerTerm(g, entries, idx, c)(i) == Sum(g.l, Row(AnswerTable(g, entries, idx, c), i))
  {
    hide At, IndexGroup.QueryBasePower, IndexGroup.Element;
    var x := g.QueryBasePower() * g.Element(i);
    var r, s := HatTerm(g, entries, g.Element(i), c - x * idx), Row(AnswerTable(g, entries, idx, c), i);
    forall j | 0 <= j < g.l
      ensures r(j) == s(j)
    {
      SplitDifference(x, idx, j);
    }
    SumExt(g.l, r, s);
  }

  lemma AnswerColumn(g: IndexGroup, m: nat, entries: seq<Elem>, idx: nat, c: int, j: nat)
    requires g.Layout(m) && g.N > 0
    requires Entries(g, entries)
    requires idx < g.l && j < g.l
    ensures Sum(g.l, Col(AnswerTable(g, entries, idx, c), j)) == if j == idx then g.l * At(entries[idx], c) else 0
  {
    hide At, IndexGroup.Element;
    var f := Col(AnswerTable(g, entries, idx, c), j);
    forall i: nat | i < g.l
      ensures f(i) == At(entries[j], c - g.QueryBasePower() * g.Element(i) * (idx - j))
    {
      var x := c - g.QueryBasePower() * g.Element(i) * (idx - j);
      assert f(i) == AnswerTable(g, entries, idx, c)(i, j);
      assert AnswerTable(g, entries, idx, c)(i, j) == EntryAt(entries, j, x);
    }
    GroupOrthogonality(g, m, entries[j], c, idx - j, f);
  }

  lemma SplitDifference(x: int, i: int, j: int)
    ensures x * (i - j) == x * i - x * j
  {
  }

  /** The k-th power of 5 in the main half, its negative in the conjugated half. */
  lemma ElementOfHalf(g: IndexGroup, conj: bool, k: nat)
    requires k < g.LoopLen()
    ensures g.Element(if conj then g.LoopLen() + k else k) == if conj then -Pow(5, k) else Pow(5, k)
  {
  }

  /** One term of the unrolled loop: undoing the rotation turns the query monomial X^e into X^(5^k e). */
  lemma StoredTerm(g: IndexGroup, t: int, invL: int, entries: seq<Elem>, conj: bool, k: nat, h: int, c: int, e: int)
    requires g.LoopLen() > 0 && g.N > 0 && t > 0 && t % 2 == 1
    requires Entries(g, entries)
    requires Inverse(5, h, g.N)
    ensures var i := if conj then g.LoopLen() + k else k;
            Cong(At(StoredElement(g, t, invL, entries, conj, k), Pow(h, k) * c - e),
                 invL * At(Hat(g, entries, g.Element(i)), c - Pow(5, k) * e), t)
  {
    hide Cong, Hat, Pow, At;
    var hat := Hat(g, entries, g.Element(if conj then g.LoopLen() + k else k));
    var x := Pow(h, k) * c - e;
    AtElemCong(StoredElement(g, t, invL, entries, conj, k), Scale(invL, Galois(hat, Pow(5, k))), x, t);
    AtScale(invL, Galois(hat, Pow(5, k)), x);
    FiveOddResidue(k);
    AtGalois(hat, Pow(5, k), x);
    RotateBack(g.N, h, k, c, e);
    AtCong(hat, Pow(5, k) * x, c - Pow(5, k) * e);
  }

  lemma RotateBack(n: nat, h: int, k: nat, c: int, e: int)
    requires n > 0
    requires Inverse(5, h, n)
    ensures Cong(Pow(5, k) * (Pow(h, k) * c - e), c - Pow(5, k) * e, 2 * n)
  {
    var u, v := Pow(5, k), Pow(h, k);
    PowDistribute(5, h, k);
    PowCong(5 * h, 1, k, 2 * n);
    PowOne(k);
    hide Pow;
    CongScale(c, u * v, 1, 2 * n);
    CongRefl(u * e, 2 * n);
    CongAdd((u * v) * c, c, u * e, u * e, 2 * n);
    SplitDifference(u, v * c, e);
    TripleProduct(u, v, c);
  }

  /** The scaled contribution of group element number k of one half. */
  function HalfTarget(g: IndexGroup, invL: int, entries: seq<Elem>, conj: bool, idx: int, c: int, k: nat): int
    requires g.LoopLen() > 0
  {
    invL * AnswerTerm(g, entries, idx, c)(if conj then g.LoopLen() + k else k)
  }

  /** One half of the answer: the unrolled loop over one stored list. */
  lemma HalfAnswer(g: IndexGroup, m: nat, t: int, invL: int, entries: seq<Elem>, conj: bool, h: int,
                   idx: int, e: int, c: int, f: int -> int)
    requires g.Layout(m) && g.N > 0 && t > 0 && t % 2 == 1
    requires Entries(g, entries)
    requires Inverse(5, h, g.N)
    requires Cong(e, if conj then -(g.QueryBasePower() * idx) else g.QueryBasePower() * idx, 2 * g.N)
    requires forall k: nat :: k < g.LoopLen() ==> f(k) == HalfTarget(g, invL, entries, conj, idx, c, k)
    ensures Cong(At(Horner(g.N, h, Stored(g, t, invL, entries, conj), e), c), Sum(g.LoopLen(), f), t)
  {
    hide Cong, At, Pow, Pow2, HalfTarget, StoredElement, Horner, HornerTerm, Backwards, Entries, Inverse, IndexGroup.QueryBasePower, IndexGroup.Layout, IndexGroup.LoopLen;
    GroupHalves(g, m);
    var L := g.LoopLen();
    var stored := Stored(g, t, invL, entries, conj);
    InverseOdd(5, h, g.N);
    HornerUnrolled(g.N, h, stored, e, c);
    var terms := HornerTerm(h, stored, e, c);
    var u := Backwards(terms, L);
    SumBackwards(L, terms);
    forall k | 0 <= k < L
      ensures Cong(u(k), f(k), t)
    {
      HalfTerm(g, m, t, invL, entries, conj, h, idx, e, c, k);
      BackwardsAt(terms, L, k);
    }
    SumCong(L, u, f, t);
  }

  /** The terms of a sum in reverse order. */
  function Backwards(f: int -> int, n: int): int -> int {
    i => f(n - 1 - i)
  }

  lemma BackwardsAt(f: int -> int, n: int, i: int)
    ensures Backwards(f, n)(i) == f(n - 1 - i)
  {
  }

  lemma SumBackwards(n: nat, f: int -> int)
    ensures Sum(n, f) == Sum(n, Backwards(f, n))
  {
    SumReindex(n, f, i => n - 1 - i, Backwards(f, n));
  }

  lemma HalfTerm(g: IndexGroup, m: nat, t: int, invL: int, entries: seq<Elem>, conj: bool, h: int,
                 idx: int, e: int, c: int, k: nat)
    requires g.Layout(m) && g.N > 0 && t > 0 && t % 2 == 1
    requires Entries(g, entries)
    requires Inverse(5, h, g.N)
    requires Cong(e, if conj then -(g.QueryBasePower() * idx) else g.QueryBasePower() * idx, 2 * g.N)
    requires k < g.LoopLen()
    ensures Cong(HornerTerm(h, Stored(g, t, invL, entries, conj), e, c)(g.LoopLen() - 1 - k),
                 HalfTarget(g, invL, entries, conj, idx, c, k), t)
  {
    hide Cong, At, Pow, StoredElement, Hat, HatTerm, IndexGroup.QueryBasePower, IndexGroup.Element;
    var i := if conj then g.LoopLen() + k else k;
    var bp := g.QueryBasePower();
    StoredTerm(g, t, invL, entries, conj, k, h, c, e);
    AtHat(g, entries, g.Element(i), c - bp * g.Element(i) * idx);
    ElementOfHalf(g, conj, k);
    QueryExponent(conj, Pow(5, k), bp, idx, e, c, 2 * g.N);
    AtCong(Hat(g, entries, g.Element(i)), c - Pow(5, k) * e, c - bp * g.Element(i) * idx);
  }

  lemma QueryExponent(conj: bool, u: int, bp: int, idx: int, e: int, c: int, n: int)
    requires Cong(e, if conj then -(bp * idx) else bp * idx, n)
    ensures Cong(c - u * e, c - bp * (if conj then -u else u) * idx, n)
  {
    var x := if conj then -(bp * idx) else bp * idx;
    CongScale(u, e, x, n);
    CongRefl(c, n);
    CongAdd(c, c, u * e, u * x, n);
    assert u * (bp * idx) == bp * u * idx;
    assert bp * (-u) * idx == -(bp * u * idx);
    assert u * -(bp * idx) == -(u * (bp * idx));
  }

  /** The coefficient the client reads: the loop's result, plus the conjugated loop's where there is one. */
  function Answer(g: IndexGroup, h: int, stored: seq<Elem>, storedConj: seq<Elem>, idx: nat, c: int): int
    requires g.N > 0 && g.LoopLen() > 0
    requires forall i :: 0 <= i < |stored| ==> |stored[i]| == g.N
    requires forall i :: 0 <= i < |storedConj| ==> |storedConj[i]| == g.N
  {
    var e := idx * g.QueryBasePower();
    At(Horner(g.N, h, stored, e), c)
    + if g.RequiresConj() then At(Horner(g.N, h, storedConj, 2 * g.N - e), c) else 0
  }

  /** Retrieval: whatever the entries, the answer to query idx is entry idx modulo t. */
  lemma RetrievalIdentity(g: IndexGroup, m: nat, t: int, invL: int, entries: seq<Elem>, h: int, idx: nat, c: nat)
    requires g.Layout(m) && g.N > 0 && t > 0 && t % 2 == 1
    requires Entries(g, entries)
    requires Cong(invL * g.l, 1, t)
    requires Inverse(5, h, g.N)
    requires idx < g.l && c < g.N
    ensures Cong(Answer(g, h, Stored(g, t, invL, entries, false), Stored(g, t, invL, entries, true), idx, c),
                 entries[idx][c], t)
  {
    hide Cong, At, AnswerTerm, Stored, Horner, Answer;
    var answer := Answer(g, h, Stored(g, t, invL, entries, false), Stored(g, t, invL, entries, true), idx, c);
    var all := AnswerTerm(g, entries, idx, c);
    var whole := i => invL * all(i);
    AnswerHalves(g, m, t, invL, entries, h, idx, c, whole);
    SumScale(g.l, invL, all, whole);
    AnswerSum(g, m, entries, idx, c);
    var x := entries[idx][c];
    AtPlain(entries[idx], c);
    TripleProduct(invL, g.l, x);
    CongScale(x, invL * g.l, 1, t);
    CongTrans(answer, invL * (g.l * x), x, t);
  }

  lemma AnswerHalves(g: IndexGroup, m: nat, t: int, invL: int, entries: seq<Elem>, h: int, idx: nat, c: nat,
                     whole: int -> int)
    requires g.Layout(m) && g.N > 0 && t > 0 && t % 2 == 1
    requires Entries(g, entries)
    requires Inverse(5, h, g.N)
    requires forall i :: whole(i) == invL * AnswerTerm(g, entries, idx, c)(i)
    ensures Cong(Answer(g, h, Stored(g, t, invL, entries, false), Stored(g, t, invL, entries, true), idx, c),
                 Sum(g.l, whole), t)
  {
    hide Cong, At, AnswerTerm, Stored, Horner, IndexGroup.QueryBasePower, IndexGroup.Layout, IndexGroup.LoopLen, Pow2, Entries, Inverse;
    GroupHalves(g, m);
    var L := g.LoopLen();
    var e := idx * g.QueryBasePower();
    SwapProduct(idx, g.QueryBasePower());
    CongRefl(e, 2 * g.N);
    forall k: nat | k < L
      ensures whole(k) == HalfTarget(g, invL, entries, false, idx, c, k)
    {
    }
    HalfAnswer(g, m, t, invL, entries, false, h, idx, e, c, whole);
    if g.RequiresConj() {
      var tail := i => whole(L + i);
      ConjHalf(g, m, t, invL, entries, h, idx, e, c, whole, tail);
    }
  }

  lemma ConjHalf(g: IndexGroup, m: nat, t: int, invL: int, entries: seq<Elem>, h: int, idx: nat, e: int, c: nat,
                 whole: int -> int, tail: int -> int)
    requires g.Layout(m) && g.N > 0 && t > 0 && t % 2 == 1
    requires Entries(g, entries)
    requires Inverse(5, h, g.N)
    requires forall i :: whole(i) == invL * AnswerTerm(g, entries, idx, c)(i)
    requires forall i :: tail(i) == whole(g.LoopLen() + i)
    requires g.RequiresConj() && e == g.QueryBasePower() * idx
    requires Cong(At(Horner(g.N, h, Stored(g, t, invL, entries, false), e), c), Sum(g.LoopLen(), whole), t)
    ensures Cong(At(Horner(g.N, h, Stored(g, t, invL, entries, false), e), c)
                 + At(Horner(g.N, h, Stored(g, t, invL, entries, true), 2 * g.N - e), c), Sum(g.l, whole), t)
  {
    hide *;
    GroupHalves(g, m);
    var L := g.LoopLen();
    ConjTail(g, m, t, invL, entries, h, idx, e, c, whole, tail);
    SumSplit(L, L, whole, tail);
    CongAdd(At(Horner(g.N, h, Stored(g, t, invL, entries, false), e), c), Sum(L, whole),
            At(Horner(g.N, h, Stored(g, t, invL, entries, true), 2 * g.N - e), c), Sum(L, tail), t);
  }

  /** The conjugated loop alone: its exponent 2N - e stands for -e. */
  lemma ConjTail(g: IndexGroup, m: nat, t: int, invL: int, entries: seq<Elem>, h: int, idx: nat, e: int, c: nat,
                 whole: int -> int, tail: int -> int)
    requires g.Layout(m) && g.N > 0 && t > 0 && t % 2 == 1
    requires Entries(g, entries)
    requires Inverse(5, h, g.N)
    requires forall i :: whole(i) == invL * AnswerTerm(g, entries, idx, c)(i)
    requires forall i :: tail(i) == whole(g.LoopLen() + i)
    requires e == g.QueryBasePower() * idx
    ensures Cong(At(Horner(g.N, h, Stored(g, t, invL, entries, true), 2 * g.N - e), c), Sum(g.LoopLen(), tail), t)
  {
    hide Cong, At, AnswerTerm, Stored, Horner, IndexGroup.QueryBasePower, IndexGroup.Layout, IndexGroup.LoopLen, Pow2, Entries, Inverse;
    CongIntro(2 * g.N - e, -e, 1, 2 * g.N);
    forall k: nat | k < g.LoopLen()
      ensures tail(k) == HalfTarget(g, invL, entries, true, idx, c, k)
    {
    }
    HalfAnswer(g, m, t, invL, entries, true, h, idx, 2 * g.N - e, c, tail);
  }

  lemma GroupHalves(g: IndexGroup, m: nat)
    requires g.Layout(m)
    ensures g.LoopLen() > 0
    ensures g.l == if g.RequiresConj() then g.LoopLen() + g.LoopLen() else g.LoopLen()
  {
    hide IndexGroup.QueryBasePower;
  }
}
