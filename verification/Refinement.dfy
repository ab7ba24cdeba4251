/** What the online loop computes, in terms of ring elements: the slab holds transforms of the digits and of
 *  the stored elements, and the buffer ends as the transform of the b-half of the reply.
 */
module Refinement {
  import opened Arith
  import opened Sums
  import opened Negacyclic
  import opened GaloisGroup
  import opened Ntt
  import opened OnlineLoop
  import opened PhaseSplit

  /** The value of a ring element in slot j. */
  function Slot(r: Root, a: Elem, j: int): int
    requires r.N > 0 && |a| > 0
  {
    Eval(r, a, 2 * j + 1)
  }

  /** The N values from start on are the transform of a, up to multiples of p. */
  ghost predicate Holds(r: Root, values: seq<int>, start: int, a: Elem) {
    && r.N == |a| > 0 && 0 <= start && start + r.N <= |values|
    && forall j :: 0 <= j < r.N ==> Cong(values[start + j], Slot(r, a, j), r.p)
  }

  /** A query together with the database: iteration k of the slab holds the digits and the stored element. */
  ghost predicate Loaded(r: Root, inp: Inputs, stored: seq<Elem>, digits: seq<Pair>, keyB: Pair, qryB: Elem) {
    && r.N > 0 && |digits| == |stored| && keyB.Size(r.N) && |qryB| == r.N
    && (forall i :: 0 <= i < |stored| ==> |stored[i]| == r.N)
    && (forall i :: 0 <= i < |digits| ==> digits[i].Size(r.N))
    && |inp.gk0| == |inp.gk1| == |inp.qry| == r.N
    && |inp.inner0| == |inp.inner1| == |inp.entries|
    && Holds(r, inp.gk0, 0, keyB.d0) && Holds(r, inp.gk1, 0, keyB.d1) && Holds(r, inp.qry, 0, qryB)
    && forall k :: 0 <= k < |stored| ==> HoldsAt(r, inp, k, stored[k], digits[k])
  }

  ghost predicate HoldsAt(r: Root, inp: Inputs, k: int, te: Elem, d: Pair) {
    && Holds(r, inp.inner0, Offset(k, r.N), d.d0)
    && Holds(r, inp.inner1, Offset(k, r.N), d.d1)
    && Holds(r, inp.entries, Offset(k, r.N), te)
  }

  /** Slot j of a transform moves by multiplying its exponent with u. */
  function SlotTable(N: nat, u: int): (t: seq<nat>)
    requires N > 0 && u % 2 == 1
    ensures |t| == N
    ensures forall j :: 0 <= j < N ==> t[j] == SlotOf(N, u, j) < N
  {
    assert forall j {:trigger SlotOf(N, u, j)} :: 0 <= SlotOf(N, u, j) < N by {
      forall j
        ensures 0 <= SlotOf(N, u, j) < N
      {
        SlotExponent(N, u, j);
      }
    }
    seq(N, j requires 0 <= j < N => SlotOf(N, u, j))
  }

  /** galois_lookup_table multiplies exponents by the inverse of the generator; reading the old buffer
   *  multiplies by the generator itself. */
  lemma LookupTable(N: nat, g: int, h: int)
    requires N > 0 && Inverse(g, h, N)
    requires g % 2 == 1 && h % 2 == 1
    ensures Lookup(N, SlotTable(N, h), SlotTable(N, g))
    ensures Permutes(SlotMap(N, h), N)
  {
    hide SlotOf;
    var table, back := SlotTable(N, h), SlotTable(N, g);
    InverseSym(g, h, N);
    SlotMapPermutes(N, h, g);
    forall i, j | 0 <= i < N && 0 <= j < N && table[i] == table[j]
      ensures i == j
    {
      assert SlotMap(N, h)(i) == SlotMap(N, h)(j);
    }
    forall i, j | 0 <= i < N && 0 <= j < N && back[j] == i
      ensures table[i] == j
    {
      SlotInverse(N, h, g, j);
    }
  }

  lemma HoldsSlot(r: Root, values: seq<int>, start: int, a: Elem, j: int)
    requires Holds(r, values, start, a)
    requires 0 <= j < r.N
    ensures 0 <= start + j < |values|
    ensures Cong(values[start + j], Slot(r, a, j), r.p)
  {
    assert Cong(values[start + j], Slot(r, a, j), r.p);
  }

  /** The three products of one slot are the values of the three ring products. */
  lemma TermValue(r: Root, inp: Inputs, k: nat, te: Elem, d: Pair, keyB: Pair, qryB: Elem, j: nat)
    requires r.Valid() && r.N > 0
    requires d.Size(r.N) && keyB.Size(r.N) && |te| == |qryB| == r.N
    requires |inp.gk0| == |inp.gk1| == |inp.qry| == r.N
    requires |inp.inner0| == |inp.inner1| == |inp.entries|
    requires Holds(r, inp.gk0, 0, keyB.d0) && Holds(r, inp.gk1, 0, keyB.d1) && Holds(r, inp.qry, 0, qryB)
    requires HoldsAt(r, inp, k, te, d)
    requires j < r.N
    ensures Cong(inp.Term(Offset(k, r.N) + j, j), Slot(r, Add(Inner(d, keyB), Mul(te, qryB)), j), r.p)
  {
    hide Cong, Eval, Slot, Mul, Holds, Inputs.Term, Offset, Inner, Root.Valid;
    TermIs(inp, Offset(k, r.N) + j, j, r, te, d, k);
    var x := Offset(k, r.N) + j;
    HoldsSlot(r, inp.gk0, 0, keyB.d0, j);
    HoldsSlot(r, inp.gk1, 0, keyB.d1, j);
    HoldsSlot(r, inp.qry, 0, qryB, j);
    ProductValue(r, d.d0, keyB.d0, inp.inner0[x], inp.gk0[j], j);
    ProductValue(r, d.d1, keyB.d1, inp.inner1[x], inp.gk1[j], j);
    ProductValue(r, te, qryB, inp.entries[x], inp.qry[j], j);
    CongAdd(inp.inner0[x] * inp.gk0[j], Slot(r, Mul(d.d0, keyB.d0), j),
            inp.inner1[x] * inp.gk1[j], Slot(r, Mul(d.d1, keyB.d1), j), r.p);
    CongAdd(inp.inner0[x] * inp.gk0[j] + inp.inner1[x] * inp.gk1[j],
            Slot(r, Mul(d.d0, keyB.d0), j) + Slot(r, Mul(d.d1, keyB.d1), j),
            inp.entries[x] * inp.qry[j], Slot(r, Mul(te, qryB), j), r.p);
    SlotSum(r, d, keyB, te, qryB, j);
  }

  lemma TermIs(inp: Inputs, x: int, j: int, r: Root, te: Elem, d: Pair, k: int)
    requires |inp.gk0| == |inp.gk1| == |inp.qry| == r.N
    requires |inp.inner0| == |inp.inner1| == |inp.entries|
    requires HoldsAt(r, inp, k, te, d)
    requires 0 <= j < r.N && x == Offset(k, r.N) + j
    ensures 0 <= x < |inp.inner0|
    ensures inp.Term(x, j) == inp.inner0[x] * inp.gk0[j] + inp.inner1[x] * inp.gk1[j] + inp.entries[x] * inp.qry[j]
    ensures Cong(inp.inner0[x], Slot(r, d.d0, j), r.p)
    ensures Cong(inp.inner1[x], Slot(r, d.d1, j), r.p)
    ensures Cong(inp.entries[x], Slot(r, te, j), r.p)
  {
    hide Cong, Eval, Slot, Offset;
    HoldsSlot(r, inp.inner0, Offset(k, r.N), d.d0, j);
    HoldsSlot(r, inp.inner1, Offset(k, r.N), d.d1, j);
    HoldsSlot(r, inp.entries, Offset(k, r.N), te, j);
  }

  lemma ProductValue(r: Root, a: Elem, b: Elem, x: int, y: int, j: int)
    requires r.Valid() && r.N == |a| == |b|
    requires Cong(x, Slot(r, a, j), r.p) && Cong(y, Slot(r, b, j), r.p)
    ensures Cong(x * y, Slot(r, Mul(a, b), j), r.p)
  {
    hide Cong, Eval, Mul;
    EvalMul(r, a, b, 2 * j + 1);
    CongMul(x, Slot(r, a, j), y, Slot(r, b, j), r.p);
    CongSym(Slot(r, Mul(a, b), j), Slot(r, a, j) * Slot(r, b, j), r.p);
    CongTrans(x * y, Slot(r, a, j) * Slot(r, b, j), Slot(r, Mul(a, b), j), r.p);
  }

  lemma SlotSum(r: Root, d: Pair, keyB: Pair, te: Elem, qryB: Elem, j: int)
    requires r.N == |te| == |qryB| > 0 && d.Size(r.N) && keyB.Size(r.N)
    ensures Slot(r, Add(Inner(d, keyB), Mul(te, qryB)), j)
            == Slot(r, Mul(d.d0, keyB.d0), j) + Slot(r, Mul(d.d1, keyB.d1), j) + Slot(r, Mul(te, qryB), j)
  {
    hide Eval, Mul;
    EvalAdd(r, Mul(d.d0, keyB.d0), Mul(d.d1, keyB.d1), 2 * j + 1);
    EvalAdd(r, Inner(d, keyB), Mul(te, qryB), 2 * j + 1);
  }

  /** Rotating a ring element moves its values between slots. */
  lemma RotatedSlot(r: Root, b: Elem, g: int, h: int, j: nat)
    requires r.N == |b| > 0 && Inverse(g, h, r.N) && j < r.N
    requires g % 2 == 1
    ensures 0 <= SlotOf(r.N, g, j) < r.N
    ensures Slot(r, Galois(b, h), j) == Slot(r, b, SlotOf(r.N, g, j))
  {
    hide Cong, Eval, Galois, SlotOf, Inverse;
    var i := SlotOf(r.N, g, j);
    SlotExponent(r.N, g, j);
    OddFactor(j);
    EvalGalois(r, b, g, h, 2 * j + 1);
    EvalCong(r, b, 2 * i + 1, g * (2 * j + 1));
  }

  /** Slot by slot, the recurrence of the loop is the b-half of the reply. */
  lemma {:induction false} RecurrenceIsPartB(r: Root, inp: Inputs, g: int, h: int, stored: seq<Elem>,
                                             digits: seq<Pair>, keyB: Pair, qryB: Elem, k: nat, j: nat)
    requires r.Valid() && Inverse(g, h, r.N) && g % 2 == 1
    requires Loaded(r, inp, stored, digits, keyB, qryB)
    requires k <= |stored| && j < r.N
    ensures Cong(Recurrence(inp, r.N, SlotTable(r.N, g), k)[j],
                 Slot(r, PartB(r.N, h, stored[..k], digits[..k], keyB, qryB), j), r.p)
    decreases k
  {
    hide Cong, Eval, Mul, Holds, HoldsAt, Root.Valid, Inner, Galois, Slot, SlotOf, Inputs.Term, StepB;
    if k == 0 {
      ZeroSlot(r, j);
    } else {
      var back := SlotTable(r.N, g);
      var b := PartB(r.N, h, stored[..k - 1], digits[..k - 1], keyB, qryB);
      RecurrenceIsPartB(r, inp, g, h, stored, digits, keyB, qryB, k - 1, back[j]);
      PartBStep(r.N, h, stored, digits, keyB, qryB, k);
      RotatedSlot(r, b, g, h, j);
      assert HoldsAt(r, inp, k - 1, stored[k - 1], digits[k - 1]);
      TermValue(r, inp, k - 1, stored[k - 1], digits[k - 1], keyB, qryB, j);
      SlotOfStep(r, h, digits[k - 1], keyB, stored[k - 1], qryB, b, j);
      RecurrenceStep(inp, r.N, back, k - 1, j);
      CongAdd(Recurrence(inp, r.N, back, k - 1)[back[j]], Slot(r, b, back[j]),
              inp.Term(Offset(k - 1, r.N) + j, j),
              Slot(r, Add(Inner(digits[k - 1], keyB), Mul(stored[k - 1], qryB)), j), r.p);
    }
  }

  lemma ZeroSlot(r: Root, j: nat)
    requires r.N > 0 && j < r.N
    ensures Cong(0, Slot(r, Zero(r.N), j), r.p)
  {
    hide W;
    SumConst(r.N, 0, EvalTerm(r, Zero(r.N), 2 * j + 1));
    CongRefl(0, r.p);
  }

  lemma PartBStep(N: nat, h: int, stored: seq<Elem>, digits: seq<Pair>, keyB: Pair, qryB: Elem, k: nat)
    requires N > 0 && |stored| == |digits| && keyB.Size(N) && |qryB| == N
    requires forall i :: 0 <= i < |stored| ==> |stored[i]| == N
    requires forall i :: 0 <= i < |digits| ==> digits[i].Size(N)
    requires 0 < k <= |stored|
    ensures PartB(N, h, stored[..k], digits[..k], keyB, qryB)
            == StepB(h, digits[k - 1], keyB, stored[k - 1], qryB, PartB(N, h, stored[..k - 1], digits[..k - 1], keyB, qryB))
  {
    hide StepB;
    assert stored[..k][..k - 1] == stored[..k - 1];
    assert digits[..k][..k - 1] == digits[..k - 1];
  }

  lemma SlotOfStep(r: Root, h: int, d: Pair, keyB: Pair, te: Elem, qryB: Elem, b: Elem, j: int)
    requires r.N == |te| == |qryB| == |b| > 0 && d.Size(r.N) && keyB.Size(r.N)
    ensures Slot(r, StepB(h, d, keyB, te, qryB, b), j)
            == Slot(r, Galois(b, h), j) + Slot(r, Add(Inner(d, keyB), Mul(te, qryB)), j)
  {
    hide Eval, Mul, Galois, Inner;
    EvalAdd(r, Inner(d, keyB), Galois(b, h), 2 * j + 1);
    EvalAdd(r, Add(Inner(d, keyB), Galois(b, h)), Mul(te, qryB), 2 * j + 1);
    EvalAdd(r, Inner(d, keyB), Mul(te, qryB), 2 * j + 1);
  }
}
