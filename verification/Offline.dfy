/** partial_gal and preprocess_loop as the server runs them: on transforms, in both RNS components. */
module Offline {
  import opened Arith
  import opened Negacyclic
  import opened GaloisGroup
  import opened SpecialZn
  import opened Ntt
  import opened OnlineLoop
  import opened PhaseSplit
  import opened Refinement
  import G = Gadget

  /** An element of R_q by its transforms modulo q1 and modulo q2. */
  datatype Rns = Rns(x1: seq<int>, x2: seq<int>)

  /** The transforms of a, as representatives below 2p. */
  ghost predicate Represents(r1: Root, r2: Root, v: Rns, a: Elem) {
    && Holds(r1, v.x1, 0, a) && Holds(r2, v.x2, 0, a)
    && |v.x1| == |v.x2| == |a| == r1.N == r2.N
    && AllRepr(G.RING1, v.x1) && AllRepr(G.RING2, v.x2)
  }

  /** The two components' roots, the constants of the CRT and the generator. */
  datatype Setup = Setup(r1: Root, r2: Root, c1: int, c2: int, g: int, h: int) {
    ghost predicate Valid() {
      && r1.Valid() && r2.Valid() && r1.N == r2.N && r1.p == G.Q1 && r2.p == G.Q2
      && (exists n :: r1.N == Pow2(n))
      && G.RING1.Repr(c1) && G.RING2.Repr(c2)
      && Cong(c1 * G.Q2, 1, G.Q1) && Cong(c2 * G.Q1, 1, G.Q2)
      && Inverse(g, h, r1.N) && g % 2 == 1 && h % 2 == 1
    }
  }

  // -------------------------------------------------------------------- partial_gal

  /** The first loop of partial_gal for one component: slot i moves where the inverse generator takes it. */
  method ScatterGalois(r: Root, g: int, h: int, current: seq<int>, ghost a: Elem) returns (galResult: array<int>)
    requires r.Valid() && Inverse(g, h, r.N) && g % 2 == 1 && h % 2 == 1
    requires Holds(r, current, 0, a) && |current| == r.N
    ensures fresh(galResult) && galResult.Length == r.N
    ensures Holds(r, galResult[..], 0, Galois(a, h))
  {
    hide Cong, Slot, Galois, SlotOf, Lookup;
    LookupTable(r.N, g, h);
    var table := SlotTable(r.N, h);
    galResult := new int[r.N](_ => 0);
    LookupInjective(r.N, table, SlotTable(r.N, g));
    for i := 0 to r.N
      invariant forall x :: 0 <= x < i ==> galResult[table[x]] == current[x]
    {
      galResult[table[i]] := current[i];
    }
    Scattering(r, g, h, current, galResult[..], a);
  }

  lemma LookupInjective(N: nat, table: seq<nat>, back: seq<nat>)
    requires Lookup(N, table, back)
    ensures |table| == N && forall i, j :: 0 <= i < N && 0 <= j < N && table[i] == table[j] ==> i == j
  {
  }

  lemma LookupBack(N: nat, table: seq<nat>, back: seq<nat>, j: nat)
    requires Lookup(N, table, back) && j < N
    ensures |table| == |back| == N && back[j] < N && table[back[j]] == j
  {
  }

  lemma Scattering(r: Root, g: int, h: int, current: seq<int>, galResult: seq<int>, a: Elem)
    requires r.Valid() && Inverse(g, h, r.N) && g % 2 == 1 && h % 2 == 1
    requires Holds(r, current, 0, a) && |current| == |galResult| == r.N
    requires forall x :: 0 <= x < r.N ==> galResult[SlotTable(r.N, h)[x]] == current[x]
    ensures Holds(r, galResult, 0, Galois(a, h))
  {
    hide Cong, Slot, Galois, SlotOf, Lookup;
    LookupTable(r.N, g, h);
    forall j | 0 <= j < r.N
      ensures Cong(galResult[0 + j], Slot(r, Galois(a, h), j), r.p)
    {
      LookupBack(r.N, SlotTable(r.N, h), SlotTable(r.N, g), j);
      var i := SlotTable(r.N, g)[j];
      RotatedSlot(r, a, g, h, j);
      HoldsSlot(r, current, 0, a, i);
    }
  }

  /** Transforming back: the coefficients of the element, reduced modulo p. */
  method BackToCoefficients(r: Root, values: array<int>, ghost a: Elem)
    requires r.Valid() && exists n :: r.N == Pow2(n)
    requires Holds(r, values[..], 0, a) && values.Length == r.N
    modifies values
    ensures ElemCong(values[..], a, r.p)
    ensures forall i :: 0 <= i < values.Length ==> 0 <= values[i] < r.p
  {
    hide Cong, Pow2;
    ghost var was := values[..];
    InvWeightedNtt(r, values);
    InverseOfHeld(r, was, a);
    InvNttReduced(r, was);
  }

  lemma InvNttReduced(r: Root, v: Elem)
    requires r.p > 0 && r.N == |v| > 0
    ensures forall i :: 0 <= i < r.N ==> 0 <= InvNttOf(r, v)[i] < r.p
  {
  }

  lemma InverseOfHeld(r: Root, v: Elem, a: Elem)
    requires r.Valid() && exists n :: r.N == Pow2(n)
    requires Holds(r, v, 0, a) && |v| == r.N
    ensures ElemCong(InvNttOf(r, v), a, r.p)
  {
    hide Cong, Eval, InvNttOf, Pow2;
    forall j | 0 <= j < r.N
      ensures Cong(v[j], NttOf(r, a)[j], r.p)
    {
      HoldsSlot(r, v, 0, a, j);
      var e := Slot(r, a, j);
      CongSelf(e, r.p);
      CongSym(e % r.p, e, r.p);
      CongTrans(v[j], e, e % r.p, r.p);
    }
    InvNttElemCong(r, v, NttOf(r, a));
    NttRoundTrip(r, a);
    forall j | 0 <= j < r.N
      ensures Cong(InvNttOf(r, v)[j], a[j], r.p)
    {
      CongTrans(InvNttOf(r, v)[j], InvNttOf(r, NttOf(r, a))[j], a[j], r.p);
    }
  }

  /** The transform of values congruent to a holds a. */
  lemma TransformHolds(r: Root, v: Elem, a: Elem)
    requires r.Valid() && r.N == |v| && ElemCong(v, a, r.p)
    ensures Holds(r, NttOf(r, v), 0, a)
    ensures forall i :: 0 <= i < r.N ==> 0 <= NttOf(r, v)[i] < r.p
  {
    hide Cong, Eval;
    forall j | 0 <= j < r.N
      ensures Cong(NttOf(r, v)[0 + j], Slot(r, a, j), r.p)
    {
      EvalElemCong(r, v, a, 2 * j + 1);
      CongSelf(Slot(r, v, j), r.p);
      CongTrans(NttOf(r, v)[j], Slot(r, v, j), Slot(r, a, j), r.p);
    }
  }

  lemma ReducedIsRepr(z: Ring, v: seq<int>)
    requires forall i :: 0 <= i < |v| ==> 0 <= v[i] < z.Modulus()
    ensures AllRepr(z, v)
  {
  }

  /** The digits of one coefficient, reduced into both components. */
  ghost predicate DigitStored(y: int, s01: int, s02: int, s11: int, s12: int) {
    var lift := Centered(y, G.Q);
    && Cong(s01, G.LowPart(lift), G.Q1) && Cong(s02, G.LowPart(lift), G.Q2)
    && Cong(s11, G.LowPart(G.HighPart(lift)), G.Q1) && Cong(s12, G.LowPart(G.HighPart(lift)), G.Q2)
  }

  method DecomposeOne(c1: int, c2: int, x1: int, x2: int, ghost y: int)
    returns (s01: int, s02: int, s11: int, s12: int)
    requires G.RING1.Repr(x1) && G.RING2.Repr(x2) && G.RING1.Repr(c1) && G.RING2.Repr(c2)
    requires Cong(c1 * G.Q2, 1, G.Q1) && Cong(c2 * G.Q1, 1, G.Q2)
    requires Cong(x1, y, G.Q1) && Cong(x2, y, G.Q2)
    ensures DigitStored(y, s01, s02, s11, s12)
  {
    hide *;
    G.RingModuli();
    PositiveModuli();
    G.GadgetExact(x1, x2, c1, c2, y);
    var digits := G.Digits(x1, x2, c1, c2);
    s01, s02 := G.StoredDigit(G.RING1, digits.0), G.StoredDigit(G.RING2, digits.0);
    s11, s12 := G.StoredDigit(G.RING1, digits.1), G.StoredDigit(G.RING2, digits.1);
    G.StoredDigitLaw(digits.0);
    G.StoredDigitLaw(digits.1);
    DigitStoredIs(y, s01, s02, s11, s12);
  }

  lemma PositiveModuli()
    ensures G.RING1.Modulus() > 0 && G.RING2.Modulus() > 0
  {
    G.RingModuli();
  }

  lemma DigitStoredIs(y: int, s01: int, s02: int, s11: int, s12: int)
    requires Cong(s01, G.LowPart(Centered(y, G.Q)), G.Q1) && Cong(s02, G.LowPart(Centered(y, G.Q)), G.Q2)
    requires Cong(s11, G.LowPart(G.HighPart(Centered(y, G.Q))), G.Q1)
    requires Cong(s12, G.LowPart(G.HighPart(Centered(y, G.Q))), G.Q2)
    ensures DigitStored(y, s01, s02, s11, s12)
  {
  }

  /** The decomposition loop over all coefficients. */
  method Decompose(s: Setup, x1: array<int>, x2: array<int>, h: int, ghost a: Elem)
    returns (d01: array<int>, d02: array<int>, d11: array<int>, d12: array<int>)
    requires s.Valid() && |a| == s.r1.N
    requires ElemCong(x1[..], Galois(a, h), G.Q1) && ElemCong(x2[..], Galois(a, h), G.Q2)
    requires AllRepr(G.RING1, x1[..]) && AllRepr(G.RING2, x2[..])
    ensures fresh(d01) && fresh(d02) && fresh(d11) && fresh(d12)
    ensures d01 != d02 && d01 != d11 && d01 != d12 && d02 != d11 && d02 != d12 && d11 != d12
    ensures ElemCong(d01[..], DigitsOf(h, a).d0, G.Q1) && ElemCong(d02[..], DigitsOf(h, a).d0, G.Q2)
    ensures ElemCong(d11[..], DigitsOf(h, a).d1, G.Q1) && ElemCong(d12[..], DigitsOf(h, a).d1, G.Q2)
  {
    hide Cong, DigitStored, Galois, Inverse, Root.Valid, Pow2, G.LowPart, G.HighPart, Ring.Repr;
    ghost var y := Galois(a, h);
    ghost var v1, v2 := x1[..], x2[..];
    var n := s.r1.N;
    d01, d02, d11, d12 := new int[n](_ => 0), new int[n](_ => 0), new int[n](_ => 0), new int[n](_ => 0);
    for i := 0 to n
      invariant x1[..] == v1 && x2[..] == v2
      invariant forall x :: 0 <= x < i ==> DigitStored(y[x], d01[x], d02[x], d11[x], d12[x])
    {
      assert Cong(v1[i], y[i], G.Q1) && Cong(v2[i], y[i], G.Q2);
      assert G.RING1.Repr(v1[i]) && G.RING2.Repr(v2[i]);
      d01[i], d02[i], d11[i], d12[i] := DecomposeOne(s.c1, s.c2, x1[i], x2[i], y[i]);
    }
    DigitsStoredAll(h, a, d01[..], d02[..], d11[..], d12[..]);
  }

  lemma DigitsStoredAll(h: int, a: Elem, s01: seq<int>, s02: seq<int>, s11: seq<int>, s12: seq<int>)
    requires |a| > 0 && |s01| == |s02| == |s11| == |s12| == |a|
    requires forall x :: 0 <= x < |a| ==> DigitStored(Galois(a, h)[x], s01[x], s02[x], s11[x], s12[x])
    ensures ElemCong(s01, DigitsOf(h, a).d0, G.Q1) && ElemCong(s02, DigitsOf(h, a).d0, G.Q2)
    ensures ElemCong(s11, DigitsOf(h, a).d1, G.Q1) && ElemCong(s12, DigitsOf(h, a).d1, G.Q2)
  {
    hide Cong, Galois, G.LowPart, G.HighPart;
    forall x | 0 <= x < |a|
      ensures Cong(s01[x], DigitsOf(h, a).d0[x], G.Q1) && Cong(s02[x], DigitsOf(h, a).d0[x], G.Q2)
      ensures Cong(s11[x], DigitsOf(h, a).d1[x], G.Q1) && Cong(s12[x], DigitsOf(h, a).d1[x], G.Q2)
    {
      assert DigitStored(Galois(a, h)[x], s01[x], s02[x], s11[x], s12[x]);
    }
  }

  /** sum over k of d_k * gk_a_k, slot by slot. */
  method InnerProducts(z: Ring, r: Root, d0: seq<int>, d1: seq<int>, k0: seq<int>, k1: seq<int>,
                       ghost d: Pair, ghost key: Pair)
    returns (v: seq<int>)
    requires z.CheckInvariant() && r.Valid() && z.Modulus() == r.p
    requires |d0| == |d1| == |k0| == |k1| == r.N && d.Size(r.N) && key.Size(r.N)
    requires AllRepr(z, d0) && AllRepr(z, d1) && AllRepr(z, k0) && AllRepr(z, k1)
    requires Holds(r, d0, 0, d.d0) && Holds(r, d1, 0, d.d1) && Holds(r, k0, 0, key.d0) && Holds(r, k1, 0, key.d1)
    ensures |v| == r.N && AllRepr(z, v) && Holds(r, v, 0, Inner(d, key))
  {
    hide Cong, Slot, Inner, Holds, Ring.CheckInvariant, Ring.Repr, Root.Valid, Ring.MulOf, Total;
    RootPositive(r);
    v := [];
    for i := 0 to r.N
      invariant |v| == i
      invariant forall x :: 0 <= x < i ==> z.Repr(v[x])
      invariant forall x :: 0 <= x < i ==> Cong(v[x], Slot(r, Inner(d, key), x), r.p)
    {
      MulLaw(z, d0[i], k0[i]);
      MulLaw(z, d1[i], k1[i]);
      var products := [z.MulOf(d0[i], k0[i]), z.MulOf(d1[i], k1[i])];
      var total := SumAll(z, products);
      assert Total(products) == products[0] + products[1] by {
        TwoSummands(products);
      }
      InnerSlot(r, d0, d1, k0, k1, d, key, products[0], products[1], total, i);
      v := v + [total];
    }
    HoldsAll(r, v, Inner(d, key));
  }

  lemma TwoSummands(s: seq<int>)
    requires |s| == 2
    ensures Total(s) == s[0] + s[1]
  {
    var first := s[..1];
    assert first[..|first| - 1] == [] && first[0] == s[0];
    assert Total(first) == s[0];
    assert s[..|s| - 1] == first;
  }

  lemma HoldsAll(r: Root, v: seq<int>, a: Elem)
    requires r.N == |a| == |v| > 0
    requires forall x :: 0 <= x < r.N ==> Cong(v[x], Slot(r, a, x), r.p)
    ensures Holds(r, v, 0, a)
  {
    hide Cong, Slot;
  }

  lemma InnerSlot(r: Root, d0: seq<int>, d1: seq<int>, k0: seq<int>, k1: seq<int>, d: Pair, key: Pair,
                  x: int, y: int, total: int, i: nat)
    requires r.Valid() && i < r.N
    requires |d0| == |d1| == |k0| == |k1| == r.N && d.Size(r.N) && key.Size(r.N)
    requires Holds(r, d0, 0, d.d0) && Holds(r, d1, 0, d.d1) && Holds(r, k0, 0, key.d0) && Holds(r, k1, 0, key.d1)
    requires Cong(x, d0[i] * k0[i], r.p) && Cong(y, d1[i] * k1[i], r.p) && Cong(total, x + y, r.p)
    ensures Cong(total, Slot(r, Inner(d, key), i), r.p)
  {
    hide Cong, Eval, Holds, Mul, Root.Valid;
    HoldsSlot(r, d0, 0, d.d0, i);
    HoldsSlot(r, d1, 0, d.d1, i);
    HoldsSlot(r, k0, 0, key.d0, i);
    HoldsSlot(r, k1, 0, key.d1, i);
    ProductValue(r, d.d0, key.d0, d0[i], k0[i], i);
    ProductValue(r, d.d1, key.d1, d1[i], k1[i], i);
    EvalAdd(r, Mul(d.d0, key.d0), Mul(d.d1, key.d1), 2 * i + 1);
    var u, w := Slot(r, Mul(d.d0, key.d0), i), Slot(r, Mul(d.d1, key.d1), i);
    CongTrans(x, d0[i] * k0[i], u, r.p);
    CongTrans(y, d1[i] * k1[i], w, r.p);
    CongAdd(x, u, y, w, r.p);
    CongTrans(total, x + y, u + w, r.p);
  }

  /** gal + qry * te, slot by slot. */
  method AddProducts(z: Ring, r: Root, gal: seq<int>, qry: seq<int>, te: seq<int>, ghost a: Elem, ghost q: Elem, ghost e: Elem)
    returns (v: seq<int>)
    requires z.CheckInvariant() && r.Valid() && z.Modulus() == r.p
    requires |gal| == |qry| == |te| == |a| == |q| == |e| == r.N
    requires AllRepr(z, gal) && AllRepr(z, qry) && AllRepr(z, te)
    requires Holds(r, gal, 0, a) && Holds(r, qry, 0, q) && Holds(r, te, 0, e)
    ensures |v| == r.N && AllRepr(z, v) && Holds(r, v, 0, Add(a, Mul(e, q)))
  {
    hide Cong, Slot, Holds, Ring.CheckInvariant, Ring.Repr, Root.Valid, Ring.MulOf, Ring.AddOf, Mul;
    RootPositive(r);
    v := [];
    for i := 0 to r.N
      invariant |v| == i
      invariant forall x :: 0 <= x < i ==> z.Repr(v[x])
      invariant forall x :: 0 <= x < i ==> Cong(v[x], Slot(r, Add(a, Mul(e, q)), x), r.p)
    {
      MulLaw(z, qry[i], te[i]);
      var product := z.MulOf(qry[i], te[i]);
      AddLaw(z, gal[i], product);
      AddSlot(r, gal, qry, te, a, q, e, product, z.AddOf(gal[i], product), i);
      v := v + [z.AddOf(gal[i], product)];
    }
    HoldsAll(r, v, Add(a, Mul(e, q)));
  }

  lemma AddSlot(r: Root, gal: seq<int>, qry: seq<int>, te: seq<int>, a: Elem, q: Elem, e: Elem,
                product: int, total: int, i: nat)
    requires r.Valid() && i < r.N
    requires |gal| == |qry| == |te| == |a| == |q| == |e| == r.N
    requires Holds(r, gal, 0, a) && Holds(r, qry, 0, q) && Holds(r, te, 0, e)
    requires Cong(product, qry[i] * te[i], r.p) && Cong(total, gal[i] + product, r.p)
    ensures Cong(total, Slot(r, Add(a, Mul(e, q)), i), r.p)
  {
    hide Cong, Eval, Holds, Mul, Root.Valid;
    HoldsSlot(r, gal, 0, a, i);
    HoldsSlot(r, qry, 0, q, i);
    HoldsSlot(r, te, 0, e, i);
    ProductValue(r, e, q, te[i], qry[i], i);
    EvalAdd(r, a, Mul(e, q), 2 * i + 1);
    assert qry[i] * te[i] == te[i] * qry[i];
    CongTrans(product, qry[i] * te[i], Slot(r, Mul(e, q), i), r.p);
    CongAdd(gal[i], Slot(r, a, i), product, Slot(r, Mul(e, q), i), r.p);
    CongTrans(total, gal[i] + product, Slot(r, a, i) + Slot(r, Mul(e, q), i), r.p);
  }

  /** Transform of one stored digit vector. */
  method TransformDigits(z: Ring, r: Root, values: array<int>, ghost d: Elem) returns (v: seq<int>)
    requires r.Valid() && z.Modulus() == r.p && values.Length == r.N
    requires ElemCong(values[..], d, r.p)
    modifies values
    ensures |v| == r.N && Holds(r, v, 0, d) && AllRepr(z, v)
  {
    hide Cong, Eval;
    ghost var was := values[..];
    WeightedNtt(r, values);
    TransformHolds(r, was, d);
    v := values[..];
  }

  /** partial_gal: the a-half of the homomorphic automorphism and the digits used for it. */
  method PartialGal(s: Setup, current: Rns, gk0: Rns, gk1: Rns, ghost a: Elem, ghost keyA: Pair)
    returns (gal: Rns, d0: Rns, d1: Rns)
    requires s.Valid() && keyA.Size(s.r1.N) && |a| == s.r1.N
    requires Represents(s.r1, s.r2, current, a)
    requires Represents(s.r1, s.r2, gk0, keyA.d0) && Represents(s.r1, s.r2, gk1, keyA.d1)
    ensures Represents(s.r1, s.r2, d0, DigitsOf(s.h, a).d0) && Represents(s.r1, s.r2, d1, DigitsOf(s.h, a).d1)
    ensures Represents(s.r1, s.r2, gal, Inner(DigitsOf(s.h, a), keyA))
  {
    hide Cong, Slot, Holds, Root.Valid, Pow2, Galois, Ring.CheckInvariant, Inverse, DigitsOf, Inner, ElemCong, AllRepr, InvNttOf, NttOf;
    G.RingModuli();
    ghost var d := DigitsOf(s.h, a);
    var x1 := ScatterGalois(s.r1, s.g, s.h, current.x1, a);
    var x2 := ScatterGalois(s.r2, s.g, s.h, current.x2, a);
    BackToCoefficients(s.r1, x1, Galois(a, s.h));
    BackToCoefficients(s.r2, x2, Galois(a, s.h));
    ReducedIsRepr(G.RING1, x1[..]);
    ReducedIsRepr(G.RING2, x2[..]);
    var d01, d02, d11, d12 := Decompose(s, x1, x2, s.h, a);
    CongSizes(d01[..], d.d0, d02[..], d.d0, d11[..], d.d1, d12[..], d.d1);
    var y01 := TransformDigits(G.RING1, s.r1, d01, d.d0);
    var y02 := TransformDigits(G.RING2, s.r2, d02, d.d0);
    var y11 := TransformDigits(G.RING1, s.r1, d11, d.d1);
    var y12 := TransformDigits(G.RING2, s.r2, d12, d.d1);
    d0, d1 := Rns(y01, y02), Rns(y11, y12);
    var v1 := InnerProducts(G.RING1, s.r1, d0.x1, d1.x1, gk0.x1, gk1.x1, d, keyA);
    var v2 := InnerProducts(G.RING2, s.r2, d0.x2, d1.x2, gk0.x2, gk1.x2, d, keyA);
    gal := Rns(v1, v2);
  }

  lemma CongSizes(a: Elem, b: Elem, a': Elem, b': Elem, c: Elem, d: Elem, c': Elem, d': Elem)
    requires ElemCong(a, b, G.Q1) && ElemCong(a', b', G.Q2) && ElemCong(c, d, G.Q1) && ElemCong(c', d', G.Q2)
    ensures |a| == |b| && |a'| == |b'| && |c| == |d| && |c'| == |d'|
  {
  }

  // ---------------------------------------------------------------- preprocess_loop

  /** Iteration k of a slab, in both components. */
  ghost predicate SlabHolds(s: Setup, slab: Rns, k: int, a: Elem) {
    Holds(s.r1, slab.x1, Offset(k, s.r1.N), a) && Holds(s.r2, slab.x2, Offset(k, s.r1.N), a)
  }

  /** A slab of len iterations of representatives. */
  ghost predicate Slab(s: Setup, slab: Rns, len: nat) {
    && |slab.x1| == |slab.x2| == Size(s.r1.N, len)
    && AllRepr(G.RING1, slab.x1) && AllRepr(G.RING2, slab.x2)
  }

  /** The transformed database entries of the slab at iteration i. */
  function Iteration(slab: Rns, N: nat, i: nat): (v: Rns)
    requires |slab.x1| == |slab.x2| && 0 <= Offset(i, N) && Offset(i, N) + N <= |slab.x1|
    ensures |v.x1| == |v.x2| == N
  {
    Rns(slab.x1[Offset(i, N)..Offset(i, N) + N], slab.x2[Offset(i, N)..Offset(i, N) + N])
  }

  /** What preprocess_loop works on: the stored elements, the key's and the query's a-halves. */
  datatype Plan = Plan(stored: seq<Elem>, keyA: Pair, qryA: Elem) {
    ghost predicate Valid(N: nat) {
      Sizes(N, stored, keyA, qryA)
    }

    /** The a-half after i iterations. */
    ghost function A(N: nat, h: int, i: nat): (a: Elem)
      requires Valid(N) && i <= |stored|
      ensures |a| == N
    {
      PartA(N, h, stored[..i], keyA, qryA)
    }

    /** The digits of iteration i. */
    ghost function D(N: nat, h: int, i: nat): (d: Pair)
      requires Valid(N) && i < |stored|
      ensures d.Size(N)
    {
      DigitsAt(N, h, stored, keyA, qryA, i)
    }
  }

  /** Both digits of iteration k are in the slabs. */
  ghost predicate DigitsHeld(s: Setup, inner0: Rns, inner1: Rns, plan: Plan, k: nat) {
    && plan.Valid(s.r1.N) && k < |plan.stored|
    && SlabHolds(s, inner0, k, plan.D(s.r1.N, s.h, k).d0)
    && SlabHolds(s, inner1, k, plan.D(s.r1.N, s.h, k).d1)
  }

  function Appended(slab: Rns, v: Rns): Rns {
    Rns(slab.x1 + v.x1, slab.x2 + v.x2)
  }

  /** One iteration on the running sum. */
  method PreprocessStep(s: Setup, current: Rns, gk0: Rns, gk1: Rns, qry: Rns, te: Rns, ghost plan: Plan, ghost i: nat)
    returns (sum: Rns, d0: Rns, d1: Rns)
    requires s.Valid() && plan.Valid(s.r1.N) && i < |plan.stored|
    requires Represents(s.r1, s.r2, gk0, plan.keyA.d0) && Represents(s.r1, s.r2, gk1, plan.keyA.d1)
    requires Represents(s.r1, s.r2, qry, plan.qryA) && Represents(s.r1, s.r2, te, plan.stored[i])
    requires Represents(s.r1, s.r2, current, plan.A(s.r1.N, s.h, i))
    ensures Represents(s.r1, s.r2, sum, plan.A(s.r1.N, s.h, i + 1))
    ensures Represents(s.r1, s.r2, d0, plan.D(s.r1.N, s.h, i).d0)
    ensures Represents(s.r1, s.r2, d1, plan.D(s.r1.N, s.h, i).d1)
  {
    hide Cong, Slot, Holds, Root.Valid, Pow2, Ring.CheckInvariant, Inverse, DigitsOf, Inner, AllRepr, Plan.A, PartA, ModQ;
    G.RingModuli();
    ghost var a := plan.A(s.r1.N, s.h, i);
    ghost var d := DigitsOf(s.h, a);
    PlanStep(s, plan, i);
    var gal: Rns;
    gal, d0, d1 := PartialGal(s, current, gk0, gk1, a, plan.keyA);
    ghost var inner, e := Inner(d, plan.keyA), plan.stored[i];
    var v1 := AddProducts(G.RING1, s.r1, gal.x1, qry.x1, te.x1, inner, plan.qryA, e);
    var v2 := AddProducts(G.RING2, s.r2, gal.x2, qry.x2, te.x2, inner, plan.qryA, e);
    sum := Rns(v1, v2);
    HoldsModQ(s.r1, v1, Add(inner, Mul(e, plan.qryA)));
    HoldsModQ(s.r2, v2, Add(inner, Mul(e, plan.qryA)));
  }

  lemma PlanStep(s: Setup, plan: Plan, i: nat)
    requires s.r1.N > 0 && plan.Valid(s.r1.N) && i < |plan.stored|
    ensures var d := plan.D(s.r1.N, s.h, i);
            && d == DigitsOf(s.h, plan.A(s.r1.N, s.h, i))
            && plan.A(s.r1.N, s.h, i + 1) == ModQ(Add(Inner(d, plan.keyA), Mul(plan.stored[i], plan.qryA)))
  {
    hide DigitsOf, Mul, Inner, ModQ;
    assert plan.stored[..i + 1][..i] == plan.stored[..i];
  }

  /** Reducing modulo q does not change what the transforms represent. */
  lemma HoldsModQ(r: Root, v: seq<int>, a: Elem)
    requires r.Valid() && (r.p == G.Q1 || r.p == G.Q2)
    requires Holds(r, v, 0, a)
    ensures Holds(r, v, 0, ModQ(a))
  {
    hide Cong, Eval, Root.Valid;
    forall i | 0 <= i < |a|
      ensures Cong(ModQ(a)[i], a[i], r.p)
    {
      CongSelf(a[i], G.Q);
      G.CrtSplit(ModQ(a)[i], a[i]);
    }
    forall j | 0 <= j < r.N
      ensures Cong(v[0 + j], Slot(r, ModQ(a), j), r.p)
    {
      HoldsSlot(r, v, 0, a, j);
      EvalElemCong(r, ModQ(a), a, 2 * j + 1);
      CongSym(Slot(r, ModQ(a), j), Slot(r, a, j), r.p);
      CongTrans(v[j], Slot(r, a, j), Slot(r, ModQ(a), j), r.p);
    }
  }

  /** preprocess_loop: with the stored elements' transforms in the slab, it leaves the a-half of the reply in
   *  sum and the digits of every iteration, ready for the online loop, in the two inner-product slabs.
   */
  method PreprocessLoop(s: Setup, len: nat, gk0: Rns, gk1: Rns, qry: Rns, entries: Rns, ghost plan: Plan)
    returns (sum: Rns, inner0: Rns, inner1: Rns)
    requires s.Valid() && plan.Valid(s.r1.N) && len == |plan.stored|
    requires Represents(s.r1, s.r2, gk0, plan.keyA.d0) && Represents(s.r1, s.r2, gk1, plan.keyA.d1)
    requires Represents(s.r1, s.r2, qry, plan.qryA)
    requires Slab(s, entries, len)
    requires forall k :: 0 <= k < len ==> SlabHolds(s, entries, k, plan.stored[k])
    ensures Represents(s.r1, s.r2, sum, PartA(s.r1.N, s.h, plan.stored, plan.keyA, plan.qryA))
    ensures Slab(s, inner0, len) && Slab(s, inner1, len)
    ensures forall k: nat :: k < len ==> DigitsHeld(s, inner0, inner1, plan, k)
  {
    hide Cong, Slot, Holds, SlabHolds, Root.Valid, Pow2, Ring.CheckInvariant, Inverse, DigitsOf, AllRepr, PartA, Plan.A, Slab, DigitsHeld, Represents;
    var N := s.r1.N;
    sum := Rns(seq(N, i => 0), seq(N, i => 0));
    inner0, inner1 := Rns([], []), Rns([], []);
    ZeroRepresents(s, sum, plan);
    EmptySlab(s, inner0);
    for i := 0 to len
      invariant Represents(s.r1, s.r2, sum, plan.A(N, s.h, i))
      invariant Slab(s, inner0, i) && Slab(s, inner1, i)
      invariant forall k: nat :: k < i ==> DigitsHeld(s, inner0, inner1, plan, k)
    {
      SlabIteration(s, entries, len, i, plan.stored[i]);
      var te := Iteration(entries, N, i);
      var d0: Rns, d1: Rns;
      sum, d0, d1 := PreprocessStep(s, sum, gk0, gk1, qry, te, plan, i);
      AppendDigits(s, inner0, inner1, d0, d1, plan, i);
      inner0, inner1 := Appended(inner0, d0), Appended(inner1, d1);
    }
    WholePlan(s, plan);
  }

  lemma WholePlan(s: Setup, plan: Plan)
    requires plan.Valid(s.r1.N)
    ensures plan.A(s.r1.N, s.h, |plan.stored|) == PartA(s.r1.N, s.h, plan.stored, plan.keyA, plan.qryA)
  {
    hide PartA;
    assert plan.stored[..|plan.stored|] == plan.stored;
  }

  lemma ZeroRepresents(s: Setup, sum: Rns, plan: Plan)
    requires s.Valid() && plan.Valid(s.r1.N)
    requires sum == Rns(seq(s.r1.N, i => 0), seq(s.r1.N, i => 0))
    ensures Represents(s.r1, s.r2, sum, plan.A(s.r1.N, s.h, 0))
  {
    hide Cong, Slot, Root.Valid, Pow2;
    G.RingModuli();
    var zero := Zero(s.r1.N);
    forall j | 0 <= j < s.r1.N
      ensures Cong(0, Slot(s.r1, zero, j), s.r1.p) && Cong(0, Slot(s.r2, zero, j), s.r2.p)
    {
      ZeroSlot(s.r1, j);
      ZeroSlot(s.r2, j);
    }
    HoldsAll(s.r1, sum.x1, zero);
    HoldsAll(s.r2, sum.x2, zero);
    ReducedIsRepr(G.RING1, sum.x1);
    ReducedIsRepr(G.RING2, sum.x2);
  }

  lemma EmptySlab(s: Setup, slab: Rns)
    requires slab == Rns([], [])
    ensures Slab(s, slab, 0)
  {
  }

  lemma SlabIteration(s: Setup, slab: Rns, len: nat, i: nat, te: Elem)
    requires s.r1.N == s.r2.N && Slab(s, slab, len) && i < len
    requires SlabHolds(s, slab, i, te)
    ensures |slab.x1| == |slab.x2| && 0 <= Offset(i, s.r1.N) && Offset(i, s.r1.N) + s.r1.N <= |slab.x1|
    ensures Represents(s.r1, s.r2, Iteration(slab, s.r1.N, i), te)
  {
    hide Cong, Slot, Offset, Size;
    SlabPosition(i, s.r1.N, len);
    var v := Iteration(slab, s.r1.N, i);
    HoldsSlice(s.r1, slab.x1, Offset(i, s.r1.N), te);
    HoldsSlice(s.r2, slab.x2, Offset(i, s.r1.N), te);
    SliceRepr(G.RING1, slab.x1, Offset(i, s.r1.N), s.r1.N);
    SliceRepr(G.RING2, slab.x2, Offset(i, s.r1.N), s.r1.N);
  }

  lemma HoldsSlice(r: Root, values: seq<int>, start: int, a: Elem)
    requires Holds(r, values, start, a)
    ensures Holds(r, values[start..start + r.N], 0, a)
  {
    hide Cong, Slot;
    var v := values[start..start + r.N];
    forall j | 0 <= j < r.N
      ensures Cong(v[0 + j], Slot(r, a, j), r.p)
    {
      HoldsSlot(r, values, start, a, j);
    }
  }

  lemma SliceRepr(z: Ring, v: seq<int>, start: int, n: nat)
    requires 0 <= start && start + n <= |v| && AllRepr(z, v)
    ensures AllRepr(z, v[start..start + n])
  {
  }

  /** Appending one iteration keeps the earlier ones and adds the new one. */
  lemma AppendDigits(s: Setup, inner0: Rns, inner1: Rns, d0: Rns, d1: Rns, plan: Plan, i: nat)
    requires s.r1.N == s.r2.N && plan.Valid(s.r1.N) && i < |plan.stored|
    requires Slab(s, inner0, i) && Slab(s, inner1, i)
    requires Represents(s.r1, s.r2, d0, plan.D(s.r1.N, s.h, i).d0)
    requires Represents(s.r1, s.r2, d1, plan.D(s.r1.N, s.h, i).d1)
    requires forall k: nat :: k < i ==> DigitsHeld(s, inner0, inner1, plan, k)
    ensures Slab(s, Appended(inner0, d0), i + 1) && Slab(s, Appended(inner1, d1), i + 1)
    ensures forall k: nat :: k < i + 1 ==> DigitsHeld(s, Appended(inner0, d0), Appended(inner1, d1), plan, k)
  {
    hide Cong, Slot, Holds, DigitsAt, Slab, Represents, Offset, Size;
    var n := s.r1.N;
    AppendSlab(s, inner0, d0, plan.D(n, s.h, i).d0, i);
    AppendSlab(s, inner1, d1, plan.D(n, s.h, i).d1, i);
    forall k: nat | k < i
      ensures DigitsHeld(s, Appended(inner0, d0), Appended(inner1, d1), plan, k)
    {
      assert DigitsHeld(s, inner0, inner1, plan, k);
      KeepSlab(s, inner0, d0, plan.D(n, s.h, k).d0, k);
      KeepSlab(s, inner1, d1, plan.D(n, s.h, k).d1, k);
    }
  }

  lemma KeepSlab(s: Setup, slab: Rns, v: Rns, a: Elem, k: nat)
    requires SlabHolds(s, slab, k, a)
    ensures SlabHolds(s, Appended(slab, v), k, a)
  {
    hide Cong, Slot, Offset;
    HoldsPrefix(s.r1, slab.x1, v.x1, Offset(k, s.r1.N), a);
    HoldsPrefix(s.r2, slab.x2, v.x2, Offset(k, s.r1.N), a);
  }

  lemma HoldsPrefix(r: Root, x: seq<int>, y: seq<int>, start: int, a: Elem)
    requires Holds(r, x, start, a)
    ensures Holds(r, x + y, start, a)
  {
    hide Cong, Slot;
    forall j | 0 <= j < r.N
      ensures Cong((x + y)[start + j], Slot(r, a, j), r.p)
    {
      HoldsSlot(r, x, start, a, j);
    }
  }

  lemma HoldsSuffix(r: Root, x: seq<int>, y: seq<int>, a: Elem)
    requires Holds(r, y, 0, a)
    ensures Holds(r, x + y, |x|, a)
  {
    hide Cong, Slot;
    forall j | 0 <= j < r.N
      ensures Cong((x + y)[|x| + j], Slot(r, a, j), r.p)
    {
      HoldsSlot(r, y, 0, a, j);
    }
  }

  lemma AppendSlab(s: Setup, slab: Rns, v: Rns, a: Elem, i: nat)
    requires s.r1.N == s.r2.N && Slab(s, slab, i) && Represents(s.r1, s.r2, v, a)
    ensures Slab(s, Appended(slab, v), i + 1)
    ensures SlabHolds(s, Appended(slab, v), i, a)
  {
    hide Cong, Slot, Holds;
    HoldsSuffix(s.r1, slab.x1, v.x1, a);
    HoldsSuffix(s.r2, slab.x2, v.x2, a);
    GrowSize(i, s.r1.N);
  }

  lemma GrowSize(i: nat, n: nat)
    ensures Size(n, i) == Offset(i, n)
    ensures Size(n, i + 1) == Size(n, i) + n
  {
    assert n * (i + 1) == n * i + n;
    assert n * i == i * n;
  }
}
