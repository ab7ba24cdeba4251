/** How large the errors of a reply can get, and hence a condition on the client's errors alone under which
 *  every entry is retrieved.
 */
module Noise {
  import opened Arith
  import opened Sums
  import opened Negacyclic
  import opened GaloisGroup
  import opened Parameters
  import opened PhaseSplit
  import opened Retrieval
  import opened EndToEnd
  import G = Gadget

  ghost predicate Bounded(a: Elem, b: int) {
    b >= 0 && forall i :: 0 <= i < |a| ==> -b <= a[i] <= b
  }

  lemma AtBounded(a: Elem, b: int, i: int)
    requires |a| > 0 && Bounded(a, b)
    ensures -b <= At(a, i) <= b
  {
    var j, k := Split(i, |a|);
    AtTurns(a, j, k);
    AtPlain(a, j);
  }

  lemma ProductBand(x: int, y: int, a: int, b: int)
    requires -a <= x <= a && -b <= y <= b
    ensures -(a * b) <= x * y <= a * b
  {
    var u, v := Abs(x), Abs(y);
    MulMonotone(u, a, v);
    MulMonotone(v, b, a);
    assert a * v == v * a && a * b == b * a;
    assert x * y == u * v || x * y == -(u * v) by {
      if x >= 0 && y < 0 {
        assert x * y == -(u * v);
      } else if x < 0 && y >= 0 {
        assert x * y == -(u * v);
      } else {
        assert x * y == u * v;
      }
    }
  }

  /** The most a product of elements bounded by a and b can reach in one coefficient. */
  function ProductBound(n: int, a: int, b: int): int {
    n * (a * b)
  }

  lemma MulBounded(x: Elem, y: Elem, a: int, b: int)
    requires |x| == |y| > 0 && Bounded(x, a) && Bounded(y, b)
    ensures Bounded(Mul(x, y), ProductBound(|x|, a, b))
  {
    ProductBand(0, 0, a, b);
    MulMonotone(0, |x|, a * b);
    assert |x| * (a * b) >= 0;
    forall i | 0 <= i < |x|
      ensures -ProductBound(|x|, a, b) <= Mul(x, y)[i] <= ProductBound(|x|, a, b)
    {
      forall j | 0 <= j < |x|
        ensures -(a * b) <= MulTerm(x, y, i)(j) <= a * b
      {
        AtBounded(x, a, j);
        AtBounded(y, b, i - j);
        ProductBand(At(x, j), At(y, i - j), a, b);
      }
      SumBound(|x|, MulTerm(x, y, i), a * b);
    }
  }

  lemma GaloisBounded(x: Elem, b: int, h: int)
    requires |x| > 0 && Bounded(x, b)
    ensures Bounded(Galois(x, h), b)
  {
    forall i | 0 <= i < |x|
      ensures -b <= Galois(x, h)[i] <= b
    {
      AtBounded(x, b, h * i);
    }
  }

  lemma ShiftBounded(x: Elem, b: int, k: int)
    requires |x| > 0 && Bounded(x, b)
    ensures Bounded(Shift(x, k), b)
  {
    forall i | 0 <= i < |x|
      ensures -b <= Shift(x, k)[i] <= b
    {
      AtBounded(x, b, i - k);
    }
  }

  lemma AddBounded(x: Elem, y: Elem, a: int, b: int)
    requires |x| == |y| && Bounded(x, a) && Bounded(y, b)
    ensures Bounded(Add(x, y), a + b)
  {
  }

  function TimesStep(n: int, b: int): int {
    n * b
  }

  lemma OneMore(n: int, b: int)
    requires n > 0
    ensures TimesStep(n - 1, b) + b == TimesStep(n, b)
    ensures TimesStep(0, b) == 0
  {
  }

  lemma ZeroBounded(n: nat)
    ensures Bounded(Zero(n), 0)
  {
  }

  lemma {:induction false} HornerBounded(N: nat, h: int, stored: seq<Elem>, k: int, b: int)
    requires N > 0 && b >= 0
    requires forall i :: 0 <= i < |stored| ==> |stored[i]| == N && Bounded(stored[i], b)
    ensures Bounded(Horner(N, h, stored, k), TimesStep(|stored|, b))
    decreases |stored|
  {
    hide Galois, Shift, Bounded, TimesStep;
    if stored == [] {
      OneMore(1, b);
      ZeroBounded(N);
    } else {
      var n := |stored| - 1;
      HornerBounded(N, h, stored[..n], k, b);
      var acc := Horner(N, h, stored[..n], k);
      GaloisBounded(acc, TimesStep(n, b), h);
      ShiftBounded(stored[n], b, k);
      AddBounded(Galois(acc, h), Shift(stored[n], k), TimesStep(n, b), b);
      OneMore(n + 1, b);
    }
  }

  lemma {:induction false} IdealBounded(N: nat, h: int, stored: seq<Elem>, e: Elem, a: int, b: int)
    requires N > 0 && |e| == N && Bounded(e, b)
    requires forall i :: 0 <= i < |stored| ==> |stored[i]| == N && Bounded(stored[i], a)
    ensures Bounded(IdealPhase(N, h, stored, e), TimesStep(|stored|, ProductBound(N, a, b)))
    decreases |stored|
  {
    hide Galois, Mul, Bounded, TimesStep, ProductBound;
    var p := ProductBound(N, a, b);
    if stored == [] {
      OneMore(1, p);
      ZeroBounded(N);
    } else {
      var n := |stored| - 1;
      IdealBounded(N, h, stored[..n], e, a, b);
      var acc := IdealPhase(N, h, stored[..n], e);
      GaloisBounded(acc, TimesStep(n, p), h);
      MulBounded(stored[n], e, a, b);
      AddBounded(Galois(acc, h), Mul(stored[n], e), TimesStep(n, p), p);
      OneMore(n + 1, p);
    }
  }

  lemma {:induction false} KeyErrorBounded(N: nat, h: int, digits: seq<Pair>, noise: Pair, a: int, b: int)
    requires N > 0 && noise.Size(N) && Bounded(noise.d0, b) && Bounded(noise.d1, b)
    requires forall i :: 0 <= i < |digits| ==> digits[i].Size(N) && Bounded(digits[i].d0, a) && Bounded(digits[i].d1, a)
    ensures Bounded(KeyError(N, h, digits, noise), TimesStep(|digits|, 2 * ProductBound(N, a, b)))
    decreases |digits|
  {
    hide Galois, Mul, Bounded, TimesStep, ProductBound;
    var p := 2 * ProductBound(N, a, b);
    if digits == [] {
      OneMore(1, p);
      ZeroBounded(N);
    } else {
      var n := |digits| - 1;
      KeyErrorBounded(N, h, digits[..n], noise, a, b);
      var acc, d := KeyError(N, h, digits[..n], noise), digits[n];
      GaloisBounded(acc, TimesStep(n, p), h);
      MulBounded(d.d0, noise.d0, a, b);
      MulBounded(d.d1, noise.d1, a, b);
      AddBounded(Mul(d.d0, noise.d0), Mul(d.d1, noise.d1), ProductBound(N, a, b), ProductBound(N, a, b));
      AddBounded(Galois(acc, h), Inner(d, noise), TimesStep(n, p), p);
      OneMore(n + 1, p);
    }
  }

  /** Balanced digits are at most half the base. */
  lemma DigitsBounded(h: int, a: Elem)
    requires |a| > 0
    ensures Bounded(DigitsOf(h, a).d0, G.HALF_BASE) && Bounded(DigitsOf(h, a).d1, G.HALF_BASE)
  {
    hide Galois, G.LowPart, G.HighPart;
    var rotated := CenterAll(G.Q, Galois(a, h));
    forall i | 0 <= i < |a|
      ensures -G.HALF_BASE <= DigitsOf(h, a).d0[i] <= G.HALF_BASE
      ensures -G.HALF_BASE <= DigitsOf(h, a).d1[i] <= G.HALF_BASE
    {
      G.DigitsRecombine(rotated[i]);
    }
  }

  lemma CenteredBound(x: int, t: int)
    requires t > 0 && t % 2 == 1
    ensures -(t / 2) <= Centered(x, t) <= t / 2
  {
  }

  lemma CenterBounded(t: int, a: Elem)
    requires t > 0 && t % 2 == 1
    ensures Bounded(CenterAll(t, a), t / 2)
  {
    hide Cong;
  }

  lemma StoredElementBounded(g: IndexGroup, t: int, invL: int, entries: seq<Elem>, conj: bool, k: nat)
    requires g.LoopLen() > 0 && g.N > 0 && t > 0 && t % 2 == 1
    ensures Bounded(StoredElement(g, t, invL, entries, conj, k), t / 2)
  {
    hide Hat, Galois, Pow, Bounded, IndexGroup.Element, Scale, CenterAll;
    var hat := Hat(g, entries, g.Element(if conj then g.LoopLen() + k else k));
    CenterBounded(t, Scale(invL, Galois(hat, Pow(5, k))));
  }

  lemma StoredBounded(g: IndexGroup, t: int, invL: int, entries: seq<Elem>, conj: bool)
    requires g.LoopLen() > 0 && g.N > 0 && t > 0 && t % 2 == 1
    ensures forall i :: 0 <= i < g.LoopLen() ==> Bounded(Stored(g, t, invL, entries, conj)[i], t / 2)
  {
    hide StoredElement, Bounded;
    forall i | 0 <= i < g.LoopLen()
      ensures Bounded(Stored(g, t, invL, entries, conj)[i], t / 2)
    {
      StoredElementBounded(g, t, invL, entries, conj, g.LoopLen() - 1 - i);
    }
  }

  // ------------------------------------------------------------------------- the budget

  /** The largest error of one loop of l iterations, when query errors are at most b and key errors at most k. */
  function LoopError(N: nat, l: nat, t: int, b: int, k: int): int {
    TimesStep(l, ProductBound(N, t / 2, b)) + TimesStep(l, 2 * ProductBound(N, G.HALF_BASE, k))
  }

  /** The largest disturbance of a reply. */
  function WorstDisturbance(g: IndexGroup, t: int, b: int, k: int): int {
    var sides := if g.RequiresConj() then 2 else 1;
    t * (sides * LoopError(g.N, g.LoopLen(), t, b, k)) + (t / 2) * (sides * TimesStep(g.LoopLen(), t / 2))
  }

  lemma SideBounded(N: nat, h: int, stored: seq<Elem>, keyA: Pair, qryA: Elem, keyE: Pair, qryE: Elem, t: int,
                    b: int, k: int)
    requires Sizes(N, stored, keyA, qryA) && keyE.Size(N) && |qryE| == N
    requires Bounded(qryE, b) && Bounded(keyE.d0, k) && Bounded(keyE.d1, k)
    requires forall i :: 0 <= i < |stored| ==> Bounded(stored[i], t / 2)
    ensures Bounded(SideError(N, h, stored, keyA, qryA, keyE, qryE), LoopError(N, |stored|, t, b, k))
  {
    hide Galois, Mul, Bounded, TimesStep, ProductBound, DigitsOf, PartA, IdealPhase, KeyError;
    var digits := AllDigits(N, h, stored, keyA, qryA);
    IdealBounded(N, h, stored, qryE, t / 2, b);
    forall i | 0 <= i < |digits|
      ensures Bounded(digits[i].d0, G.HALF_BASE) && Bounded(digits[i].d1, G.HALF_BASE)
    {
      DigitsBounded(h, PartA(N, h, stored[..i], keyA, qryA));
    }
    KeyErrorBounded(N, h, digits, keyE, G.HALF_BASE, k);
    AddBounded(IdealPhase(N, h, stored, qryE), KeyError(N, h, digits, keyE),
               TimesStep(|stored|, ProductBound(N, t / 2, b)), TimesStep(|stored|, 2 * ProductBound(N, G.HALF_BASE, k)));
  }

  /** All of the client's errors are small. */
  ghost predicate SmallErrors(c: Client, b: int, k: int) {
    Bounded(c.qryE, b) && Bounded(c.conjE, b) && Bounded(c.keyE.d0, k) && Bounded(c.keyE.d1, k)
  }

  lemma ReplyErrorBounded(d: Shard, c: Client, b: int, k: int)
    requires d.Valid() && c.Size(d.g.N) && SmallErrors(c, b, k)
    ensures var sides := if d.g.RequiresConj() then 2 else 1;
            Bounded(ReplyError(d, c), sides * LoopError(d.g.N, d.g.LoopLen(), d.t, b, k))
  {
    hide Bounded, LoopError, SideError, Stored, IndexGroup.Layout, IndexGroup.LoopLen, Entries, Cong, Inverse;
    LayoutLoop(d);
    StoredBounded(d.g, d.t, d.invL, d.entries, false);
    StoredBounded(d.g, d.t, d.invL, d.entries, true);
    SideBounded(d.g.N, d.h, d.Main(), c.keyA, c.qryA, c.keyE, c.qryE, d.t, b, k);
    SideBounded(d.g.N, d.h, d.Conj(), c.keyA, c.conjA, c.keyE, c.conjE, d.t, b, k);
    if d.g.RequiresConj() {
      var e := LoopError(d.g.N, d.g.LoopLen(), d.t, b, k);
      AddBounded(SideError(d.g.N, d.h, d.Main(), c.keyA, c.qryA, c.keyE, c.qryE),
                 SideError(d.g.N, d.h, d.Conj(), c.keyA, c.conjA, c.keyE, c.conjE), e, e);
    }
  }

  lemma PlainReplyBounded(d: Shard, idx: nat)
    requires d.Valid()
    ensures var sides := if d.g.RequiresConj() then 2 else 1;
            Bounded(PlainReply(d, idx), sides * TimesStep(d.g.LoopLen(), d.t / 2))
  {
    hide Bounded, Horner, Stored, IndexGroup.Layout, IndexGroup.LoopLen, Entries, Cong, Inverse, TimesStep;
    LayoutLoop(d);
    StoredBounded(d.g, d.t, d.invL, d.entries, false);
    StoredBounded(d.g, d.t, d.invL, d.entries, true);
    HornerBounded(d.g.N, d.h, d.Main(), MainPower(d.g, idx), d.t / 2);
    HornerBounded(d.g.N, d.h, d.Conj(), ConjPower(d.g, idx), d.t / 2);
    if d.g.RequiresConj() {
      var e := TimesStep(d.g.LoopLen(), d.t / 2);
      AddBounded(Horner(d.g.N, d.h, d.Main(), MainPower(d.g, idx)),
                 Horner(d.g.N, d.h, d.Conj(), ConjPower(d.g, idx)), e, e);
    }
  }

  lemma CombineBounds(t: int, x: int, a: int, z: int, y: int, b: int)
    requires t > 0 && -a <= x <= a && -(t / 2) <= z <= t / 2 && -b <= y <= b
    ensures Abs(t * x - z * y) <= t * a + (t / 2) * b
  {
    ProductBand(z, y, t / 2, b);
    MulMonotone(x, a, t);
    MulMonotone(-a, x, t);
  }

  lemma DisturbanceBounded(d: Shard, c: Client, b: int, k: int, idx: nat, i: nat)
    requires d.Valid() && c.Size(d.g.N) && i < d.g.N && SmallErrors(c, b, k)
    ensures Abs(Disturbance(d, c, idx, i)) <= WorstDisturbance(d.g, d.t, b, k)
  {
    hide LoopError, TimesStep, IndexGroup.LoopLen, IndexGroup.Layout, Cong, Inverse, PlainReply, ReplyError, SmallErrors;
    ReplyErrorBounded(d, c, b, k);
    PlainReplyBounded(d, idx);
    CenteredBound(G.Q, d.t);
    var sides := if d.g.RequiresConj() then 2 else 1;
    CombineBounds(d.t, ReplyError(d, c)[i], sides * LoopError(d.g.N, d.g.LoopLen(), d.t, b, k),
                  Centered(G.Q, d.t), PlainReply(d, idx)[i], sides * TimesStep(d.g.LoopLen(), d.t / 2));
  }

  /** If the client's errors are small enough for the shard's size, every coefficient of every entry is
   *  retrieved, whatever the entries, the secret key and the masks. */
  lemma SmallErrorsRetrieve(d: Shard, c: Client, b: int, k: int, idx: nat, i: nat)
    requires d.Valid() && c.Size(d.g.N) && idx < d.g.l && i < d.g.N
    requires SmallErrors(c, b, k)
    requires 2 * WorstDisturbance(d.g, d.t, b, k) < G.Q
    ensures |d.entries| == d.g.l && |d.entries[idx]| == d.g.N
    ensures Dec(c.s, ReplyA(d, c), ReplyTo(d, c, idx), d.t, d.qInv)[i] == d.entries[idx][i] % d.t
  {
    hide Disturbance, WorstDisturbance, IndexGroup.LoopLen, IndexGroup.Layout, Cong, Inverse, Dec, ReplyA, ReplyTo, SmallErrors;
    DisturbanceBounded(d, c, b, k, idx, i);
    ShardRoundTrip(d, c, idx, i);
  }

  /** At the deployed rank and plaintext modulus the bound covers key errors of 1 for loops of up to 4 iterations,
   *  and for no longer ones: loop lengths are powers of two. */
  lemma ShortLoopsFit(g: IndexGroup, b: int)
    requires g.N == N && !g.RequiresConj() && 0 <= b <= 65536
    ensures g.LoopLen() <= 4 ==> 2 * WorstDisturbance(g, PLAIN_MODULUS, b, 1) < G.Q
    ensures g.LoopLen() >= 8 ==> 2 * WorstDisturbance(g, PLAIN_MODULUS, b, 1) > G.Q
  {
    hide IndexGroup.LoopLen, TimesStep;
    var l := g.LoopLen();
    var p := ProductBound(N, 512, b);
    StepIs(l, p, 0x20_0000_0000);
    MulMonotone(0, p, l);
    MulMonotone(p, 0x10_0000 * 65536, l);
  }

  lemma StepIs(l: nat, p: int, x: int)
    ensures TimesStep(l, p) == p * l && TimesStep(l, x) == x * l && TimesStep(l, 512) == 512 * l
  {
    SwapProduct(l, p);
    SwapProduct(l, x);
    SwapProduct(l, 512);
  }
}
