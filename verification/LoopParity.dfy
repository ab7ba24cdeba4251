/** Loops of odd length lose their last iteration. Among the loop lengths of index groups only 1 is odd; for it the
 *  reply does not depend on the query, and the databases for which that is still right are determined exactly.
 */
module LoopParity {
  import opened Arith
  import opened Sums
  import opened Negacyclic
  import opened GaloisGroup
  import opened PhaseSplit
  import opened PerformPir
  import opened Offline
  import opened Retrieval
  import opened PirDatabase
  import G = Gadget
  import Noise

  // --------------------------------------------------------------------- products with 0 and 1

  lemma MulZeroLeft(a: Elem)
    requires |a| > 0
    ensures Mul(Zero(|a|), a) == Zero(|a|)
  {
    var z := Zero(|a|);
    forall i | 0 <= i < |a|
      ensures Mul(z, a)[i] == 0
    {
      forall j | 0 <= j < |a|
        ensures MulTerm(z, a, i)(j) == 0
      {
        AtZero(|a|, j);
      }
      SumZero(|a|, MulTerm(z, a, i));
    }
  }

  lemma MulZeroRight(a: Elem)
    requires |a| > 0
    ensures Mul(a, Zero(|a|)) == Zero(|a|)
  {
    var z := Zero(|a|);
    forall i | 0 <= i < |a|
      ensures Mul(a, z)[i] == 0
    {
      forall j | 0 <= j < |a|
        ensures MulTerm(a, z, i)(j) == 0
      {
        AtZero(|a|, i - j);
      }
      SumZero(|a|, MulTerm(a, z, i));
    }
  }

  lemma MulOne(a: Elem)
    requires |a| > 0
    ensures Mul(a, Mono(|a|, 0)) == a
  {
    hide Mul, Mono;
    MulMono(a, 0);
    forall i | 0 <= i < |a|
      ensures Shift(a, 0)[i] == a[i]
    {
      AtPlain(a, i);
    }
  }

  lemma GaloisZero(n: nat, h: int)
    requires n > 0
    ensures Galois(Zero(n), h) == Zero(n)
  {
    forall i | 0 <= i < n
      ensures Galois(Zero(n), h)[i] == 0
    {
      AtZero(n, h * i);
    }
  }

  // ------------------------------------------------------------------------- a single iteration

  /** The first iteration has nothing to decompose. */
  lemma FirstDigits(n: nat, h: int)
    requires n > 0
    ensures DigitsOf(h, Zero(n)) == Pair(Zero(n), Zero(n))
  {
    hide Galois;
    GaloisZero(n, h);
    CongRefl(0, G.Q);
    CenteredUnique(0, 0, G.Q);
    var rotated := CenterAll(G.Q, Galois(Zero(n), h));
    assert forall i :: 0 <= i < n ==> rotated[i] == 0;
    assert G.LowPart(0) == 0 && G.HighPart(0) == 0;
  }

  /** The b-half of the recurrence after one iteration: the stored element times the query. */
  lemma SingleResult(s: Setup, plan: Plan, keyB: Pair, qryB: Elem)
    requires s.r1.N > 0 && plan.Valid(s.r1.N) && |plan.stored| == 1
    requires keyB.Size(s.r1.N) && |qryB| == s.r1.N
    ensures SideOf(s, plan, qryB).Result(s.r1.N, s.h, keyB) == Mul(plan.stored[0], qryB)
  {
    hide Mul, Galois, DigitsOf;
    var N := s.r1.N;
    var side := SideOf(s, plan, qryB);
    assert plan.stored[..0] == [];
    FirstDigits(N, s.h);
    assert side.digits[0] == Pair(Zero(N), Zero(N));
    MulZeroLeft(keyB.d0);
    MulZeroLeft(keyB.d1);
    GaloisZero(N, s.h);
    assert PartB(N, s.h, side.stored[..0], side.digits[..0], keyB, qryB) == Zero(N);
    assert Add(Add(Add(Zero(N), Zero(N)), Zero(N)), Mul(plan.stored[0], qryB)) == Mul(plan.stored[0], qryB);
  }

  /** What the recurrence expects of a database whose loop length is 1. */
  lemma ExpectedOfOne(k: Config, entries: seq<Elem>, keyB: Pair, qryB: Elem, conjB: Elem)
    requires k.Valid() && k.g.LoopLen() > 0 && k.m == 0 && keyB.Size(k.g.N) && |qryB| == |conjB| == k.g.N
    ensures var te := Stored(k.g, k.t, k.invL, entries, false)[0];
            var te' := Stored(k.g, k.t, k.invL, entries, true)[0];
            Expected(k, entries, keyB, qryB, conjB)
            == ModQ(if k.g.RequiresConj() then Add(Mul(te, qryB), Mul(te', conjB)) else Mul(te, qryB))
  {
    ConfigFacts(k);
    PlansValid(k, entries);
    hide Mul, Stored, ModQ, Setup.Valid, IndexGroup.Layout, SideOf, Side.Result, Plan.Valid;
    SingleResult(k.s, k.MainPlan(entries), keyB, qryB);
    SingleResult(k.s, k.ConjPlan(entries), keyB, conjB);
  }

  // ---------------------------------------------------------------------- the lost iteration

  /** The key part without any content. */
  function EmptyKey(n: nat): (key: Pair)
    ensures key.Size(n)
  {
    Pair(Zero(n), Zero(n))
  }

  /** The databases that answer every query as the recurrence demands. */
  ghost predicate AnswersEvery(k: Config, entries: seq<Elem>)
    requires k.Valid() && k.g.LoopLen() > 0
  {
    forall keyB: Pair, qryB: Elem, conjB: Elem :: keyB.Size(k.g.N) && |qryB| == |conjB| == k.g.N ==>
      Answered(k, entries, keyB, qryB, conjB) == Expected(k, entries, keyB, qryB, conjB)
  }

  /** Every coefficient of every entry is zero. */
  ghost predicate Blank(entries: seq<Elem>) {
    forall j, i :: 0 <= j < |entries| && 0 <= i < |entries[j]| ==> entries[j][i] == 0
  }

  /** An element with centred coefficients modulo t is zero modulo q only if it is zero. */
  lemma SmallZero(a: Elem, t: int)
    requires 0 < t < G.Q && ModQ(a) == Zero(|a|) && forall i :: 0 <= i < |a| ==> -(t / 2) <= a[i] <= t / 2
    ensures a == Zero(|a|)
  {
    forall i | 0 <= i < |a|
      ensures a[i] == 0
    {
      assert ModQ(a)[i] == a[i] % G.Q;
      assert -G.Q < a[i] < G.Q;
    }
  }

  lemma StoredSmall(k: Config, entries: seq<Elem>, conj: bool)
    requires k.Valid() && k.g.LoopLen() > 0
    ensures var te := Stored(k.g, k.t, k.invL, entries, conj)[0];
            forall i :: 0 <= i < |te| ==> -(k.t / 2) <= te[i] <= k.t / 2
    ensures 0 < k.t < G.Q
  {
    hide Stored, IndexGroup.Layout, Setup.Valid;
    Noise.StoredBounded(k.g, k.t, k.invL, entries, conj);
    var te := Stored(k.g, k.t, k.invL, entries, conj)[0];
    assert Noise.Bounded(te, k.t / 2);
  }

  /** The witness: the constant query 1. Wherever a stored element is not zero, it is answered wrongly. */
  lemma LostQuery(k: Config, entries: seq<Elem>)
    requires k.Valid() && k.g.LoopLen() > 0 && k.m == 0
    ensures var one, zero := Mono(k.g.N, 0), Zero(k.g.N);
            var te := Stored(k.g, k.t, k.invL, entries, false)[0];
            var te' := Stored(k.g, k.t, k.invL, entries, true)[0];
            && (te != zero ==> Answered(k, entries, EmptyKey(k.g.N), one, zero) != Expected(k, entries, EmptyKey(k.g.N), one, zero))
            && (k.g.RequiresConj() && te' != zero ==>
                  Answered(k, entries, EmptyKey(k.g.N), zero, one) != Expected(k, entries, EmptyKey(k.g.N), zero, one))
  {
    hide *;
    GroupNotEmpty(k);
    var n := k.g.N;
    var one, zero, key := Mono(n, 0), Zero(n), EmptyKey(n);
    StoredSmall(k, entries, false);
    StoredSmall(k, entries, true);
    AnsweredCases(k, entries, key, one, zero);
    AnsweredCases(k, entries, key, zero, one);
    ExpectedOfOne(k, entries, key, one, zero);
    ExpectedOfOne(k, entries, key, zero, one);
    UnitQuery(Stored(k.g, k.t, k.invL, entries, false)[0], k.t);
    UnitQuery(Stored(k.g, k.t, k.invL, entries, true)[0], k.t);
    AddZero(Stored(k.g, k.t, k.invL, entries, false)[0]);
    AddZero(Stored(k.g, k.t, k.invL, entries, true)[0]);
  }

  lemma AddZero(a: Elem)
    ensures Add(a, Zero(|a|)) == a == Add(Zero(|a|), a)
  {
  }

  lemma UnitQuery(te: Elem, t: int)
    requires |te| > 0 && 0 < t < G.Q && forall i :: 0 <= i < |te| ==> -(t / 2) <= te[i] <= t / 2
    ensures Mul(te, Mono(|te|, 0)) == te && Mul(te, Zero(|te|)) == Zero(|te|)
    ensures ModQ(te) == Zero(|te|) ==> te == Zero(|te|)
  {
    hide Mul, Mono, ModQ;
    MulOne(te);
    MulZeroRight(te);
    if ModQ(te) == Zero(|te|) {
      SmallZero(te, t);
    }
  }

  /** Blank entries are stored as zero. */
  lemma BlankStored(k: Config, entries: seq<Elem>, conj: bool)
    requires k.Valid() && k.g.LoopLen() == 1 && Accepted(k, entries) && Blank(entries)
    ensures Stored(k.g, k.t, k.invL, entries, conj)[0] == Zero(k.g.N)
  {
    var e := k.g.Element(if conj then k.g.LoopLen() + 0 else 0);
    BlankHat(k, entries, e);
    assert k.g.N > 0 && k.t > 0 && k.t % 2 == 1;
    hide *;
    GaloisZero(k.g.N, Pow(5, 0));
    ScaledZero(k.invL, k.t, k.g.N);
    StoredIs(k.g, k.t, k.invL, entries, conj);
  }

  lemma StoredIs(g: IndexGroup, t: int, invL: int, entries: seq<Elem>, conj: bool)
    requires g.LoopLen() == 1 && g.N > 0 && t > 0 && t % 2 == 1
    ensures Stored(g, t, invL, entries, conj)[0]
            == CenterAll(t, Scale(invL, Galois(Hat(g, entries, g.Element(if conj then g.LoopLen() + 0 else 0)), Pow(5, 0))))
  {
    hide Hat, Galois, Scale, CenterAll, Pow, IndexGroup.Element;
    assert Stored(g, t, invL, entries, conj)[0] == StoredElement(g, t, invL, entries, conj, 0);
  }

  lemma ScaledZero(c: int, t: int, n: nat)
    requires t > 0 && t % 2 == 1
    ensures CenterAll(t, Scale(c, Zero(n))) == Zero(n)
  {
    assert Scale(c, Zero(n)) == Zero(n);
    CongRefl(0, t);
    CenteredUnique(0, 0, t);
  }

  lemma BlankHat(k: Config, entries: seq<Elem>, e: int)
    requires k.Valid() && k.g.LoopLen() > 0 && Accepted(k, entries) && Blank(entries)
    ensures Hat(k.g, entries, e) == Zero(k.g.N)
  {
    var n := k.g.N;
    hide IndexGroup.Layout, Setup.Valid, IndexGroup.QueryBasePower;
    forall c | 0 <= c < n
      ensures Hat(k.g, entries, e)[c] == 0
    {
      forall j | 0 <= j < |entries|
        ensures HatTerm(k.g, entries, e, c)(j) == 0
      {
        assert entries[j] == Zero(n);
        AtZero(n, c + k.g.QueryBasePower() * e * j);
      }
      SumZero(|entries|, HatTerm(k.g, entries, e, c));
    }
  }

  /** Conversely only blank entries are stored as zero, by the retrieval identity. */
  lemma ZeroStoredBlank(k: Config, entries: seq<Elem>)
    requires k.Valid() && k.g.LoopLen() == 1 && Accepted(k, entries) && Cong(k.invL * k.g.l, 1, k.t)
    requires Stored(k.g, k.t, k.invL, entries, false)[0] == Zero(k.g.N)
    requires k.g.RequiresConj() ==> Stored(k.g, k.t, k.invL, entries, true)[0] == Zero(k.g.N)
    ensures Blank(entries)
  {
    GroupNotEmpty(k);
    hide Stored, Cong, Config.Valid, IndexGroup.LoopLen;
    forall j, i | 0 <= j < |entries| && 0 <= i < |entries[j]|
      ensures entries[j][i] == 0
    {
      ZeroEntry(k, entries, j, i);
    }
  }

  lemma ZeroEntry(k: Config, entries: seq<Elem>, j: nat, i: nat)
    requires k.Valid() && k.g.LoopLen() == 1 && Accepted(k, entries) && Cong(k.invL * k.g.l, 1, k.t)
    requires Stored(k.g, k.t, k.invL, entries, false)[0] == Zero(k.g.N)
    requires k.g.RequiresConj() ==> Stored(k.g, k.t, k.invL, entries, true)[0] == Zero(k.g.N)
    requires j < |entries| && i < |entries[j]|
    ensures entries[j][i] == 0
  {
    var n, h, e := k.g.N, k.s.h, j * k.g.QueryBasePower();
    var main, conj := Stored(k.g, k.t, k.invL, entries, false), Stored(k.g, k.t, k.invL, entries, true);
    hide Stored, Horner, Cong, IndexGroup.Layout, IndexGroup.QueryBasePower, Setup.Valid, Inverse;
    assert Inverse(5, h, n) by {
      InverseOfFive(k);
    }
    RetrievalIdentity(k.g, k.m, k.t, k.invL, entries, h, j, i);
    assert main == [Zero(n)] && (k.g.RequiresConj() ==> conj == [Zero(n)]);
    HornerOfZero(n, h, e, i);
    HornerOfZero(n, h, 2 * n - e, i);
    assert Cong(0, entries[j][i], k.t);
    hide Config.Valid, Accepted;
    ZeroResidue(k, entries, j, i);
  }

  lemma InverseOfFive(k: Config)
    requires k.Valid()
    ensures k.g.N > 0 && Inverse(5, k.s.h, k.g.N)
  {
    hide Inverse, Pow2, Cong, IndexGroup.Layout;
  }

  lemma ZeroResidue(k: Config, entries: seq<Elem>, j: nat, i: nat)
    requires k.Valid() && Accepted(k, entries) && j < |entries| && i < |entries[j]| && Cong(0, entries[j][i], k.t)
    ensures entries[j][i] == 0
  {
    hide Setup.Valid, IndexGroup.Layout;
    CongMod(0, entries[j][i], k.t);
    DivModUnique(entries[j][i], k.t, 0, entries[j][i]);
  }

  lemma HornerOfZero(n: nat, h: int, e: int, c: int)
    requires n > 0
    ensures At(Horner(n, h, [Zero(n)], e), c) == 0
  {
    hide Galois, Shift;
    var stored := [Zero(n)];
    assert stored[..0] == [];
    GaloisZero(n, h);
    AtAdd(Zero(n), Shift(Zero(n), e), c);
    AtShift(Zero(n), e, c);
    AtZero(n, c);
    AtZero(n, c - e);
  }

  /** A database answers every query as the recurrence demands if and only if its loop length is even, that is
   *  above 1, or it holds nothing but zeros. */
  lemma AnswersEveryIff(k: Config, entries: seq<Elem>)
    requires k.Valid() && k.g.LoopLen() > 0 && Accepted(k, entries) && Cong(k.invL * k.g.l, 1, k.t)
    ensures AnswersEvery(k, entries) <==> k.g.LoopLen() % 2 == 0 || Blank(entries)
  {
    ConfigFacts(k);
    hide Mul, Mono, Stored, ModQ, Config.Valid, Accepted, Expected, Answered, IndexGroup.LoopLen, Blank, Cong;
    var n := k.g.N;
    forall keyB: Pair, qryB: Elem, conjB: Elem | keyB.Size(n) && |qryB| == |conjB| == n && (k.m > 0 || Blank(entries))
      ensures Answered(k, entries, keyB, qryB, conjB) == Expected(k, entries, keyB, qryB, conjB)
    {
      AnsweredCases(k, entries, keyB, qryB, conjB);
      if k.m == 0 {
        BlankExpected(k, entries, keyB, qryB, conjB);
      }
    }
    if k.m == 0 && AnswersEvery(k, entries) {
      LostQuery(k, entries);
      assert EmptyKey(n).Size(n) && |Mono(n, 0)| == |Zero(n)| == n;
      ZeroStoredBlank(k, entries);
    }
  }

  lemma BlankExpected(k: Config, entries: seq<Elem>, keyB: Pair, qryB: Elem, conjB: Elem)
    requires k.Valid() && k.g.LoopLen() == 1 && k.m == 0 && Accepted(k, entries) && Blank(entries)
    requires keyB.Size(k.g.N) && |qryB| == |conjB| == k.g.N
    ensures Expected(k, entries, keyB, qryB, conjB) == Zero(k.g.N)
  {
    assert k.g.N > 0;
    hide *;
    ExpectedOfOne(k, entries, keyB, qryB, conjB);
    BlankStored(k, entries, false);
    BlankStored(k, entries, true);
    MulZeroLeft(qryB);
    MulZeroLeft(conjB);
    AddZero(Zero(k.g.N));
    ZeroModQ(k.g.N);
  }

  /** The reply is the b-half of the recurrence for all entries and all queries if and only if the loop length is
   *  even (or there is but one plaintext). */
  lemma ReplyIsPartBIff(k: Config)
    requires k.Valid() && k.g.LoopLen() > 0 && Cong(k.invL * k.g.l, 1, k.t)
    ensures (forall entries :: Accepted(k, entries) ==> AnswersEvery(k, entries)) <==> k.g.LoopLen() % 2 == 0 || k.t == 1
  {
    hide Config.Valid, AnswersEvery, Cong, IndexGroup.LoopLen;
    forall entries | Accepted(k, entries)
      ensures AnswersEvery(k, entries) <==> k.g.LoopLen() % 2 == 0 || Blank(entries)
    {
      AnswersEveryIff(k, entries);
    }
    ConfigFacts(k);
    var ones := seq(k.g.l, j => seq(k.g.N, i => 1));
    if k.t > 1 {
      GroupNotEmpty(k);
      assert Accepted(k, ones) && ones[0][0] == 1 && !Blank(ones);
    }
  }

  lemma GroupNotEmpty(k: Config)
    requires k.Valid()
    ensures k.g.l > 0 && k.g.N > 0 && k.t > 0 && k.t % 2 == 1
  {
    hide Setup.Valid, Pow2;
  }
}
