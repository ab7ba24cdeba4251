/** PIRDatabase for one SIMD lane: set_db fills the slabs, get_a and perform_pir_split answer from them. */
module PirDatabase {
  import opened Arith
  import opened Negacyclic
  import opened GaloisGroup
  import opened SpecialZn
  import opened Ntt
  import opened OnlineLoop
  import opened PhaseSplit
  import opened Refinement
  import opened PerformPir
  import opened Offline
  import opened Retrieval
  import opened EndToEnd
  import D = Database
  import G = Gadget
  import Bfv

  /** The slabs of one loop over the database. */
  datatype Loop = Loop(entries: Rns, inner0: Rns, inner1: Rns)

  /** The slabs hold the plan: its stored elements and the digits of every iteration. */
  ghost predicate Ready(s: Setup, len: nat, loop: Loop, plan: Plan) {
    && s.r1.N > 0 && plan.Valid(s.r1.N) && len == |plan.stored|
    && Slab(s, loop.entries, len) && Slab(s, loop.inner0, len) && Slab(s, loop.inner1, len)
    && (forall k :: 0 <= k < len ==> SlabHolds(s, loop.entries, k, plan.stored[k]))
    && (forall k: nat :: k < len ==> DigitsHeld(s, loop.inner0, loop.inner1, plan, k))
  }

  /** to_simd_element: both transforms of an element. */
  method ToSimd(s: Setup, a: Elem) returns (v: Rns)
    requires s.Valid() && |a| == s.r1.N
    ensures Represents(s.r1, s.r2, v, a)
  {
    hide Cong, Slot, Pow2, Ring.CheckInvariant, Inverse, Holds, NttOf;
    G.RingModuli();
    var x1 := D.NttColumn(s.r1, a);
    var x2 := D.NttColumn(s.r2, a);
    SelfCong(a, G.Q1);
    SelfCong(a, G.Q2);
    TransformHolds(s.r1, a, a);
    TransformHolds(s.r2, a, a);
    ReducedIsRepr(G.RING1, x1);
    ReducedIsRepr(G.RING2, x2);
    v := Rns(x1, x2);
  }

  lemma SelfCong(a: Elem, p: int)
    ensures ElemCong(a, a, p)
  {
    forall i | 0 <= i < |a|
      ensures Cong(a[i], a[i], p)
    {
      CongRefl(a[i], p);
    }
  }

  /** The stored elements' transforms, one after the other. */
  method FillSlab(s: Setup, u1: D.Matrix, u2: D.Matrix, ghost stored: seq<Elem>) returns (slab: Rns)
    requires s.Valid() && forall i :: 0 <= i < |stored| ==> |stored[i]| == s.r1.N
    requires u1 == D.Embedded(s.r1, stored) && u2 == D.Embedded(s.r2, stored)
    ensures Slab(s, slab, |stored|)
    ensures forall k :: 0 <= k < |stored| ==> SlabHolds(s, slab, k, stored[k])
  {
    hide Cong, Slot, Pow2, Ring.CheckInvariant, Inverse, Holds, NttOf, Slab, SlabHolds, Represents;
    G.RingModuli();
    slab := Rns([], []);
    EmptySlab(s, slab);
    for i := 0 to |u1|
      invariant Slab(s, slab, i)
      invariant forall k :: 0 <= k < i ==> SlabHolds(s, slab, k, stored[k])
    {
      var v := Rns(u1[i], u2[i]);
      EmbeddedRepresents(s, v, stored[i]);
      AppendSlab(s, slab, v, stored[i], i);
      forall k | 0 <= k < i
        ensures SlabHolds(s, Appended(slab, v), k, stored[k])
      {
        KeepSlab(s, slab, v, stored[k], k);
      }
      slab := Appended(slab, v);
    }
  }

  lemma EmbeddedRepresents(s: Setup, v: Rns, a: Elem)
    requires s.Valid() && |a| == s.r1.N
    requires v == Rns(NttOf(s.r1, a), NttOf(s.r2, a))
    ensures Represents(s.r1, s.r2, v, a)
  {
    hide Cong, Slot, Pow2, Ring.CheckInvariant, Inverse, Holds, NttOf;
    G.RingModuli();
    SelfCong(a, G.Q1);
    SelfCong(a, G.Q2);
    TransformHolds(s.r1, a, a);
    TransformHolds(s.r2, a, a);
    ReducedIsRepr(G.RING1, v.x1);
    ReducedIsRepr(G.RING2, v.x2);
  }

  function InputsOf1(loop: Loop, gk0: Rns, gk1: Rns, qry: Rns): Inputs {
    Inputs(gk0.x1, gk1.x1, qry.x1, loop.inner0.x1, loop.inner1.x1, loop.entries.x1)
  }

  function InputsOf2(loop: Loop, gk0: Rns, gk1: Rns, qry: Rns): Inputs {
    Inputs(gk0.x2, gk1.x2, qry.x2, loop.inner0.x2, loop.inner1.x2, loop.entries.x2)
  }

  ghost function SideOf(s: Setup, plan: Plan, qryB: Elem): Side
    requires s.r1.N > 0 && plan.Valid(s.r1.N)
  {
    Side(plan.stored, AllDigits(s.r1.N, s.h, plan.stored, plan.keyA, plan.qryA), qryB)
  }

  /** What preprocessing left in the slabs is what the online loop expects, in both components. */
  lemma ReadyIsPrepared(s: Setup, len: nat, loop: Loop, plan: Plan, gk0: Rns, gk1: Rns, qry: Rns, keyB: Pair, qryB: Elem)
    requires s.Valid() && Ready(s, len, loop, plan) && LoopLength(len)
    requires keyB.Size(s.r1.N) && |qryB| == s.r1.N
    requires Represents(s.r1, s.r2, gk0, keyB.d0) && Represents(s.r1, s.r2, gk1, keyB.d1)
    requires Represents(s.r1, s.r2, qry, qryB)
    ensures Prepared(G.RING1, s.r1, s.g, s.h, InputsOf1(loop, gk0, gk1, qry), SideOf(s, plan, qryB), keyB, len)
    ensures Prepared(G.RING2, s.r2, s.g, s.h, InputsOf2(loop, gk0, gk1, qry), SideOf(s, plan, qryB), keyB, len)
  {
    hide Cong, Slot, Pow2, Ring.CheckInvariant, Inverse, Holds, Root.Valid, Loaded, DigitsAt;
    G.RingModuli();
    var side := SideOf(s, plan, qryB);
    forall k: nat | k < len
      ensures HoldsAt(s.r1, InputsOf1(loop, gk0, gk1, qry), k, plan.stored[k], side.digits[k])
      ensures HoldsAt(s.r2, InputsOf2(loop, gk0, gk1, qry), k, plan.stored[k], side.digits[k])
    {
      assert SlabHolds(s, loop.entries, k, plan.stored[k]);
      assert DigitsHeld(s, loop.inner0, loop.inner1, plan, k);
    }
    IsLoaded(s.r1, InputsOf1(loop, gk0, gk1, qry), side, keyB);
    IsLoaded(s.r2, InputsOf2(loop, gk0, gk1, qry), side, keyB);
  }

  lemma IsLoaded(r: Root, inp: Inputs, side: Side, keyB: Pair)
    requires side.Valid(r.N) && keyB.Size(r.N)
    requires |inp.gk0| == |inp.gk1| == |inp.qry| == r.N
    requires |inp.inner0| == |inp.inner1| == |inp.entries|
    requires Holds(r, inp.gk0, 0, keyB.d0) && Holds(r, inp.gk1, 0, keyB.d1) && Holds(r, inp.qry, 0, side.qryB)
    requires forall k: nat :: k < |side.stored| ==> HoldsAt(r, inp, k, side.stored[k], side.digits[k])
    ensures Loaded(r, inp, side.stored, side.digits, keyB, side.qryB)
  {
    hide Cong, Slot, Holds, HoldsAt;
  }

  /** The constants of a database: its shape, the roots and the public a-halves expanded from the seeds. */
  datatype Config = Config(s: Setup, g: IndexGroup, m: nat, t: int, invL: int, keyA: Pair, qryA: Elem, conjA: Elem) {
    ghost predicate Valid() {
      && s.Valid() && g.Layout(m) && g.N == s.r1.N > 0 && s.g == 5
      && t > 0 && t % 2 == 1 && 2 * t * g.N < G.Q1
      && keyA.Size(g.N) && |qryA| == |conjA| == g.N
    }

    ghost function MainPlan(entries: seq<Elem>): Plan
      requires g.LoopLen() > 0 && g.N > 0 && t > 0 && t % 2 == 1
    {
      Plan(Stored(g, t, invL, entries, false), keyA, qryA)
    }

    ghost function ConjPlan(entries: seq<Elem>): Plan
      requires g.LoopLen() > 0 && g.N > 0 && t > 0 && t % 2 == 1
    {
      Plan(Stored(g, t, invL, entries, true), keyA, conjA)
    }
  }

  /** Entries as set_db accepts them: exactly l of them, with canonical coefficients. */
  ghost predicate Accepted(k: Config, entries: seq<Elem>) {
    Entries(k.g, entries) && forall j, i :: 0 <= j < k.g.l && 0 <= i < k.g.N ==> 0 <= entries[j][i] < k.t
  }

  lemma ConfigFacts(k: Config)
    requires k.Valid()
    ensures k.g.LoopLen() > 0 && k.g.N == k.s.r1.N == k.s.r2.N > 0
    ensures LoopLength(k.g.LoopLen())
    ensures k.m > 0 ==> k.g.LoopLen() % 2 == 0
    ensures k.m == 0 ==> k.g.LoopLen() == 1
    ensures k.t > 0 && k.t % 2 == 1 && G.Q1 % 2 == 1 && k.s.r1.p == G.Q1
    ensures exists n :: k.g.N == Pow2(n)
  {
    if k.m > 0 {
      assert Pow2(k.m) == 2 * Pow2(k.m - 1);
    }
  }

  /** The a-half that both loops leave together. */
  ghost function SumA(k: Config, entries: seq<Elem>): (a: Elem)
    requires k.Valid() && k.g.LoopLen() > 0
    ensures |a| == k.g.N
  {
    var main := PartA(k.g.N, k.s.h, Stored(k.g, k.t, k.invL, entries, false), k.keyA, k.qryA);
    if k.g.RequiresConj()
    then Add(main, PartA(k.g.N, k.s.h, Stored(k.g, k.t, k.invL, entries, true), k.keyA, k.conjA))
    else main
  }

  /** One preprocess_loop call, over slabs that already hold the stored elements. */
  method PreprocessSide(s: Setup, len: nat, entries: Rns, gk0: Rns, gk1: Rns, qry: Rns, ghost plan: Plan)
    returns (loop: Loop, sum: Rns)
    requires s.Valid() && plan.Valid(s.r1.N) && len == |plan.stored|
    requires Represents(s.r1, s.r2, gk0, plan.keyA.d0) && Represents(s.r1, s.r2, gk1, plan.keyA.d1)
    requires Represents(s.r1, s.r2, qry, plan.qryA)
    requires Slab(s, entries, len)
    requires forall k :: 0 <= k < len ==> SlabHolds(s, entries, k, plan.stored[k])
    ensures Ready(s, len, loop, plan)
    ensures Represents(s.r1, s.r2, sum, PartA(s.r1.N, s.h, plan.stored, plan.keyA, plan.qryA))
  {
    var inner0, inner1;
    assert s.r1.N > 0;
    hide Setup.Valid, Plan.Valid, Represents, Slab, SlabHolds, DigitsHeld, PartA;
    sum, inner0, inner1 := Offline.PreprocessLoop(s, len, gk0, gk1, qry, entries, plan);
    loop := Loop(entries, inner0, inner1);
  }

  /** add_assign over all slots of one component. */
  method AddSums(z: Ring, r: Root, x: seq<int>, y: seq<int>, ghost a: Elem, ghost b: Elem) returns (v: seq<int>)
    requires z.CheckInvariant() && r.Valid() && z.Modulus() == r.p
    requires |x| == |y| == |a| == |b| == r.N
    requires AllRepr(z, x) && AllRepr(z, y) && Holds(r, x, 0, a) && Holds(r, y, 0, b)
    ensures |v| == r.N && AllRepr(z, v) && Holds(r, v, 0, Add(a, b))
  {
    assert r.N > 0;
    hide Cong, Slot, Holds, Ring.CheckInvariant, Ring.Repr, Root.Valid, Ring.AddOf;
    v := [];
    for i := 0 to r.N
      invariant |v| == i
      invariant forall j :: 0 <= j < i ==> z.Repr(v[j])
      invariant forall j :: 0 <= j < i ==> Cong(v[j], Slot(r, Add(a, b), j), r.p)
    {
      AddLaw(z, x[i], y[i]);
      SumSlot(r, x, y, a, b, z.AddOf(x[i], y[i]), i);
      v := v + [z.AddOf(x[i], y[i])];
    }
    HoldsAll(r, v, Add(a, b));
  }

  lemma SumSlot(r: Root, x: seq<int>, y: seq<int>, a: Elem, b: Elem, total: int, i: nat)
    requires r.Valid() && i < r.N && |x| == |y| == |a| == |b| == r.N
    requires Holds(r, x, 0, a) && Holds(r, y, 0, b) && Cong(total, x[i] + y[i], r.p)
    ensures Cong(total, Slot(r, Add(a, b), i), r.p)
  {
    hide Cong, Eval, Holds, Root.Valid;
    HoldsSlot(r, x, 0, a, i);
    HoldsSlot(r, y, 0, b, i);
    EvalAdd(r, a, b, 2 * i + 1);
    CongAdd(x[i], Slot(r, a, i), y[i], Slot(r, b, i), r.p);
    CongTrans(total, x[i] + y[i], Slot(r, a, i) + Slot(r, b, i), r.p);
  }

  /** The reply that the textbook recurrence defines. */
  ghost function Expected(k: Config, entries: seq<Elem>, keyB: Pair, qryB: Elem, conjB: Elem): (b: Elem)
    requires k.Valid() && k.g.LoopLen() > 0 && keyB.Size(k.g.N) && |qryB| == |conjB| == k.g.N
    ensures |b| == k.g.N
  {
    ModQ(ReplyB(k.g.N, k.s.h, keyB, k.g.RequiresConj(),
                SideOf(k.s, k.MainPlan(entries), qryB), SideOf(k.s, k.ConjPlan(entries), conjB)))
  }

  /** The reply that the online phase computes. */
  ghost function Answered(k: Config, entries: seq<Elem>, keyB: Pair, qryB: Elem, conjB: Elem): (b: Elem)
    requires k.Valid() && k.g.LoopLen() > 0 && keyB.Size(k.g.N) && |qryB| == |conjB| == k.g.N
    ensures |b| == k.g.N
  {
    ModQ(OnlineB(k.g.N, k.s.h, keyB, k.g.RequiresConj(),
                 SideOf(k.s, k.MainPlan(entries), qryB), SideOf(k.s, k.ConjPlan(entries), conjB)))
  }

  lemma AnsweredCases(k: Config, entries: seq<Elem>, keyB: Pair, qryB: Elem, conjB: Elem)
    requires k.Valid() && k.g.LoopLen() > 0 && keyB.Size(k.g.N) && |qryB| == |conjB| == k.g.N
    ensures k.m > 0 ==> Answered(k, entries, keyB, qryB, conjB) == Expected(k, entries, keyB, qryB, conjB)
    ensures k.m == 0 ==> Answered(k, entries, keyB, qryB, conjB) == Zero(k.g.N)
  {
    ConfigFacts(k);
    hide Setup.Valid, IndexGroup.Layout, Stored, OnlineB, ReplyB, ModQ, AllDigits;
    OnlineCases(k.g.N, k.s.h, keyB, k.g.RequiresConj(),
                SideOf(k.s, k.MainPlan(entries), qryB), SideOf(k.s, k.ConjPlan(entries), conjB));
    ZeroModQ(k.g.N);
  }

  class Db {
    const k: Config
    var main: Loop
    var conj: Loop
    var replyA: Rns
    ghost var entries: seq<Elem>

    /** The database is set up, and all its slabs belong to its entries. */
    ghost predicate Valid()
      reads this
    {
      && k.Valid() && k.g.LoopLen() > 0
      && Accepted(k, entries)
      && Ready(k.s, k.g.LoopLen(), main, k.MainPlan(entries))
      && (k.g.RequiresConj() ==> Ready(k.s, k.g.LoopLen(), conj, k.ConjPlan(entries)))
      && Represents(k.s.r1, k.s.r2, replyA, SumA(k, entries))
    }

    constructor (k: Config)
      ensures this.k == k
    {
      this.k := k;
      var empty := Rns([], []);
      main, conj := Loop(empty, empty, empty), Loop(empty, empty, empty);
      replyA := empty;
      entries := [];
    }

    /** set_db: transforms and stores the entries, then preprocesses; nothing of an earlier content is left. */
    method SetDb(newEntries: seq<Elem>)
      requires k.Valid() && Accepted(k, newEntries)
      modifies this
      ensures Valid() && entries == newEntries
    {
      hide Config.Valid, Accepted, Ready, Represents, SumA, Config.MainPlan, Config.ConjPlan;
      ConfigFacts(k);
      var main', conj', replyA' := Preprocess(k, newEntries);
      main, conj, replyA, entries := main', conj', replyA', newEntries;
    }

    /** get_a. */
    method GetA() returns (a: Elem)
      requires Valid()
      ensures a == ModQ(SumA(k, entries))
    {
      hide Accepted, Ready, Represents, SumA, ModQ, Config.MainPlan, Config.ConjPlan, Setup.Valid, IndexGroup.Layout;
      a := FromSimd(k.s, replyA, SumA(k, entries));
    }

    /** perform_pir_split: the b-half of the recurrence over the entries if the loop length is even, that is m > 0.
     *  A database with loop length 1 answers every query with zero. */
    method PerformPirSplit(qryB: Elem, conjB: Elem, keyB: Pair) returns (b: Elem)
      requires Valid() && keyB.Size(k.g.N) && |qryB| == |conjB| == k.g.N
      ensures k.m > 0 ==> b == Expected(k, entries, keyB, qryB, conjB)
      ensures k.m == 0 ==> b == Zero(k.g.N)
      ensures b == Answered(k, entries, keyB, qryB, conjB)
    {
      hide Config.Valid, Accepted, Ready, Represents, SumA, Answered, Expected;
      ConfigFacts(k);
      b := Reply(k, main, conj, qryB, conjB, keyB, entries);
      AnsweredCases(k, entries, keyB, qryB, conjB);
    }
  }

  /** set_transformed_entries and preprocess. */
  method Preprocess(k: Config, entries: seq<Elem>) returns (main: Loop, conj: Loop, replyA: Rns)
    requires k.Valid() && k.g.LoopLen() > 0 && Accepted(k, entries)
    ensures Ready(k.s, k.g.LoopLen(), main, k.MainPlan(entries))
    ensures k.g.RequiresConj() ==> Ready(k.s, k.g.LoopLen(), conj, k.ConjPlan(entries))
    ensures Represents(k.s.r1, k.s.r2, replyA, SumA(k, entries))
  {
    ConfigFacts(k);
    G.RingModuli();
    ghost var n :| k.g.N == Pow2(n);
    hide Stored, Represents, Slab, SlabHolds, Ready, PartA, D.Embedded, Setup.Valid, IndexGroup.Layout, Ring.CheckInvariant, Pow2;
    var main0, main1, conj0, conj1 := Transform(k, entries, n);
    var gk0 := ToSimd(k.s, k.keyA.d0);
    var gk1 := ToSimd(k.s, k.keyA.d1);
    var qry := ToSimd(k.s, k.qryA);
    var slab := FillSlab(k.s, main0, main1, k.MainPlan(entries).stored);
    main, replyA := PreprocessSide(k.s, k.g.LoopLen(), slab, gk0, gk1, qry, k.MainPlan(entries));
    conj := Loop(Rns([], []), Rns([], []), Rns([], []));
    if k.g.RequiresConj() {
      var qryConj := ToSimd(k.s, k.conjA);
      var slabConj := FillSlab(k.s, conj0, conj1, k.ConjPlan(entries).stored);
      var sumConj;
      conj, sumConj := PreprocessSide(k.s, k.g.LoopLen(), slabConj, gk0, gk1, qryConj, k.ConjPlan(entries));
      replyA := AddBoth(k.s, replyA, sumConj,
                        PartA(k.g.N, k.s.h, k.MainPlan(entries).stored, k.keyA, k.qryA),
                        PartA(k.g.N, k.s.h, k.ConjPlan(entries).stored, k.keyA, k.conjA));
    }
  }

  method Transform(k: Config, entries: seq<Elem>, ghost n: nat)
    returns (main0: D.Matrix, main1: D.Matrix, conj0: D.Matrix, conj1: D.Matrix)
    requires k.Valid() && k.g.LoopLen() > 0 && Accepted(k, entries) && k.g.N == Pow2(n)
    ensures main0 == D.Embedded(k.s.r1, k.MainPlan(entries).stored)
    ensures main1 == D.Embedded(k.s.r2, k.MainPlan(entries).stored)
    ensures k.g.RequiresConj() ==> conj0 == D.Embedded(k.s.r1, k.ConjPlan(entries).stored)
    ensures k.g.RequiresConj() ==> conj1 == D.Embedded(k.s.r2, k.ConjPlan(entries).stored)
  {
    ConfigFacts(k);
    hide Stored, D.Embedded, IndexGroup.Layout, Pow2;
    main0, main1, conj0, conj1 := D.SetTransformedEntries(k.g, k.s.r1, k.s.r2, k.t, k.invL, k.s.h, entries, k.m, n);
  }

  method AddBoth(s: Setup, x: Rns, y: Rns, ghost a: Elem, ghost b: Elem) returns (v: Rns)
    requires s.Valid() && |a| == |b|
    requires Represents(s.r1, s.r2, x, a) && Represents(s.r1, s.r2, y, b)
    ensures Represents(s.r1, s.r2, v, Add(a, b))
  {
    G.RingModuli();
    hide Holds, AllRepr, Ring.CheckInvariant, Root.Valid, Pow2, Inverse;
    var v1 := AddSums(G.RING1, s.r1, x.x1, y.x1, a, b);
    var v2 := AddSums(G.RING2, s.r2, x.x2, y.x2, a, b);
    v := Rns(v1, v2);
  }

  /** from_simd_element: both inverse transforms, then the coefficients modulo q. */
  method FromSimd(s: Setup, v: Rns, ghost a: Elem) returns (r: Elem)
    requires s.Valid() && Represents(s.r1, s.r2, v, a)
    ensures r == ModQ(a)
  {
    hide Cong, Slot, Pow2, Ring.CheckInvariant, Inverse, Holds, ElemCong, ModQ;
    var x1 := new int[s.r1.N](i requires 0 <= i < |v.x1| => v.x1[i]);
    var x2 := new int[s.r1.N](i requires 0 <= i < |v.x2| => v.x2[i]);
    assert x1[..] == v.x1 && x2[..] == v.x2;
    BackToCoefficients(s.r1, x1, a);
    BackToCoefficients(s.r2, x2, a);
    r := JoinRns(s.r1.N, x1, x2, s.c1, s.c2, a);
  }

  /** The online phase on a database that is ready. */
  method Reply(k: Config, main: Loop, conj: Loop, qryB: Elem, conjB: Elem, keyB: Pair, ghost entries: seq<Elem>)
    returns (b: Elem)
    requires k.Valid() && k.g.LoopLen() > 0
    requires Ready(k.s, k.g.LoopLen(), main, k.MainPlan(entries))
    requires k.g.RequiresConj() ==> Ready(k.s, k.g.LoopLen(), conj, k.ConjPlan(entries))
    requires keyB.Size(k.g.N) && |qryB| == |conjB| == k.g.N
    ensures b == Answered(k, entries, keyB, qryB, conjB)
  {
    ConfigFacts(k);
    G.RingModuli();
    hide Stored, Represents, Ready, Ring.CheckInvariant, Prepared, Pow2, ModQ, ReplyB, Cong, Inverse, IndexGroup.Layout;
    ghost var mainPlan, conjPlan := k.MainPlan(entries), k.ConjPlan(entries);
    var len := k.g.LoopLen();
    var gk0 := ToSimd(k.s, keyB.d0);
    var gk1 := ToSimd(k.s, keyB.d1);
    var qry := ToSimd(k.s, qryB);
    ReadyIsPrepared(k.s, len, main, mainPlan, gk0, gk1, qry, keyB, qryB);
    var qryConj := Rns([], []);
    if k.g.RequiresConj() {
      qryConj := ToSimd(k.s, conjB);
      ReadyIsPrepared(k.s, len, conj, conjPlan, gk0, gk1, qryConj, keyB, conjB);
    }
    b := PerformPir.PerformPirSplit(k.s.r1, k.s.r2, k.s.c1, k.s.c2, k.s.g, k.s.h, k.g.RequiresConj(), len,
                                    InputsOf1(main, gk0, gk1, qry), InputsOf2(main, gk0, gk1, qry),
                                    InputsOf1(conj, gk0, gk1, qryConj), InputsOf2(conj, gk0, gk1, qryConj),
                                    SideOf(k.s, mainPlan, qryB), SideOf(k.s, conjPlan, conjB), keyB);
  }

  /** The shard of the round-trip theorem and the client's masks are those of the database. */
  ghost predicate Matches(k: Config, entries: seq<Elem>, d: Shard, c: Client) {
    && d.g == k.g && d.m == k.m && d.h == k.s.h && d.t == k.t && d.invL == k.invL && d.entries == entries
    && c.keyA == k.keyA && c.qryA == k.qryA && c.conjA == k.conjA
  }

  lemma SameA(k: Config, entries: seq<Elem>, d: Shard, c: Client)
    requires k.Valid() && k.g.LoopLen() > 0 && d.Valid() && c.Size(d.g.N) && Matches(k, entries, d, c)
    ensures ModQ(SumA(k, entries)) == ReplyA(d, c)
  {
    hide PartA, Stored, ModQ, Cong, Inverse, IndexGroup.Layout, Entries, Setup.Valid;
  }

  lemma SameB(k: Config, entries: seq<Elem>, d: Shard, c: Client, idx: nat)
    requires k.Valid() && k.g.LoopLen() > 0 && d.Valid() && c.Size(d.g.N) && Matches(k, entries, d, c)
    requires k.MainPlan(entries).Valid(d.g.N) && k.ConjPlan(entries).Valid(d.g.N)
    ensures SideOf(k.s, k.MainPlan(entries), MainSide(d, c, idx).qryB) == MainSide(d, c, idx)
    ensures SideOf(k.s, k.ConjPlan(entries), ConjSide(d, c, idx).qryB) == ConjSide(d, c, idx)
  {
    hide AllDigits, Stored, EncSymB, Cong, Inverse, Mono, IndexGroup.Layout, Entries, Setup.Valid, Plan.Valid;
  }

  lemma SameReply(k: Config, entries: seq<Elem>, d: Shard, c: Client, idx: nat)
    requires k.Valid() && k.g.LoopLen() > 0 && d.Valid() && c.Size(d.g.N) && Matches(k, entries, d, c)
    ensures Expected(k, entries, c.KeyB(5, d.h), MainSide(d, c, idx).qryB, ConjSide(d, c, idx).qryB) == ReplyTo(d, c, idx)
  {
    PlansValid(k, entries);
    SameB(k, entries, d, c, idx);
    hide SideOf, MainSide, ConjSide, ModQ, ReplyB, Client.KeyB, Cong, IndexGroup.Layout, Entries, Setup.Valid;
  }

  lemma PlansValid(k: Config, entries: seq<Elem>)
    requires k.Valid() && k.g.LoopLen() > 0
    ensures k.MainPlan(entries).Valid(k.g.N) && k.ConjPlan(entries).Valid(k.g.N)
  {
    hide Setup.Valid, IndexGroup.Layout;
  }

  lemma EntryReduced(k: Config, entries: seq<Elem>, idx: nat)
    requires k.t > 0 && Accepted(k, entries) && idx < k.g.l
    ensures |entries| == k.g.l && |entries[idx]| == k.g.N
    ensures forall i :: 0 <= i < k.g.N ==> entries[idx][i] % k.t == entries[idx][i]
  {
    forall i | 0 <= i < k.g.N
      ensures entries[idx][i] % k.t == entries[idx][i]
    {
      DivModUnique(entries[idx][i], k.t, 0, entries[idx][i]);
    }
  }

  /** What the client decrypts for entry idx, coefficient i. */
  ghost predicate Retrieved(d: Shard, c: Client, idx: nat, m: Elem, i: nat)
    requires d.Valid() && c.Size(d.g.N) && idx < d.g.l && |m| == d.g.N
  {
    i < d.g.N && |d.entries| == d.g.l && |d.entries[idx]| == d.g.N
    && (m[i] == d.entries[idx][i] <==> Bfv.Carry(Disturbance(d, c, idx, i), G.Q) % d.t == 0)
    && (2 * Abs(Disturbance(d, c, idx, i)) < G.Q ==> m[i] == d.entries[idx][i])
  }

  lemma DecryptedIsRetrieved(k: Config, d: Shard, c: Client, idx: nat, m: Elem, i: nat)
    requires k.Valid() && k.g.LoopLen() > 0 && Accepted(k, d.entries) && d.g == k.g && d.t == k.t
    requires d.Valid() && c.Size(d.g.N) && idx < d.g.l && i < d.g.N
    requires m == Dec(c.s, ReplyA(d, c), ReplyTo(d, c, idx), d.t, d.qInv)
    ensures Retrieved(d, c, idx, m, i)
  {
    hide Config.Valid, Accepted, ReplyA, ReplyTo, Disturbance, Bfv.Carry, Dec, IndexGroup.Layout, Inverse, Cong;
    assert k.t > 0;
    EntryReduced(k, d.entries, idx);
    ShardRoundTrip(d, c, idx, i);
  }

  /** A whole query: the client encrypts its index, the server answers, the client decrypts. Coefficient i is
   *  that of entry idx if and only if the disturbance's carry is a multiple of t. With a loop length of 1 the reply
   *  is the a-half alone, for every index. */
  method Retrieve(db: Db, d: Shard, c: Client, idx: nat) returns (m: Elem)
    requires db.Valid() && d.Valid() && c.Size(d.g.N) && Matches(db.k, db.entries, d, c) && idx < d.g.l
    ensures |m| == d.g.N && (d.m > 0 ==> forall i: nat :: i < d.g.N ==> Retrieved(d, c, idx, m, i))
    ensures d.m == 0 ==> m == Dec(c.s, ReplyA(d, c), Zero(d.g.N), d.t, d.qInv)
  {
    m := Exchange(db, d, c, idx);
    DbFacts(db, d, c);
    hide *;
    if d.m > 0 {
      forall i: nat | i < d.g.N
        ensures Retrieved(d, c, idx, m, i)
      {
        DecryptedIsRetrieved(db.k, d, c, idx, m, i);
      }
    }
  }

  lemma DbFacts(db: Db, d: Shard, c: Client)
    requires db.Valid() && d.Valid() && Matches(db.k, db.entries, d, c)
    ensures db.k.Valid() && db.k.g.LoopLen() > 0 && Accepted(db.k, d.entries)
    ensures d.g == db.k.g && d.m == db.k.m && d.t == db.k.t && d.h == db.k.s.h && d.g.N > 0 && d.t > 0 && d.t % 2 == 1
    ensures Inverse(5, d.h, d.g.N) && G.Q % 2 == 1
  {
    hide Config.Valid, Accepted, Ready, Represents, IndexGroup.Layout, Inverse, Cong, Entries;
  }

  method Exchange(db: Db, d: Shard, c: Client, idx: nat) returns (m: Elem)
    requires db.Valid() && d.Valid() && c.Size(d.g.N) && Matches(db.k, db.entries, d, c) && idx < d.g.l
    ensures |m| == d.g.N
    ensures d.m > 0 ==> m == Dec(c.s, ReplyA(d, c), ReplyTo(d, c, idx), d.t, d.qInv)
    ensures d.m == 0 ==> m == Dec(c.s, ReplyA(d, c), Zero(d.g.N), d.t, d.qInv)
  {
    DbFacts(db, d, c);
    PlansValid(db.k, d.entries);
    SameA(db.k, d.entries, d, c);
    SameReply(db.k, d.entries, d, c, idx);
    hide *;
    var keyB := c.KeyB(5, d.h);
    var qryB := EncSymB(c.s, c.qryA, c.qryE, Mono(d.g.N, MainPower(d.g, idx)), d.t, d.tInv);
    var conjB := EncSymB(c.s, c.conjA, c.conjE, Mono(d.g.N, ConjPower(d.g, idx)), d.t, d.tInv);
    var a := db.GetA();
    var b := db.PerformPirSplit(qryB, conjB, keyB);
    m := Dec(c.s, a, b, d.t, d.qInv);
  }
}
