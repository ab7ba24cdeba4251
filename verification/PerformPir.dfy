/** perform_pir_split: from a query and the preprocessed database to the b-half of the reply. */
module PerformPir {
  import opened Arith
  import opened Sums
  import opened Negacyclic
  import opened GaloisGroup
  import opened SpecialZn
  import opened Ntt
  import opened OnlineLoop
  import opened PhaseSplit
  import opened Refinement
  import G = Gadget
  import P = Permute

  /** One of the two loops over the database: the stored elements, their digits and the query's b-half. */
  datatype Side = Side(stored: seq<Elem>, digits: seq<Pair>, qryB: Elem) {
    ghost predicate Valid(N: nat) {
      && N > 0 && |stored| == |digits| && |qryB| == N
      && (forall i :: 0 <= i < |stored| ==> |stored[i]| == N)
      && (forall i :: 0 <= i < |digits| ==> digits[i].Size(N))
    }

    function Result(N: nat, h: int, keyB: Pair): (b: Elem)
      requires Valid(N) && keyB.Size(N)
      ensures |b| == N
    {
      PartB(N, h, stored, digits, keyB, qryB)
    }

    /** The iterations that reach the buffer which the caller of main_pir_loop reads. */
    function Kept(): Side
      requires |stored| == |digits|
    {
      var k := OnlineLoop.Kept(|stored|);
      Side(stored[..k], digits[..k], qryB)
    }
  }

  lemma KeptValid(side: Side, N: nat)
    requires side.Valid(N)
    ensures side.Kept().Valid(N)
    ensures |side.stored| % 2 == 0 ==> side.Kept() == side
    ensures |side.stored| == 1 ==> side.Kept() == Side([], [], side.qryB)
  {
  }

  /** Loop lengths of index groups. */
  ghost predicate LoopLength(len: nat) {
    exists m: nat :: len == Pow2(m)
  }

  lemma LoopLengthCases(len: nat)
    requires LoopLength(len)
    ensures len == 1 || (len > 0 && len % 2 == 0)
  {
    var m: nat :| len == Pow2(m);
    if m > 0 {
      assert Pow2(m) == 2 * Pow2(m - 1);
    }
  }

  /** The b-half of the reply: both loops if the group needs the conjugates, else the first one alone. */
  function ReplyB(N: nat, h: int, keyB: Pair, requiresConj: bool, main: Side, conj: Side): (b: Elem)
    requires main.Valid(N) && conj.Valid(N) && keyB.Size(N)
    ensures |b| == N
  {
    if requiresConj then Add(main.Result(N, h, keyB), conj.Result(N, h, keyB)) else main.Result(N, h, keyB)
  }

  /** The b-half that perform_pir_split computes: both loops lose the last iteration of an odd number. */
  function OnlineB(N: nat, h: int, keyB: Pair, requiresConj: bool, main: Side, conj: Side): (b: Elem)
    requires main.Valid(N) && conj.Valid(N) && keyB.Size(N)
    ensures |b| == N
  {
    KeptValid(main, N);
    KeptValid(conj, N);
    ReplyB(N, h, keyB, requiresConj, main.Kept(), conj.Kept())
  }

  /** For an even number of iterations that is the b-half of the recurrence; a single iteration leaves zero,
   *  whatever was asked. */
  lemma OnlineCases(N: nat, h: int, keyB: Pair, requiresConj: bool, main: Side, conj: Side)
    requires main.Valid(N) && conj.Valid(N) && keyB.Size(N) && (requiresConj ==> |main.stored| == |conj.stored|)
    ensures |main.stored| % 2 == 0 ==>
              OnlineB(N, h, keyB, requiresConj, main, conj) == ReplyB(N, h, keyB, requiresConj, main, conj)
    ensures |main.stored| == 1 ==> OnlineB(N, h, keyB, requiresConj, main, conj) == Zero(N)
  {
    KeptValid(main, N);
    KeptValid(conj, N);
  }

  /** The buffer, read through the table, holds the transform of b. */
  ghost predicate Scrambled(r: Root, buffer: seq<int>, table: seq<nat>, b: Elem) {
    && |buffer| == |table| == |b| == r.N > 0
    && (forall j :: 0 <= j < r.N ==> table[j] < r.N)
    && forall j :: 0 <= j < r.N ==> Cong(buffer[table[j]], Slot(r, b, j), r.p)
  }

  /** One loop over the database for one RNS component. */
  method RunLoop(z: Ring, r: Root, reduceEvery: nat, g: int, h: int, inp: Inputs, ghost side: Side, ghost keyB: Pair,
                 len: nat)
    returns (sum: array<int>)
    requires z.CheckInvariant() && r.Valid() && z.Modulus() == r.p
    requires Inverse(g, h, r.N) && g % 2 == 1 && h % 2 == 1
    requires inp.Valid(z, r.N, len) && len == |side.stored|
    requires Loaded(r, inp, side.stored, side.digits, keyB, side.qryB)
    requires side.Valid(r.N) && keyB.Size(r.N)
    requires reduceEvery > 0 && Budget(z, reduceEvery) < TWO_64
    ensures fresh(sum) && sum.Length == r.N
    ensures side.Kept().Valid(r.N)
    ensures Scrambled(r, sum[..], SlotTable(r.N, h), side.Kept().Result(r.N, h, keyB))
    ensures len % 2 == 0 || len == 1 ==> Within(sum[..], 2 * z.Modulus())
  {
    KeptValid(side, r.N);
    PowerBound(z);
    hide Loaded, Inputs.Valid, Ring.CheckInvariant, Cong, Growth, Agrees, Within, Lookup, Recurrence, SlotOf, Scrambled;
    LookupTable(r.N, g, h);
    var table := SlotTable(r.N, h);
    ghost var back := SlotTable(r.N, g);
    sum := new int[r.N](_ => 0);
    var sumNew := new int[r.N](_ => 0);
    MainPirLoop(z, r.N, len, reduceEvery, sum, sumNew, table, inp, back);
    LoopResult(r, inp, g, h, side, keyB, sum[..]);
    if len == 1 {
      ZerosWithin(sum[..], 2 * z.Modulus());
    }
  }

  lemma ZerosWithin(buffer: seq<int>, bound: int)
    requires bound >= 0 && forall j :: 0 <= j < |buffer| ==> buffer[j] == 0
    ensures Within(buffer, bound)
  {
  }

  lemma LoopResult(r: Root, inp: Inputs, g: int, h: int, side: Side, keyB: Pair, buffer: seq<int>)
    requires r.Valid() && Inverse(g, h, r.N) && g % 2 == 1 && h % 2 == 1
    requires Loaded(r, inp, side.stored, side.digits, keyB, side.qryB)
    requires side.Valid(r.N) && keyB.Size(r.N)
    requires |buffer| == r.N
    requires Agrees(r.p, buffer, SlotTable(r.N, h), Recurrence(inp, r.N, SlotTable(r.N, g), Kept(|side.stored|)))
    ensures side.Kept().Valid(r.N)
    ensures Scrambled(r, buffer, SlotTable(r.N, h), side.Kept().Result(r.N, h, keyB))
  {
    KeptValid(side, r.N);
    hide Loaded, Cong, Agrees, Recurrence, SlotOf, PartB, Slot;
    var table := SlotTable(r.N, h);
    var k := Kept(|side.stored|);
    var v := Recurrence(inp, r.N, SlotTable(r.N, g), k);
    var b := side.Kept().Result(r.N, h, keyB);
    forall j | 0 <= j < r.N
      ensures Cong(buffer[table[j]], Slot(r, b, j), r.p)
    {
      RecurrenceIsPartB(r, inp, g, h, side.stored, side.digits, keyB, side.qryB, k, j);
      AgreesAt(r.p, buffer, table, v, j);
      CongTrans(buffer[table[j]], v[j], Slot(r, b, j), r.p);
    }
  }

  /** Adds the conjugate sums. */
  method AddConjugate(z: Ring, r: Root, sum: array<int>, sumConj: array<int>, ghost table: seq<nat>,
                      ghost b: Elem, ghost bConj: Elem)
    requires z.CheckInvariant()
    requires Scrambled(r, sum[..], table, b) && Scrambled(r, sumConj[..], table, bConj)
    requires Within(sum[..], 2 * z.Modulus()) && Within(sumConj[..], 2 * z.Modulus())
    requires sum != sumConj
    modifies sum
    ensures Scrambled(r, sum[..], table, Add(b, bConj))
  {
    ghost var was := sum[..];
    PowerBound(z);
    FourModuliFit(z);
    hide Cong, Ring.CheckInvariant, Scrambled;
    for j := 0 to r.N
      invariant sum.Length == sumConj.Length == r.N
      invariant forall x :: 0 <= x < j ==> sum[x] == was[x] + sumConj[x]
      invariant forall x :: j <= x < r.N ==> sum[x] == was[x]
    {
      NoWrap(was[j], sumConj[j]);
      sum[j] := Add64(sum[j], sumConj[j]);
    }
    ScrambledAdd(r, was, sumConj[..], sum[..], table, b, bConj);
  }

  lemma FourModuliFit(z: Ring)
    requires z.CheckInvariant()
    ensures 4 * z.Modulus() < TWO_64
  {
    PowerBound(z);
  }

  lemma ScrambledAdd(r: Root, x: seq<int>, y: seq<int>, s: seq<int>, table: seq<nat>, b: Elem, c: Elem)
    requires Scrambled(r, x, table, b) && Scrambled(r, y, table, c)
    requires |s| == r.N && forall i :: 0 <= i < r.N ==> s[i] == x[i] + y[i]
    ensures Scrambled(r, s, table, Add(b, c))
  {
    hide Cong, Eval;
    forall j | 0 <= j < r.N
      ensures Cong(s[table[j]], Slot(r, Add(b, c), j), r.p)
    {
      EvalAdd(r, b, c, 2 * j + 1);
      CongAdd(x[table[j]], Slot(r, b, j), y[table[j]], Slot(r, c, j), r.p);
    }
  }

  function TableMap(table: seq<nat>): int -> int {
    i => if 0 <= i < |table| then table[i] else i
  }

  /** The end of perform_pir_split for one component: undo the scrambling, reduce, transform back. */
  method Finish(r: Root, sum: array<int>, g: int, h: int, ghost b: Elem)
    requires r.Valid() && Inverse(g, h, r.N) && g % 2 == 1 && h % 2 == 1
    requires exists n :: r.N == Pow2(n)
    requires Scrambled(r, sum[..], SlotTable(r.N, h), b)
    modifies sum
    ensures ElemCong(sum[..], b, r.p)
  {
    hide Cong, SlotOf, Scrambled, Permutes, Pow2;
    var table := SlotTable(r.N, h);
    ghost var was := sum[..];
    TablePermutes(r.N, g, h);
    ScrambledSize(r, was, table, b);
    P.Permute(sum, TableMap(table));
    ghost var ordered := sum[..];
    for j := 0 to r.N
      invariant forall x :: 0 <= x < j ==> sum[x] == ordered[x] % r.p
      invariant forall x :: j <= x < r.N ==> sum[x] == ordered[x]
    {
      sum[j] := sum[j] % r.p;
    }
    Unscrambled(r, was, ordered, sum[..], table, b);
    InvWeightedNtt(r, sum);
    NttRoundTrip(r, b);
  }

  lemma ScrambledSize(r: Root, buffer: seq<int>, table: seq<nat>, b: Elem)
    requires Scrambled(r, buffer, table, b)
    ensures |buffer| == |table| == |b| == r.N > 0
  {
  }

  lemma TablePermutes(N: nat, g: int, h: int)
    requires N > 0 && Inverse(g, h, N)
    requires g % 2 == 1 && h % 2 == 1
    ensures Permutes(TableMap(SlotTable(N, h)), N)
  {
    hide SlotOf;
    LookupTable(N, g, h);
    var table := SlotTable(N, h);
    forall i, j | 0 <= i < N && 0 <= j < N && TableMap(table)(i) == TableMap(table)(j)
      ensures i == j
    {
      assert SlotMap(N, h)(i) == SlotMap(N, h)(j);
    }
  }

  lemma Unscrambled(r: Root, was: seq<int>, ordered: seq<int>, reduced: seq<int>, table: seq<nat>, b: Elem)
    requires r.Valid() && Scrambled(r, was, table, b)
    requires Permutes(TableMap(table), |was|) && P.Permuted(was, ordered, TableMap(table))
    requires |reduced| == |ordered| && forall x :: 0 <= x < |ordered| ==> reduced[x] == ordered[x] % r.p
    ensures reduced == NttOf(r, b)
  {
    hide Cong, Eval, Permutes;
    forall j | 0 <= j < r.N
      ensures reduced[j] == NttOf(r, b)[j]
    {
      assert ordered[j] == was[TableMap(table)(j)] == was[table[j]];
      assert Cong(was[table[j]], Slot(r, b, j), r.p);
      CongMod(ordered[j], Slot(r, b, j), r.p);
    }
  }

  /** What one loop over the database needs: the ring and root of the component, and loaded slabs. */
  ghost predicate Prepared(z: Ring, r: Root, g: int, h: int, inp: Inputs, side: Side, keyB: Pair, len: nat) {
    && z.CheckInvariant() && r.Valid() && z.Modulus() == r.p
    && Inverse(g, h, r.N) && g % 2 == 1 && h % 2 == 1
    && inp.Valid(z, r.N, len) && len == |side.stored| && LoopLength(len)
    && Loaded(r, inp, side.stored, side.digits, keyB, side.qryB)
    && side.Valid(r.N) && keyB.Size(r.N)
  }

  /** perform_pir_split for one RNS component, up to the inverse transform. */
  method ReplyComponent(z: Ring, r: Root, g: int, h: int, requiresConj: bool, len: nat,
                        main: Inputs, conj: Inputs, ghost mainSide: Side, ghost conjSide: Side, ghost keyB: Pair)
    returns (out: array<int>)
    requires Prepared(z, r, g, h, main, mainSide, keyB, len)
    requires conjSide.Valid(r.N) && (requiresConj ==> Prepared(z, r, g, h, conj, conjSide, keyB, len))
    requires z == G.RING1 || z == G.RING2
    requires exists n :: r.N == Pow2(n)
    ensures ElemCong(out[..], OnlineB(r.N, h, keyB, requiresConj, mainSide, conjSide), r.p)
  {
    LoopLengthCases(len);
    KeptValid(conjSide, r.N);
    hide Loaded, Inputs.Valid, Ring.CheckInvariant, Cong, Within, SlotOf, Scrambled, Side.Result, Pow2, Inverse, Root.Valid, Budget, ReduceEvery, LoopLength, Side.Kept, Side.Valid;
    BudgetIs();
    var reduceEvery := ReduceEvery();
    out := RunLoop(z, r, reduceEvery, g, h, main, mainSide, keyB, len);
    if requiresConj {
      var sumConj := RunLoop(z, r, reduceEvery, g, h, conj, conjSide, keyB, len);
      AddConjugate(z, r, out, sumConj, SlotTable(r.N, h),
                   mainSide.Kept().Result(r.N, h, keyB), conjSide.Kept().Result(r.N, h, keyB));
    }
    Finish(r, out, g, h, OnlineB(r.N, h, keyB, requiresConj, mainSide, conjSide));
  }

  /** The whole of perform_pir_split for one lane: the reply's b-half, exactly, reduced modulo q, if the number of
   *  iterations is even; for a single iteration it is zero. */
  method PerformPirSplit(r1: Root, r2: Root, c1: int, c2: int, g: int, h: int, requiresConj: bool, len: nat,
                         main1: Inputs, main2: Inputs, conj1: Inputs, conj2: Inputs,
                         ghost mainSide: Side, ghost conjSide: Side, ghost keyB: Pair)
    returns (reply: Elem)
    requires r1.N == r2.N && exists n :: r1.N == Pow2(n)
    requires Prepared(G.RING1, r1, g, h, main1, mainSide, keyB, len)
    requires Prepared(G.RING2, r2, g, h, main2, mainSide, keyB, len)
    requires conjSide.Valid(r1.N)
    requires requiresConj ==> Prepared(G.RING1, r1, g, h, conj1, conjSide, keyB, len)
    requires requiresConj ==> Prepared(G.RING2, r2, g, h, conj2, conjSide, keyB, len)
    requires Cong(c1 * G.Q2, 1, G.Q1) && Cong(c2 * G.Q1, 1, G.Q2)
    ensures reply == ModQ(OnlineB(r1.N, h, keyB, requiresConj, mainSide, conjSide))
    ensures len % 2 == 0 ==> reply == ModQ(ReplyB(r1.N, h, keyB, requiresConj, mainSide, conjSide))
    ensures len == 1 ==> reply == Zero(r1.N)
  {
    PrimesOf(r1, r2, g, h, main1, main2, mainSide, keyB, len);
    hide Prepared, Cong, OnlineB, Budget, Pow2, Side.Valid, ModQ, ElemCong;
    var out1 := ReplyComponent(G.RING1, r1, g, h, requiresConj, len, main1, conj1, mainSide, conjSide, keyB);
    var out2 := ReplyComponent(G.RING2, r2, g, h, requiresConj, len, main2, conj2, mainSide, conjSide, keyB);
    ghost var b := OnlineB(r1.N, h, keyB, requiresConj, mainSide, conjSide);
    reply := JoinRns(r1.N, out1, out2, c1, c2, b);
    EqualLengths(r1, g, h, requiresConj, main1, conj1, mainSide, conjSide, keyB, len);
    OnlineCases(r1.N, h, keyB, requiresConj, mainSide, conjSide);
    ZeroModQ(r1.N);
  }

  lemma EqualLengths(r: Root, g: int, h: int, requiresConj: bool, main: Inputs, conj: Inputs, mainSide: Side,
                     conjSide: Side, keyB: Pair, len: nat)
    requires Prepared(G.RING1, r, g, h, main, mainSide, keyB, len)
    requires requiresConj ==> Prepared(G.RING1, r, g, h, conj, conjSide, keyB, len)
    ensures len == |mainSide.stored| && (requiresConj ==> |mainSide.stored| == |conjSide.stored|)
  {
    hide Loaded, Inputs.Valid, Ring.CheckInvariant, Inverse;
  }

  lemma ZeroModQ(N: nat)
    ensures ModQ(Zero(N)) == Zero(N)
  {
  }

  lemma BudgetIs()
    ensures ReduceEvery() > 0
    ensures Budget(G.RING1, ReduceEvery()) < TWO_64 && Budget(G.RING2, ReduceEvery()) < TWO_64
  {
    BudgetSuffices();
  }

  lemma PrimesOf(r1: Root, r2: Root, g: int, h: int, main1: Inputs, main2: Inputs, side: Side, keyB: Pair, len: nat)
    requires Prepared(G.RING1, r1, g, h, main1, side, keyB, len)
    requires Prepared(G.RING2, r2, g, h, main2, side, keyB, len)
    ensures r1.p == G.Q1 && r2.p == G.Q2
    ensures r1.N > 0 && side.Valid(r1.N) && keyB.Size(r1.N)
  {
    hide Loaded, Inputs.Valid, Ring.CheckInvariant, Inverse;
    G.RingModuli();
  }

  /** The last loop of from_simd_element. */
  method JoinRns(N: nat, x1: array<int>, x2: array<int>, c1: int, c2: int, ghost b: Elem)
    returns (result: Elem)
    requires |b| == N
    requires Cong(c1 * G.Q2, 1, G.Q1) && Cong(c2 * G.Q1, 1, G.Q2)
    requires ElemCong(x1[..], b, G.Q1) && ElemCong(x2[..], b, G.Q2)
    ensures result == ModQ(b)
  {
    hide Cong, G.FromRns;
    result := [];
    for i := 0 to N
      invariant |result| == i
      invariant forall x :: 0 <= x < i ==> result[x] == b[x] % G.Q
    {
      assert Cong(x1[..][i], b[i], G.Q1) && Cong(x2[..][i], b[i], G.Q2);
      G.FromRnsExact(x1[i], x2[i], c1, c2, b[i]);
      result := result + [G.FromRns(x1[i], x2[i], c1, c2)];
    }
  }
}
