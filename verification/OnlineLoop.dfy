/** main_pir_loop: the per-query inner loop on one RNS component and one lane, with its fused permutation,
 *  two swapped buffers and delayed reduction; and what its result means for the ciphertext.
 */
module OnlineLoop {
  import opened Arith
  import opened SpecialZn
  import G = Gadget

  /** The preprocessed slab and the query, in transform values; slabs hold iteration i at i * N. */
  datatype Inputs = Inputs(gk0: seq<int>, gk1: seq<int>, qry: seq<int>,
                           inner0: seq<int>, inner1: seq<int>, entries: seq<int>) {
    ghost predicate Valid(z: Ring, N: nat, len: nat) {
      && |gk0| == |gk1| == |qry| == N
      && |inner0| == |inner1| == |entries| == N * len
      && AllRepr(z, gk0) && AllRepr(z, gk1) && AllRepr(z, qry)
      && AllRepr(z, inner0) && AllRepr(z, inner1) && AllRepr(z, entries)
    }

    /** What slot j gains when the slab position is index. */
    function Term(index: int, j: int): int {
      if 0 <= index < |inner0| && 0 <= index < |inner1| && 0 <= index < |entries|
         && 0 <= j < |gk0| && 0 <= j < |gk1| && 0 <= j < |qry|
      then inner0[index] * gk0[j] + inner1[index] * gk1[j] + entries[index] * qry[j]
      else 0
    }
  }

  ghost predicate AllRepr(z: Ring, s: seq<int>) {
    forall i :: 0 <= i < |s| ==> z.Repr(s[i])
  }

  /** A slot permutation given as a list, with its inverse. */
  ghost predicate Lookup(N: nat, table: seq<nat>, back: seq<nat>) {
    && |table| == |back| == N
    && (forall j :: 0 <= j < N ==> table[j] < N && back[j] < N)
    && (forall i, j :: 0 <= i < N && 0 <= j < N && table[i] == table[j] ==> i == j)
    && (forall i, j :: 0 <= i < N && 0 <= j < N && back[j] == i ==> table[i] == j)
  }

  /** The textbook recurrence: rotate the slots, then add the terms of iteration k. */
  ghost function Recurrence(inp: Inputs, N: nat, back: seq<nat>, k: nat): (v: seq<int>)
    requires |back| == N && forall j :: 0 <= j < N ==> back[j] < N
    ensures |v| == N
  {
    if k == 0 then seq(N, j => 0)
    else
      var prev := Recurrence(inp, N, back, k - 1);
      seq(N, j requires 0 <= j < N => prev[back[j]] + inp.Term((k - 1) * N + j, j))
  }

  // ------------------------------------------------------------------- precision budget

  /** Largest growth of a slot in one iteration. */
  function Growth(z: Ring): int {
    3 * ((2 * z.Modulus()) * (2 * z.Modulus()))
  }

  /** The number of iterations between reductions that perform_pir_split computes. */
  function ReduceEvery(): int {
    Min((TWO_64 - 1) / (2 * G.Q1) / (2 * G.Q1) / 3, (TWO_64 - 1) / (2 * G.Q2) / (2 * G.Q2) / 3)
  }

  /** With that number no accumulator of either component can wrap, even starting from a reduced value. */
  lemma BudgetSuffices()
    ensures ReduceEvery() == 341
    ensures 2 * G.RING1.Modulus() + ReduceEvery() * Growth(G.RING1) < TWO_64
    ensures 2 * G.RING2.Modulus() + ReduceEvery() * Growth(G.RING2) < TWO_64
  {
    G.RingModuli();
  }

  lemma TermBound(z: Ring, inp: Inputs, N: nat, len: nat, index: int, j: int)
    requires z.CheckInvariant()
    requires inp.Valid(z, N, len)
    requires 0 <= index < N * len && 0 <= j < N
    ensures 0 <= inp.Term(index, j) <= Growth(z)
  {
    hide Ring.CheckInvariant, Pow2;
    ReprProduct(z, inp.inner0[index], inp.gk0[j]);
    ReprProduct(z, inp.inner1[index], inp.gk1[j]);
    ReprProduct(z, inp.entries[index], inp.qry[j]);
  }

  lemma ReprProduct(z: Ring, x: int, y: int)
    requires z.Repr(x) && z.Repr(y)
    ensures 0 <= x * y <= (2 * z.Modulus()) * (2 * z.Modulus())
  {
    var b := 2 * z.Modulus();
    MulMonotone(0, x, y);
    MulMonotone(x, b, y);
    MulMonotone(y, b, b);
    assert b * y == y * b;
  }

  lemma LowReprProduct(z: Ring, x: int, y: int)
    requires z.CheckInvariant() && z.Repr(x) && z.Repr(y)
    ensures MulLow32(x, y) == x * y
  {
    PowerBound(z);
    LowProduct(x, y);
  }

  // -------------------------------------------------------------------------- the loop

  /** One pass over all slots: read sum in order, write sumNew through the table. */
  method OneIteration(z: Ring, N: nat, len: nat, sum: array<int>, sumNew: array<int>, table: seq<nat>,
                      inp: Inputs, start: nat, ghost back: seq<nat>, ghost bound: int)
    requires z.CheckInvariant() && inp.Valid(z, N, len) && Lookup(N, table, back)
    requires sum != sumNew && sum.Length == sumNew.Length == N
    requires start + N <= Size(N, len)
    requires 0 <= bound && bound + Growth(z) < TWO_64
    requires Within(sum[..], bound)
    modifies sumNew
    ensures Scattered(inp, N, table, start, sum[..], sumNew[..], bound + Growth(z))
  {
    hide Ring.CheckInvariant, Inputs.Term, Inputs.Valid, Growth;
    var index := start;
    for j := 0 to N
      invariant index == start + j
      invariant forall i :: 0 <= i < j ==> sumNew[table[i]] == sum[i] + inp.Term(start + i, i)
      invariant forall i :: 0 <= i < j ==> 0 <= sumNew[table[i]] <= bound + Growth(z)
    {
      assert 0 <= sum[..][j] <= bound;
      var current := SlotUpdate(z, N, len, inp, sum[j], index, j, bound);
      sumNew[table[j]] := current;
      index := index + 1;
    }
  }

  /** What one pass writes: slot j plus its terms, at the looked-up position. */
  ghost predicate Scattered(inp: Inputs, N: nat, table: seq<nat>, start: int, before: seq<int>, after: seq<int>,
                            bound: int) {
    && |before| == |after| == |table| == N
    && forall j :: 0 <= j < N ==>
         table[j] < N && after[table[j]] == before[j] + inp.Term(start + j, j) && 0 <= after[table[j]] <= bound
  }

  /** The three multiply-accumulates of one slot. */
  method SlotUpdate(z: Ring, N: nat, len: nat, inp: Inputs, x: int, index: nat, j: nat, ghost bound: int)
    returns (current: int)
    requires z.CheckInvariant() && inp.Valid(z, N, len)
    requires index < N * len && j < N
    requires 0 <= x <= bound && bound + Growth(z) < TWO_64
    ensures current == x + inp.Term(index, j)
    ensures 0 <= current <= bound + Growth(z)
  {
    hide Ring.CheckInvariant, MulLow32, Pow2, Growth, Inputs.Term, Add64;
    TermBound(z, inp, N, len, index, j);
    var a := MulLow32(inp.inner0[index], inp.gk0[j]);
    var b := MulLow32(inp.inner1[index], inp.gk1[j]);
    var c := MulLow32(inp.entries[index], inp.qry[j]);
    TermParts(z, inp, N, len, index, j, a, b, c);
    current := Add64(x, a);
    current := Add64(current, b);
    current := Add64(current, c);
    NoWrap(x, a);
    NoWrap(x + a, b);
    NoWrap(x + a + b, c);
  }

  lemma TermParts(z: Ring, inp: Inputs, N: nat, len: nat, index: nat, j: nat, a: int, b: int, c: int)
    requires z.CheckInvariant() && inp.Valid(z, N, len)
    requires index < N * len && j < N
    requires a == MulLow32(inp.inner0[index], inp.gk0[j])
    requires b == MulLow32(inp.inner1[index], inp.gk1[j])
    requires c == MulLow32(inp.entries[index], inp.qry[j])
    ensures a >= 0 && b >= 0 && c >= 0 && a + b + c == inp.Term(index, j)
  {
    hide Ring.CheckInvariant, MulLow32, Pow2;
    ReprProduct(z, inp.inner0[index], inp.gk0[j]);
    ReprProduct(z, inp.inner1[index], inp.gk1[j]);
    ReprProduct(z, inp.entries[index], inp.qry[j]);
    LowReprProduct(z, inp.inner0[index], inp.gk0[j]);
    LowReprProduct(z, inp.inner1[index], inp.gk1[j]);
    LowReprProduct(z, inp.entries[index], inp.qry[j]);
  }

  /** The buffer, read through the table, agrees with the recurrence modulo p. */
  ghost predicate Agrees(p: int, buffer: seq<int>, table: seq<nat>, v: seq<int>) {
    && |buffer| == |table| == |v|
    && (forall j :: 0 <= j < |table| ==> table[j] < |buffer|)
    && forall j :: 0 <= j < |table| ==> Cong(buffer[table[j]], v[j], p)
  }

  ghost predicate Within(buffer: seq<int>, bound: int) {
    forall x :: 0 <= x < |buffer| ==> 0 <= buffer[x] <= bound
  }

  lemma IterationAgrees(p: int, N: nat, table: seq<nat>, back: seq<nat>, inp: Inputs, k: nat,
                        before: seq<int>, after: seq<int>, bound: int)
    requires Lookup(N, table, back)
    requires Agrees(p, before, table, Recurrence(inp, N, back, k))
    requires Scattered(inp, N, table, Offset(k, N), before, after, bound)
    ensures Agrees(p, after, table, Recurrence(inp, N, back, k + 1))
    ensures Within(after, bound)
  {
    hide Cong, Inputs.Term, Recurrence, SlotCorrect;
    var v := Recurrence(inp, N, back, k + 1);
    forall j: nat | j < N
      ensures SlotCorrect(p, table, after, v, bound, j)
    {
      SlotAgrees(p, N, table, back, inp, k, before, after, bound, j);
    }
    AllSlotsCorrect(p, N, table, after, v, bound);
  }

  lemma AllSlotsCorrect(p: int, N: nat, table: seq<nat>, after: seq<int>, v: seq<int>, bound: int)
    requires |after| == |v| == |table| == N
    requires forall j: nat :: j < N ==> SlotCorrect(p, table, after, v, bound, j)
    ensures Agrees(p, after, table, v)
    ensures Within(after, bound)
  {
    hide Cong;
    forall j | 0 <= j < N
      ensures table[j] < N && Cong(after[table[j]], v[j], p) && 0 <= after[j] <= bound
    {
      assert SlotCorrect(p, table, after, v, bound, j);
    }
  }

  ghost predicate SlotCorrect(p: int, table: seq<nat>, after: seq<int>, v: seq<int>, bound: int, j: nat) {
    && j < |after| && j < |v| && j < |table| && table[j] < |after|
    && Cong(after[table[j]], v[j], p) && 0 <= after[j] <= bound
  }

  lemma ScatteredAt(inp: Inputs, N: nat, table: seq<nat>, start: int, before: seq<int>, after: seq<int>,
                    bound: int, j: nat)
    requires Scattered(inp, N, table, start, before, after, bound)
    requires j < N
    ensures |before| == |after| == |table| == N && table[j] < N
    ensures after[table[j]] == before[j] + inp.Term(start + j, j) && 0 <= after[table[j]] <= bound
  {
    hide Inputs.Term;
  }

  lemma AgreesAt(p: int, buffer: seq<int>, table: seq<nat>, v: seq<int>, j: nat)
    requires Agrees(p, buffer, table, v) && j < |table|
    ensures |buffer| == |v| == |table| && table[j] < |buffer| && Cong(buffer[table[j]], v[j], p)
  {
  }

  lemma SlotAgrees(p: int, N: nat, table: seq<nat>, back: seq<nat>, inp: Inputs, k: nat,
                   before: seq<int>, after: seq<int>, bound: int, j: nat)
    requires Lookup(N, table, back)
    requires Agrees(p, before, table, Recurrence(inp, N, back, k))
    requires Scattered(inp, N, table, Offset(k, N), before, after, bound)
    requires j < N
    ensures SlotCorrect(p, table, after, Recurrence(inp, N, back, k + 1), bound, j)
  {
    hide Cong, Inputs.Term, Recurrence, Scattered, Agrees;
    var i := back[j];
    assert table[i] == j;
    hide Lookup;
    var v := Recurrence(inp, N, back, k)[i];
    var t := inp.Term(k * N + j, j);
    AgreesAt(p, before, table, Recurrence(inp, N, back, k), i);
    RecurrenceStep(inp, N, back, k, j);
    CongRefl(t, p);
    CongAdd(before[j], v, t, t, p);
    ScatteredAt(inp, N, table, Offset(k, N), before, after, bound, j);
    ScatteredAt(inp, N, table, Offset(k, N), before, after, bound, i);
  }

  lemma RecurrenceStep(inp: Inputs, N: nat, back: seq<nat>, k: nat, j: nat)
    requires |back| == N && forall j :: 0 <= j < N ==> back[j] < N
    requires j < N
    ensures Recurrence(inp, N, back, k + 1)[j] == Recurrence(inp, N, back, k)[back[j]] + inp.Term(k * N + j, j)
  {
    assert k + 1 - 1 == k;
  }

  /** Where iteration k starts in a slab. */
  function Offset(k: int, N: int): int {
    k * N
  }

  function Size(N: int, len: int): int {
    N * len
  }

  lemma SlabPosition(k: nat, N: nat, len: nat)
    requires k < len
    ensures 0 <= Offset(k, N) && Offset(k, N) + N <= Size(N, len)
  {
    MulMonotone(k + 1, len, N);
    assert (k + 1) * N == k * N + N && len * N == N * len;
  }

  /** Reduces a buffer in place at the end of a block. */
  method ReduceBuffer(z: Ring, N: nat, buffer: array<int>, table: seq<nat>, inp: Inputs, ghost back: seq<nat>,
                      ghost done: nat, ghost bound: int)
    requires z.Modulus() > 0
    requires Running(z, N, table, inp, back, done, buffer[..], bound)
    modifies buffer
    ensures Running(z, N, table, inp, back, done, buffer[..], 2 * z.Modulus())
    ensures Within(buffer[..], z.Modulus() - 1)
  {
    hide Cong, Running;
    ghost var was := buffer[..];
    for j := 0 to buffer.Length
      invariant forall x :: 0 <= x < j ==> buffer[x] == was[x] % z.Modulus()
      invariant forall x :: j <= x < buffer.Length ==> buffer[x] == was[x]
    {
      buffer[j] := buffer[j] % z.Modulus();
    }
    RunningReduced(z, N, table, inp, back, done, was, buffer[..], bound);
  }

  lemma RunningReduced(z: Ring, N: nat, table: seq<nat>, inp: Inputs, back: seq<nat>, done: nat,
                       before: seq<int>, after: seq<int>, bound: int)
    requires z.Modulus() > 0
    requires Running(z, N, table, inp, back, done, before, bound)
    requires |after| == |before| && forall x :: 0 <= x < |after| ==> after[x] == before[x] % z.Modulus()
    ensures Running(z, N, table, inp, back, done, after, 2 * z.Modulus())
    ensures Within(after, z.Modulus() - 1)
  {
    hide Cong, Recurrence;
    var v := Recurrence(inp, N, back, done);
    forall j | 0 <= j < |table|
      ensures table[j] < |after| && Cong(after[table[j]], v[j], z.Modulus())
    {
      CongSelf(before[table[j]], z.Modulus());
      CongTrans(after[table[j]], before[table[j]], v[j], z.Modulus());
    }
  }

  /** Which buffer holds the current sums after done iterations. */
  ghost predicate Swapped(done: nat, sum: array<int>, sumNew: array<int>, cur: array<int>, nxt: array<int>) {
    if done % 2 == 0 then cur == sum && nxt == sumNew else cur == sumNew && nxt == sum
  }

  lemma SwapOnce(done: nat, sum: array<int>, sumNew: array<int>, cur: array<int>, nxt: array<int>)
    requires Swapped(done, sum, sumNew, cur, nxt)
    ensures Swapped(done + 1, sum, sumNew, nxt, cur)
    ensures (cur == sum && nxt == sumNew) || (cur == sumNew && nxt == sum)
  {
  }

  /** The state between iterations: cur holds the recurrence, within the bound. */
  ghost predicate Running(z: Ring, N: nat, table: seq<nat>, inp: Inputs, back: seq<nat>, done: nat,
                          buffer: seq<int>, bound: int)
  {
    && |back| == N && (forall j :: 0 <= j < N ==> back[j] < N)
    && Agrees(z.Modulus(), buffer, table, Recurrence(inp, N, back, done))
    && Within(buffer, bound)
  }

  /** After done > 0 iterations the other buffer still holds the recurrence before the last one. */
  ghost predicate Behind(z: Ring, N: nat, table: seq<nat>, inp: Inputs, back: seq<nat>, done: nat, buffer: seq<int>) {
    && done > 0 && |back| == N && (forall j :: 0 <= j < N ==> back[j] < N)
    && Agrees(z.Modulus(), buffer, table, Recurrence(inp, N, back, done - 1))
  }

  lemma RunningBehind(z: Ring, N: nat, table: seq<nat>, inp: Inputs, back: seq<nat>, done: nat,
                      buffer: seq<int>, bound: int)
    requires Running(z, N, table, inp, back, done, buffer, bound)
    ensures Behind(z, N, table, inp, back, done + 1, buffer)
  {
  }

  /** One iteration, against the recurrence. */
  method RunOnce(z: Ring, N: nat, len: nat, cur: array<int>, nxt: array<int>, table: seq<nat>,
                 inp: Inputs, done: nat, ghost back: seq<nat>, ghost bound: int)
    requires z.CheckInvariant() && inp.Valid(z, N, len) && Lookup(N, table, back)
    requires cur != nxt && cur.Length == nxt.Length == N
    requires done < len && 0 <= bound && bound + Growth(z) < TWO_64
    requires Running(z, N, table, inp, back, done, cur[..], bound)
    modifies nxt
    ensures Running(z, N, table, inp, back, done + 1, nxt[..], bound + Growth(z))
  {
    hide *;
    SlabPosition(done, N, len);
    RunningBound(z, N, table, inp, back, done, cur[..], bound);
    OneIteration(z, N, len, cur, nxt, table, inp, Offset(done, N), back, bound);
    RunningStep(z, N, table, inp, back, done, cur[..], nxt[..], bound, bound + Growth(z));
  }

  /** A block of iterations without a reduction. */
  method RunBlock(z: Ring, N: nat, len: nat, block: nat, sum: array<int>, sumNew: array<int>, table: seq<nat>,
                  inp: Inputs, first: nat, ghost back: seq<nat>, ghost reduceEvery: nat)
    returns (cur: array<int>, nxt: array<int>)
    requires z.CheckInvariant() && inp.Valid(z, N, len) && Lookup(N, table, back)
    requires sum != sumNew && sum.Length == sumNew.Length == N
    requires block <= reduceEvery && first + block <= len
    requires z.Modulus() > 0 && Budget(z, reduceEvery) < TWO_64
    requires Running(z, N, table, inp, back, first, sum[..], 2 * z.Modulus())
    modifies sum, sumNew
    ensures Swapped(block, sum, sumNew, cur, nxt)
    ensures Running(z, N, table, inp, back, first + block, cur[..], Budget(z, block))
    ensures block > 0 ==> Behind(z, N, table, inp, back, first + block, nxt[..])
    ensures block == 1 ==> nxt[..] == old(sum[..])
  {
    hide *;
    GrowthBudget(z, 0, reduceEvery);
    cur, nxt := sum, sumNew;
    SwapNone(sum, sumNew);
    for i := 0 to block
      invariant Swapped(i, sum, sumNew, cur, nxt)
      invariant Running(z, N, table, inp, back, first + i, cur[..], Budget(z, i))
      invariant i > 0 ==> Behind(z, N, table, inp, back, first + i, nxt[..])
      invariant i == 0 ==> cur[..] == old(sum[..])
      invariant i == 1 ==> nxt[..] == old(sum[..])
    {
      SwapOnce(i, sum, sumNew, cur, nxt);
      GrowthBudget(z, i, reduceEvery);
      RunningBehind(z, N, table, inp, back, first + i, cur[..], Budget(z, i));
      RunOnce(z, N, len, cur, nxt, table, inp, first + i, back, Budget(z, i));
      cur, nxt := nxt, cur;
    }
  }

  lemma SwapNone(sum: array<int>, sumNew: array<int>)
    ensures Swapped(0, sum, sumNew, sum, sumNew)
  {
  }

  lemma SwapMany(done: nat, block: nat, sum: array<int>, sumNew: array<int>, cur: array<int>, nxt: array<int>,
                 c: array<int>, n: array<int>)
    requires Swapped(done, sum, sumNew, cur, nxt) && Swapped(block, cur, nxt, c, n)
    ensures Swapped(done + block, sum, sumNew, c, n)
    ensures (c == sum && n == sumNew) || (c == sumNew && n == sum)
  {
  }

  lemma SwapParity(len: nat, sum: array<int>, sumNew: array<int>, cur: array<int>, nxt: array<int>)
    requires Swapped(len, sum, sumNew, cur, nxt)
    ensures len % 2 == 0 ==> cur == sum
    ensures len % 2 == 1 ==> cur == sumNew && nxt == sum
  {
  }

  lemma RunningBound(z: Ring, N: nat, table: seq<nat>, inp: Inputs, back: seq<nat>, done: nat,
                     buffer: seq<int>, bound: int)
    requires Running(z, N, table, inp, back, done, buffer, bound)
    ensures Within(buffer, bound)
  {
  }

  lemma RunningStep(z: Ring, N: nat, table: seq<nat>, inp: Inputs, back: seq<nat>, done: nat,
                    before: seq<int>, after: seq<int>, bound: int, next: int)
    requires Lookup(N, table, back) && next == bound + Growth(z)
    requires Running(z, N, table, inp, back, done, before, bound)
    requires Scattered(inp, N, table, Offset(done, N), before, after, next)
    ensures Running(z, N, table, inp, back, done + 1, after, next)
  {
    hide Agrees, Within, Scattered, Lookup, Recurrence;
    IterationAgrees(z.Modulus(), N, table, back, inp, done, before, after, next);
  }

  /** How many iterations reach the caller's buffer: the buffers are swapped after each, so the last one of an
   *  odd number is left in the other buffer.
   */
  function Kept(len: nat): (k: nat)
    ensures k <= len && k % 2 == 0
  {
    len - len % 2
  }

  /** The whole loop. The caller's sum ends with the recurrence after Kept(len) iterations: all of them if their
   *  number is even, all but the last one, which is in sumNew, if it is odd. A single iteration leaves sum alone.
   */
  method MainPirLoop(z: Ring, N: nat, len: nat, reduceEvery: nat, sum: array<int>, sumNew: array<int>,
                     table: seq<nat>, inp: Inputs, ghost back: seq<nat>)
    requires z.CheckInvariant() && inp.Valid(z, N, len) && Lookup(N, table, back)
    requires sum != sumNew && sum.Length == sumNew.Length == N
    requires reduceEvery > 0 && Budget(z, reduceEvery) < TWO_64
    requires forall j :: 0 <= j < N ==> sum[j] == 0
    modifies sum, sumNew
    ensures Agrees(z.Modulus(), sum[..], table, Recurrence(inp, N, back, Kept(len)))
    ensures len % 2 == 0 ==> Within(sum[..], 2 * z.Modulus())
    ensures len % 2 == 1 ==> Agrees(z.Modulus(), sumNew[..], table, Recurrence(inp, N, back, len))
    ensures len % 2 == 1 ==> Within(sumNew[..], 2 * z.Modulus())
    ensures len == 1 ==> forall j :: 0 <= j < N ==> sum[j] == 0
  {
    hide *;
    var cur, nxt, done := sum, sumNew, 0;
    SwapNone(sum, sumNew);
    ProgressNone(z, N, table, inp, back, sum[..], sumNew[..]);
    while done < len
      invariant done <= len
      invariant Swapped(done, sum, sumNew, cur, nxt)
      invariant Progress(z, N, table, inp, back, done, cur[..], nxt[..], old(sum[..]))
    {
      SwapOnce(done, sum, sumNew, cur, nxt);
      var block := if len - done <= reduceEvery then len - done else reduceEvery;
      var c, n := ReducedBlock(z, N, len, block, cur, nxt, table, inp, done, back, reduceEvery, old(sum[..]));
      SwapMany(done, block, sum, sumNew, cur, nxt, c, n);
      cur, nxt, done := c, n, done + block;
    }
    SwapParity(len, sum, sumNew, cur, nxt);
    ProgressIs(z, N, table, inp, back, len, cur[..], nxt[..], old(sum[..]));
    assert len == 1 ==> sum[..] == old(sum[..]);
  }

  /** The state between blocks: cur is reduced, nxt is one iteration behind, and the start is known for as long
   *  as a buffer still holds it. */
  ghost predicate Progress(z: Ring, N: nat, table: seq<nat>, inp: Inputs, back: seq<nat>, done: nat,
                           cur: seq<int>, nxt: seq<int>, start: seq<int>)
  {
    && Running(z, N, table, inp, back, done, cur, 2 * z.Modulus())
    && (done > 0 ==> Behind(z, N, table, inp, back, done, nxt))
    && (done == 0 ==> cur == start)
    && (done == 1 ==> nxt == start)
  }

  lemma ProgressNone(z: Ring, N: nat, table: seq<nat>, inp: Inputs, back: seq<nat>, cur: seq<int>, nxt: seq<int>)
    requires z.CheckInvariant() && Lookup(N, table, back)
    requires |cur| == N && forall j :: 0 <= j < N ==> cur[j] == 0
    ensures Progress(z, N, table, inp, back, 0, cur, nxt, cur)
  {
    PowerBound(z);
    InitialAgrees(z, N, table, back, inp, cur);
  }

  lemma ProgressRunning(z: Ring, N: nat, table: seq<nat>, inp: Inputs, back: seq<nat>, done: nat,
                        cur: seq<int>, nxt: seq<int>, start: seq<int>)
    requires Progress(z, N, table, inp, back, done, cur, nxt, start)
    ensures Running(z, N, table, inp, back, done, cur, 2 * z.Modulus())
    ensures done == 0 ==> cur == start
  {
    hide Running, Behind;
  }

  lemma ProgressStep(z: Ring, N: nat, table: seq<nat>, inp: Inputs, back: seq<nat>, done: nat,
                     cur: seq<int>, nxt: seq<int>, start: seq<int>)
    requires Running(z, N, table, inp, back, done, cur, 2 * z.Modulus()) && Behind(z, N, table, inp, back, done, nxt)
    requires done == 1 ==> nxt == start
    ensures Progress(z, N, table, inp, back, done, cur, nxt, start)
  {
  }

  lemma ProgressIs(z: Ring, N: nat, table: seq<nat>, inp: Inputs, back: seq<nat>, len: nat,
                   cur: seq<int>, nxt: seq<int>, start: seq<int>)
    requires Progress(z, N, table, inp, back, len, cur, nxt, start)
    requires Lookup(N, table, back)
    ensures Agrees(z.Modulus(), cur, table, Recurrence(inp, N, back, len)) && Within(cur, 2 * z.Modulus())
    ensures len % 2 == 1 ==> Agrees(z.Modulus(), nxt, table, Recurrence(inp, N, back, Kept(len)))
    ensures len % 2 == 0 ==> Kept(len) == len
    ensures len == 1 ==> nxt == start
  {
    hide Agrees, Within, Recurrence;
  }

  /** A block of iterations and the reduction at its end. */
  method ReducedBlock(z: Ring, N: nat, len: nat, block: nat, sum: array<int>, sumNew: array<int>, table: seq<nat>,
                      inp: Inputs, first: nat, ghost back: seq<nat>, ghost reduceEvery: nat, ghost start: seq<int>)
    returns (cur: array<int>, nxt: array<int>)
    requires z.CheckInvariant() && inp.Valid(z, N, len) && Lookup(N, table, back)
    requires sum != sumNew && sum.Length == sumNew.Length == N
    requires 0 < block <= reduceEvery && first + block <= len
    requires Budget(z, reduceEvery) < TWO_64
    requires Progress(z, N, table, inp, back, first, sum[..], sumNew[..], start)
    modifies sum, sumNew
    ensures Swapped(block, sum, sumNew, cur, nxt)
    ensures Progress(z, N, table, inp, back, first + block, cur[..], nxt[..], start)
  {
    hide *;
    PowerBound(z);
    ProgressRunning(z, N, table, inp, back, first, sum[..], sumNew[..], start);
    cur, nxt := RunBlock(z, N, len, block, sum, sumNew, table, inp, first, back, reduceEvery);
    SwapMany(0, block, sum, sumNew, sum, sumNew, cur, nxt) by {
      SwapNone(sum, sumNew);
    }
    ReduceBuffer(z, N, cur, table, inp, back, first + block, Budget(z, block));
    ProgressStep(z, N, table, inp, back, first + block, cur[..], nxt[..], start);
  }

  /** The bound on a slot i iterations after a reduction. */
  function Budget(z: Ring, i: int): int {
    2 * z.Modulus() + i * Growth(z)
  }

  lemma GrowthBudget(z: Ring, i: int, reduceEvery: nat)
    requires z.Modulus() > 0 && Budget(z, reduceEvery) < TWO_64
    ensures 0 <= i < reduceEvery ==> 0 <= Budget(z, i) && Budget(z, i) + Growth(z) < TWO_64
    ensures Budget(z, i + 1) == Budget(z, i) + Growth(z)
    ensures Budget(z, 0) == 2 * z.Modulus()
  {
    ReprProduct(z, 0, 0);
    var g := Growth(z);
    assert g >= 0;
    hide Growth;
    assert (i + 1) * g == i * g + g;
    if 0 <= i < reduceEvery {
      MulMonotone(i + 1, reduceEvery, g);
      MulMonotone(0, i, g);
    }
  }

  lemma InitialAgrees(z: Ring, N: nat, table: seq<nat>, back: seq<nat>, inp: Inputs, buffer: seq<int>)
    requires Lookup(N, table, back) && z.Modulus() > 0
    requires |buffer| == N && forall j :: 0 <= j < N ==> buffer[j] == 0
    ensures Agrees(z.Modulus(), buffer, table, Recurrence(inp, N, back, 0))
    ensures Within(buffer, 2 * z.Modulus())
  {
    CongRefl(0, z.Modulus());
  }
}
