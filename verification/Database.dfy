/** set_transformed_entries: the preprocessing of a shard, for one of the eight SIMD lanes.
 *  It works on the matrix of transform values modulo the first RNS prime, row by row and column by
 *  column; the result is the layout that Retrieval states on ring elements.
 */
module Database {
  import opened Arith
  import opened Sums
  import opened Negacyclic
  import opened GaloisGroup
  import opened Ntt
  import opened Retrieval
  import P = Permute

  type Matrix = seq<Elem>

  // -------------------------------------------------------------- columns and rows as arrays

  method NttColumn(r: Root, v: Elem) returns (u: Elem)
    requires r.Valid() && |v| == r.N
    ensures u == NttOf(r, v)
  {
    var a := new int[|v|](i requires 0 <= i < |v| => v[i]);
    assert a[..] == v;
    WeightedNtt(r, a);
    u := a[..];
  }

  method InvNttColumn(r: Root, v: Elem) returns (u: Elem)
    requires r.Valid() && |v| == r.N
    ensures u == InvNttOf(r, v)
  {
    var a := new int[|v|](i requires 0 <= i < |v| => v[i]);
    assert a[..] == v;
    InvWeightedNtt(r, a);
    u := a[..];
  }

  method PermuteColumn(v: Elem, perm: int -> int) returns (u: Elem)
    requires Permutes(perm, |v|)
    ensures P.Permuted(v, u, perm)
  {
    var a := new int[|v|](i requires 0 <= i < |v| => v[i]);
    assert a[..] == v;
    P.Permute(a, perm);
    u := a[..];
  }

  /** Row i of a matrix given by columns. */
  function RowOf(cols: Matrix, i: nat): (row: Elem)
    requires forall j :: 0 <= j < |cols| ==> i < |cols[j]|
    ensures |row| == |cols|
  {
    seq(|cols|, j requires 0 <= j < |cols| => cols[j][i])
  }

  // ----------------------------------------------------------------- what the steps compute

  /** The coefficients of a transformed entry are sums of l coefficients up to sign, so the arithmetic
   *  modulo the first prime never wraps. */
  lemma HatBound(g: IndexGroup, t: int, entries: seq<Elem>, e: int, c: int)
    requires g.LoopLen() > 0 && g.N > 0
    requires Entries(g, entries)
    requires forall j, i :: 0 <= j < g.l && 0 <= i < g.N ==> 0 <= entries[j][i] < t
    ensures -(g.l * (t - 1)) <= At(Hat(g, entries, e), c) <= g.l * (t - 1)
  {
    hide IndexGroup.QueryBasePower;
    AtHat(g, entries, e, c);
    var f := HatTerm(g, entries, e, c);
    forall j | 0 <= j < g.l
      ensures -(t - 1) <= f(j) <= t - 1
    {
      var i, k := Split(c + g.QueryBasePower() * e * j, g.N);
      AtTurns(entries[j], i, k);
      AtPlain(entries[j], i);
    }
    SumBound(g.l, f, t - 1);
  }

  function ShiftedEntry(g: IndexGroup, entries: seq<Elem>, e: int, x: int, r: Root): int -> int
    requires g.LoopLen() > 0 && r.N > 0
  {
    j => if 0 <= j < |entries| && |entries[j]| > 0
         then Eval(r, Shift(entries[j], -(g.QueryBasePower() * e * j)), x) else 0
  }

  /** Evaluating the transformed entry at x is the length-l transform of the entries' values at x. */
  lemma HatValue(r: Root, g: IndexGroup, entries: seq<Elem>, row: Elem, e: int, x: int)
    requires r.Valid() && r.N == g.N && g.LoopLen() > 0 && g.l > 0
    requires Entries(g, entries)
    requires x % 2 == 1
    requires |row| == g.l && forall j :: 0 <= j < g.l ==> row[j] == Eval(r, entries[j], x) % r.p
    ensures Eval(r, row, -(x * g.QueryBasePower()) * e) % r.p == Eval(r, Hat(g, entries, e), x) % r.p
  {
    hide Cong, Eval, EvalTerm, Hat, HatTable, ShiftedEntry, HatTerm, W, At, IndexGroup.QueryBasePower;
    var n := g.N;
    var f := HatTable(r, g, entries, e, x);
    var cols := ShiftedEntry(g, entries, e, x, r);
    forall c | 0 <= c < n
      ensures EvalTerm(r, Hat(g, entries, e), x)(c) == Sum(g.l, Row(f, c))
    {
      HatRow(r, g, entries, e, x, c);
    }
    forall j | 0 <= j < g.l
      ensures cols(j) == Sum(n, Col(f, j))
      ensures Cong(cols(j), EvalTerm(r, row, -(x * g.QueryBasePower()) * e)(j), r.p)
    {
      HatColumn(r, g, entries, e, x, j);
      HatColumnValue(r, g, entries, row, e, x, j);
    }
    SumSwap(n, g.l, f, EvalTerm(r, Hat(g, entries, e), x), cols);
    EvalIsSum(r, Hat(g, entries, e), x);
    EvalIsSum(r, row, -(x * g.QueryBasePower()) * e);
    SumCong(g.l, cols, EvalTerm(r, row, -(x * g.QueryBasePower()) * e), r.p);
    CongMod(Eval(r, Hat(g, entries, e), x), Eval(r, row, -(x * g.QueryBasePower()) * e), r.p);
  }

  lemma EvalIsSum(r: Root, a: Elem, e: int)
    requires r.N > 0 && |a| > 0
    ensures Eval(r, a, e) == Sum(|a|, EvalTerm(r, a, e))
  {
  }

  function HatTable(r: Root, g: IndexGroup, entries: seq<Elem>, e: int, x: int): (int, int) -> int
    requires r.N > 0 && g.LoopLen() > 0
  {
    (c, j) => EntryAt(entries, j, c + g.QueryBasePower() * e * j) * W(r, x * c)
  }

  lemma HatRow(r: Root, g: IndexGroup, entries: seq<Elem>, e: int, x: int, c: int)
    requires r.N == g.N > 0 && g.LoopLen() > 0
    requires Entries(g, entries)
    ensures EvalTerm(r, Hat(g, entries, e), x)(c) == Sum(g.l, Row(HatTable(r, g, entries, e, x), c))
  {
    hide Hat, W, At, EntryAt, IndexGroup.QueryBasePower;
    AtHat(g, entries, e, c);
    var w := W(r, x * c);
    var u, v := HatTerm(g, entries, e, c), Row(HatTable(r, g, entries, e, x), c);
    forall j | 0 <= j < g.l
      ensures v(j) == w * u(j)
    {
      SwapProduct(w, u(j));
    }
    SumScale(g.l, w, u, v);
    SwapProduct(w, Sum(g.l, u));
  }

  lemma HatColumn(r: Root, g: IndexGroup, entries: seq<Elem>, e: int, x: int, j: int)
    requires r.N == g.N > 0 && g.LoopLen() > 0
    requires Entries(g, entries)
    requires 0 <= j < g.l
    ensures ShiftedEntry(g, entries, e, x, r)(j) == Sum(g.N, Col(HatTable(r, g, entries, e, x), j))
  {
    hide W, At, Shift, IndexGroup.QueryBasePower;
    var k := -(g.QueryBasePower() * e * j);
    var u, v := EvalTerm(r, Shift(entries[j], k), x), Col(HatTable(r, g, entries, e, x), j);
    forall c | 0 <= c < g.N
      ensures u(c) == v(c)
    {
      AtShift(entries[j], k, c);
    }
    SumExt(g.N, u, v);
  }

  lemma HatColumnValue(r: Root, g: IndexGroup, entries: seq<Elem>, row: Elem, e: int, x: int, j: int)
    requires r.Valid() && r.N == g.N && g.LoopLen() > 0
    requires Entries(g, entries)
    requires x % 2 == 1
    requires |row| == g.l && 0 <= j < g.l && row[j] == Eval(r, entries[j], x) % r.p
    ensures Cong(ShiftedEntry(g, entries, e, x, r)(j), EvalTerm(r, row, -(x * g.QueryBasePower()) * e)(j), r.p)
  {
    hide Cong, Eval, W, Shift, IndexGroup.QueryBasePower;
    var bp := g.QueryBasePower();
    var k := -(bp * e * j);
    EvalShift(r, entries[j], k, x);
    CongSelf(Eval(r, entries[j], x), r.p);
    CongSym(row[j], Eval(r, entries[j], x), r.p);
    CongScale(W(r, x * k), Eval(r, entries[j], x), row[j], r.p);
    NegatedProduct(x, bp, e, j);
    AtPlain(row, j);
    SwapProduct(row[j], W(r, x * k));
    CongTrans(Eval(r, Shift(entries[j], k), x), W(r, x * k) * Eval(r, entries[j], x), W(r, x * k) * row[j], r.p);
  }

  lemma NegatedProduct(x: int, bp: int, e: int, j: int)
    ensures x * -(bp * e * j) == -(x * bp) * e * j
  {
    assert x * (bp * e * j) == x * bp * e * j;
    assert x * -(bp * e * j) == -(x * (bp * e * j));
    assert -(x * bp) * e * j == -(x * bp * e * j);
  }

  // ------------------------------------------------------------------ columns after rotation

  /** The power of 5 that column k is rotated back by: the conjugated half starts over. */
  function HalfIndex(g: IndexGroup, k: nat): nat
    requires g.LoopLen() > 0
  {
    if k < g.LoopLen() then k else k - g.LoopLen()
  }

  /** The ring element whose values column k holds after the automorphisms are undone. */
  function RotatedHat(g: IndexGroup, entries: seq<Elem>, k: nat): (a: Elem)
    requires g.LoopLen() > 0 && g.N > 0
    ensures |a| == g.N
  {
    Galois(Hat(g, entries, g.Element(k)), Pow(5, HalfIndex(g, k)))
  }

  /** The program rotates column k by 5^(-k) also in the conjugated half, which is the same because
   *  5^L = 1 modulo 2N there. */
  lemma WrapAround(g: IndexGroup, m: nat, h: int, k: nat)
    requires g.Layout(m) && g.N > 0
    requires Inverse(5, h, g.N)
    requires k < g.l
    ensures Cong(Pow(h, k), Pow(h, HalfIndex(g, k)), 2 * g.N)
  {
    var L := g.LoopLen();
    if k < L {
      CongRefl(Pow(h, k), 2 * g.N);
    } else {
      var M := 2 * g.N;
      CongIntro(L, 0, 1, Pow2(m));
      OrderOfFive(m, L);
      assert M == 4 * Pow2(m);
      InversePow(5, h, L, g.N);
      OneInverse(Pow(5, L), Pow(h, L), M);
      PowAdd(h, k - L, L);
      CongScale(Pow(h, k - L), Pow(h, L), 1, M);
    }
  }

  lemma OneInverse(x: int, y: int, m: int)
    requires Cong(x, 1, m) && Cong(x * y, 1, m)
    ensures Cong(y, 1, m)
  {
    CongScale(y, x, 1, m);
    CongSym(x * y, 1 * y, m);
    CongTrans(y, x * y, 1, m);
  }

  /** Permuting a column of values by the k-th power of the inverse rotates the element. */
  /** Elements with the same value at the exponents of two slots have the same transform there. */
  lemma SameSlots(r: Root, a: Elem, b: Elem, i: nat, j: nat)
    requires r.p > 0 && r.N == |a| == |b| > 0 && i < r.N && j < r.N
    requires Eval(r, a, 2 * i + 1) == Eval(r, b, 2 * j + 1)
    ensures |NttOf(r, a)| == |NttOf(r, b)| == r.N && NttOf(r, a)[i] == NttOf(r, b)[j]
  {
    hide Eval;
  }

  /** Where column k's slot i comes from. */
  lemma SlotRotates(g: IndexGroup, m: nat, h: int, k: nat, i: nat)
    requires g.N > 0 && g.Layout(m) && Inverse(5, h, g.N) && k < g.l && i < g.N
    ensures var u, v, s := Pow(h, HalfIndex(g, k)), Pow(5, HalfIndex(g, k)), SlotOf(g.N, Pow(h, k), i);
            0 <= s < g.N && Cong(2 * s + 1, u * (2 * i + 1), 2 * g.N) && Inverse(u, v, g.N)
  {
    assert g.LoopLen() > 0;
    hide *;
    var k', x := HalfIndex(g, k), 2 * i + 1;
    InversePow(5, h, k, g.N);
    InverseOdd(Pow(5, k), Pow(h, k), g.N);
    SlotExponent(g.N, Pow(h, k), i);
    var s := SlotOf(g.N, Pow(h, k), i);
    WrapAround(g, m, h, k);
    CongScale(x, Pow(h, k), Pow(h, k'), 2 * g.N);
    CongTrans(2 * s + 1, Pow(h, k) * x, Pow(h, k') * x, 2 * g.N);
    InversePow(5, h, k', g.N);
    InverseSym(Pow(5, k'), Pow(h, k'), g.N);
  }

  lemma RotatedColumn(r: Root, g: IndexGroup, m: nat, h: int, entries: seq<Elem>, k: nat, i: nat)
    requires r.p > 0 && r.N == g.N > 0 && g.Layout(m)
    requires Inverse(5, h, g.N)
    requires k < g.l && i < g.N
    ensures 0 <= SlotOf(g.N, Pow(h, k), i) < g.N
    ensures NttOf(r, Hat(g, entries, g.Element(k)))[SlotOf(g.N, Pow(h, k), i)]
            == NttOf(r, RotatedHat(g, entries, k))[i]
  {
    assert g.LoopLen() > 0;
    hide *;
    SlotRotates(g, m, h, k, i);
    var hat, u, v := Hat(g, entries, g.Element(k)), Pow(h, HalfIndex(g, k)), Pow(5, HalfIndex(g, k));
    var s, x := SlotOf(g.N, Pow(h, k), i), 2 * i + 1;
    EvalCong(r, hat, 2 * s + 1, u * x);
    OddFactor(i);
    EvalGalois(r, hat, u, v, x);
    RotatedIs(g, entries, k);
    SameSlots(r, hat, RotatedHat(g, entries, k), s, i);
  }

  lemma RotatedIs(g: IndexGroup, entries: seq<Elem>, k: nat)
    requires g.LoopLen() > 0 && g.N > 0
    ensures RotatedHat(g, entries, k) == Galois(Hat(g, entries, g.Element(k)), Pow(5, HalfIndex(g, k)))
  {
  }

  /** Inverting the transform recovers the integer coefficients, since they are smaller than half the prime. */
  lemma RecoveredColumn(r: Root, g: IndexGroup, m: nat, n: nat, t: int, entries: seq<Elem>, k: nat, c: nat)
    requires r.Valid() && r.N == g.N == Pow2(n) && g.Layout(m) && r.p % 2 == 1
    requires Entries(g, entries)
    requires forall j, i :: 0 <= j < g.l && 0 <= i < g.N ==> 0 <= entries[j][i] < t
    requires t > 0 && 2 * t * g.N < r.p
    requires k < g.l && c < g.N
    ensures Centered(InvNttOf(r, NttOf(r, RotatedHat(g, entries, k)))[c], r.p) == RotatedHat(g, entries, k)[c]
  {
    hide Cong, Hat, Pow, InvNttOf, NttOf, IndexGroup.QueryBasePower, IndexGroup.Element;
    var a := RotatedHat(g, entries, k);
    NttRoundTrip(r, a);
    HatBound(g, t, entries, g.Element(k), Pow(5, HalfIndex(g, k)) * c);
    CoefficientFits(g.l, g.N, t, r.p, a[c]);
    CongSym(InvNttOf(r, NttOf(r, a))[c], a[c], r.p);
    CenteredUnique(a[c], InvNttOf(r, NttOf(r, a))[c], r.p);
  }

  lemma CoefficientFits(l: nat, N: nat, t: int, p: int, x: int)
    requires 0 < l <= N && p % 2 == 1
    requires -(l * (t - 1)) <= x <= l * (t - 1)
    requires t > 0 && 2 * t * N < p
    ensures -(p - 1) / 2 <= x <= (p - 1) / 2
  {
    MulMonotone(l, N, t - 1);
    LessOne(N, t);
    var b := N * t;
    assert 2 * b < p && -b < x < b;
  }

  lemma LessOne(n: int, t: int)
    ensures n * (t - 1) == n * t - n && 2 * t * n == 2 * (n * t)
  {
  }

  // -------------------------------------------------------------------------- the method

  /** Embeds a stored element into one RNS component: reduce, then transform. */
  function Embedded(r: Root, stored: seq<Elem>): (u: Matrix)
    requires r.p > 0 && r.N > 0
    requires forall i :: 0 <= i < |stored| ==> |stored[i]| == r.N
    ensures |u| == |stored|
  {
    seq(|stored|, i requires 0 <= i < |stored| => NttOf(r, stored[i]))
  }

  /** STEP 6 for one column: back to coefficients, exact centred lift, modulo t, times 1/l, centred. */
  method RecoverElement(r: Root, g: IndexGroup, t: int, invL: int, v: Elem, ghost m: nat, ghost n: nat,
                        ghost entries: seq<Elem>, ghost k: nat)
    returns (u: Elem)
    requires r.Valid() && r.N == g.N == Pow2(n) && g.Layout(m) && r.p % 2 == 1
    requires t > 0 && t % 2 == 1
    requires Entries(g, entries)
    requires forall j, i :: 0 <= j < g.l && 0 <= i < g.N ==> 0 <= entries[j][i] < t
    requires 2 * t * g.N < r.p
    requires k < g.l && v == NttOf(r, RotatedHat(g, entries, k))
    ensures u == StoredElement(g, t, invL, entries, k >= g.LoopLen(), HalfIndex(g, k))
  {
    hide Cong, Eval, Pow, Pow2, IndexGroup.Layout, IndexGroup.QueryBasePower, InvNttOf, NttOf, Entries, Centered, Root.Valid, IndexGroup.Element, Hat, Galois;
    LoopPositive(g, m);
    RootPositive(r);
    var coeffs := InvNttColumn(r, v);
    u := seq(|coeffs|, c requires 0 <= c < |coeffs| => Centered(invL * Centered(coeffs[c], r.p), t));
    forall c | 0 <= c < g.N
      ensures u[c] == StoredElement(g, t, invL, entries, k >= g.LoopLen(), HalfIndex(g, k))[c]
    {
      RecoveredColumn(r, g, m, n, t, entries, k, c);
    }
  }

  method SetTransformedEntries(g: IndexGroup, r0: Root, r1: Root, t: int, invL: int, h: int, entries: seq<Elem>,
                               ghost m: nat, ghost n: nat)
    returns (main0: Matrix, main1: Matrix, conj0: Matrix, conj1: Matrix)
    requires g.Layout(m) && r0.Valid() && r1.Valid() && r0.N == r1.N == g.N == Pow2(n)
    requires r0.p % 2 == 1 && t > 0 && t % 2 == 1
    requires 2 * t * g.N < r0.p
    requires Inverse(5, h, g.N)
    requires Entries(g, entries)
    requires forall j, i :: 0 <= j < g.l && 0 <= i < g.N ==> 0 <= entries[j][i] < t
    ensures main0 == Embedded(r0, Stored(g, t, invL, entries, false))
    ensures main1 == Embedded(r1, Stored(g, t, invL, entries, false))
    ensures g.RequiresConj() ==> conj0 == Embedded(r0, Stored(g, t, invL, entries, true))
    ensures g.RequiresConj() ==> conj1 == Embedded(r1, Stored(g, t, invL, entries, true))
    ensures !g.RequiresConj() ==> conj0 == [] && conj1 == []
  {
    hide Cong, IndexGroup.Layout, Pow2, Inverse, StoredElement, IndexGroup.QueryBasePower, Entries, Embedded, NttOf, Hat, RotatedHat;
    GroupHalves(g, m);
    LoopPositive(g, m);
    var cols := TransformColumns(g, r0, entries);
    cols := TransformRows(g, r0, cols, m, entries);
    cols := UndoAutomorphisms(g, r0, h, cols, m, entries);
    var stored := [];
    for k := 0 to g.l
      invariant |stored| == k
      invariant forall i :: 0 <= i < k ==> stored[i] == StoredElement(g, t, invL, entries, i >= g.LoopLen(), HalfIndex(g, i))
    {
      var u := RecoverElement(r0, g, t, invL, cols[k], m, n, entries, k);
      stored := stored + [u];
    }
    var L := g.LoopLen();
    var main := Reversed(stored[..L]);
    assert main == Stored(g, t, invL, entries, false);
    main0 := EmbedAll(r0, main);
    main1 := EmbedAll(r1, main);
    conj0, conj1 := [], [];
    if g.RequiresConj() {
      var conj := Reversed(stored[L..]);
      assert conj == Stored(g, t, invL, entries, true);
      conj0 := EmbedAll(r0, conj);
      conj1 := EmbedAll(r1, conj);
    }
  }

  function Reversed<T>(s: seq<T>): (r: seq<T>)
    ensures |r| == |s|
    ensures forall i :: 0 <= i < |s| ==> r[i] == s[|s| - 1 - i]
  {
    seq(|s|, i requires 0 <= i < |s| => s[|s| - 1 - i])
  }

  method EmbedAll(r: Root, stored: seq<Elem>) returns (u: Matrix)
    requires r.Valid()
    requires forall i :: 0 <= i < |stored| ==> |stored[i]| == r.N
    ensures u == Embedded(r, stored)
  {
    u := [];
    for k := 0 to |stored|
      invariant |u| == k
      invariant forall i :: 0 <= i < k ==> u[i] == NttOf(r, stored[i])
    {
      var v := NttColumn(r, stored[k]);
      u := u + [v];
    }
  }

  /** STEP 2. */
  method TransformColumns(g: IndexGroup, r: Root, entries: seq<Elem>) returns (cols: Matrix)
    requires r.Valid() && r.N == g.N
    requires Entries(g, entries)
    ensures |cols| == g.l
    ensures forall j :: 0 <= j < g.l ==> cols[j] == NttOf(r, entries[j])
  {
    cols := entries;
    for j := 0 to g.l
      invariant |cols| == g.l
      invariant forall i :: 0 <= i < j ==> cols[i] == NttOf(r, entries[i])
      invariant forall i :: j <= i < g.l ==> cols[i] == entries[i]
    {
      var v := NttColumn(r, cols[j]);
      cols := cols[j := v];
    }
  }

  /** STEP 3: after it, column k holds the values of the k-th transformed entry. */
  method TransformRows(g: IndexGroup, r: Root, input: Matrix, ghost m: nat, ghost entries: seq<Elem>)
    returns (cols: Matrix)
    requires g.Layout(m) && r.Valid() && r.N == g.N
    requires Entries(g, entries)
    requires |input| == g.l && forall j :: 0 <= j < g.l ==> input[j] == NttOf(r, entries[j])
    ensures |cols| == g.l
    ensures forall k :: 0 <= k < g.l ==> cols[k] == NttOf(r, Hat(g, entries, g.Element(k)))
  {
    cols := input;
    for i := 0 to g.N
      invariant |cols| == g.l && forall j :: 0 <= j < g.l ==> |cols[j]| == g.N
      invariant forall k, c :: 0 <= k < g.l && 0 <= c < i ==> cols[k][c] == NttOf(r, Hat(g, entries, g.Element(k)))[c]
      invariant forall k, c :: 0 <= k < g.l && i <= c < g.N ==> cols[k][c] == input[k][c]
    {
      var row := TransformRow(g, r, RowOf(cols, i), i, m, entries);
      cols := seq(g.l, k requires 0 <= k < g.l && k < |cols| && i < |cols[k]| && k < |row| => cols[k][i := row[k]]);
    }
  }

  method TransformRow(g: IndexGroup, r: Root, row: Elem, i: nat, ghost m: nat, ghost entries: seq<Elem>)
    returns (u: Elem)
    requires g.Layout(m) && r.Valid() && r.N == g.N && i < g.N
    requires Entries(g, entries)
    requires |row| == g.l && forall j :: 0 <= j < g.l ==> row[j] == NttOf(r, entries[j])[i]
    ensures |u| == g.l
    ensures forall k :: 0 <= k < g.l ==> u[k] == NttOf(r, Hat(g, entries, g.Element(k)))[i]
  {
    hide Cong, Eval, Hat, IndexGroup.Layout, IndexGroup.Element, IndexGroup.QueryBasePower, IndexGroup.LoopLen, Pow2, Root.Valid, OddPower;
    StepValue(g, m);
    LoopPositive(g, m);
    RootPositive(r);
    var a := new int[|row|](j requires 0 <= j < |row| => row[j]);
    assert a[..] == row;
    var zetaPower := RowZeta(g, i);
    RowPower(g, i);
    CosetNtt(g, r, zetaPower, a, m, -(2 * i + 1));
    u := a[..];
    forall k | 0 <= k < g.l
      ensures u[k] == NttOf(r, Hat(g, entries, g.Element(k)))[i]
    {
      HatValue(r, g, entries, row, g.Element(k), 2 * i + 1);
    }
  }

  lemma LoopPositive(g: IndexGroup, m: nat)
    requires g.Layout(m)
    ensures g.LoopLen() > 0 && g.N > 0
  {
  }

  /** zeta_power of row i. */
  function RowZeta(g: IndexGroup, i: nat): int
    requires g.LoopLen() > 0
  {
    var bp: int := g.QueryBasePower();
    (2 * i + 1) * -bp
  }

  /** The program's zeta_power for row i is an odd multiple of the base power. */
  lemma RowPower(g: IndexGroup, i: nat)
    requires g.LoopLen() > 0
    ensures OddPower(g, RowZeta(g, i), -(2 * i + 1))
    ensures RowZeta(g, i) == -((2 * i + 1) * g.QueryBasePower())
  {
    var bp: int := g.QueryBasePower();
    NegNeg(2 * i + 1, bp);
    NegNeg(bp, 2 * i + 1);
    SwapProduct(bp, 2 * i + 1);
    SwapProduct(bp, -(2 * i + 1));
  }

  /** STEP 4: column k is permuted by the k-th power of the inverse of 5. */
  method UndoAutomorphisms(g: IndexGroup, r: Root, h: int, input: Matrix, ghost m: nat, ghost entries: seq<Elem>)
    returns (cols: Matrix)
    requires g.Layout(m) && r.Valid() && r.N == g.N
    requires Inverse(5, h, g.N)
    requires |input| == g.l
    requires forall k :: 0 <= k < g.l ==> input[k] == NttOf(r, Hat(g, entries, g.Element(k)))
    ensures |cols| == g.l
    ensures forall k :: 0 <= k < g.l ==> cols[k] == NttOf(r, RotatedHat(g, entries, k))
  {
    cols := input;
    for j := 0 to g.l
      invariant |cols| == g.l
      invariant forall k :: 0 <= k < j ==> cols[k] == NttOf(r, RotatedHat(g, entries, k))
      invariant forall k :: j <= k < g.l ==> cols[k] == input[k]
    {
      InversePow(5, h, j, g.N);
      InverseSym(Pow(5, j), Pow(h, j), g.N);
      SlotMapPermutes(g.N, Pow(h, j), Pow(5, j));
      var v := PermuteColumn(cols[j], SlotMap(g.N, Pow(h, j)));
      forall i | 0 <= i < g.N
        ensures v[i] == NttOf(r, RotatedHat(g, entries, j))[i]
      {
        RotatedColumn(r, g, m, h, entries, j, i);
      }
      cols := cols[j := v];
    }
  }
}
