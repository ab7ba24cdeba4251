/** From encrypting a query to decrypting the reply of one shard: the client gets the requested entry,
 *  exactly when the accumulated disturbance does not carry.
 */
module EndToEnd {
  import opened Arith
  import opened Negacyclic
  import opened GaloisGroup
  import opened PhaseSplit
  import opened PerformPir
  import opened Retrieval
  import G = Gadget
  import Bfv

  // ---------------------------------------------------------------- what the client sends

  /** The message X^k, embedded by enc_sym_b: coefficientwise scaling. */
  function Payload(m: Elem, t: int, tInv: int): (r: Elem)
    requires t > 0 && t % 2 == 1
    ensures |r| == |m|
  {
    seq(|m|, i requires 0 <= i < |m| => Bfv.EncRescale(m[i], t, G.Q, tInv))
  }

  /** enc_sym_b with mask a and error e. */
  function EncSymB(s: Elem, a: Elem, e: Elem, m: Elem, t: int, tInv: int): (b: Elem)
    requires |s| == |a| == |e| == |m| > 0 && t > 0 && t % 2 == 1
    ensures |b| == |s|
  {
    ModQ(Add(Add(e, Scale(-1, Mul(a, s))), Payload(m, t, tInv)))
  }

  /** One part of gen_gk_b, with mask a, error e and the power of the digit base. */
  function GenGkB(s: Elem, a: Elem, e: Elem, g: int, h: int, base: int): (b: Elem)
    requires |s| == |a| == |e| > 0 && Inverse(g, h, |s|)
    ensures |b| == |s|
  {
    ModQ(Add(Add(e, Scale(-1, Mul(a, s))), Scale(base, Bfv.GaloisOfKey(s, g, h))))
  }

  /** dec, on the ciphertext (a, b). */
  function Dec(s: Elem, a: Elem, b: Elem, t: int, qInv: int): (m: Elem)
    requires |s| == |a| == |b| > 0 && t > 0
    ensures |m| == |s|
  {
    seq(|s|, i requires 0 <= i < |s| => Bfv.DecRescale(Phase(s, a, b)[i], t, G.Q, qInv))
  }

  /** The value that stands for the message 1. */
  function Delta(t: int): int
    requires t > 0 && t % 2 == 1
  {
    Bfv.ScaledMessage(1, t, G.Q)
  }

  // -------------------------------------------------------------- phases of fresh ciphertexts

  lemma FreshPhase(s: Elem, a: Elem, e: Elem, x: Elem)
    requires |s| == |a| == |e| == |x| > 0
    ensures ElemCong(Phase(s, a, ModQ(Add(Add(e, Scale(-1, Mul(a, s))), x))), Add(x, e), G.Q)
  {
    hide Mul, Cong;
    var b := Add(Add(e, Scale(-1, Mul(a, s))), x);
    forall i | 0 <= i < |s|
      ensures Cong(Phase(s, a, ModQ(b))[i], Add(x, e)[i], G.Q)
    {
      CongSelf(b[i], G.Q);
      CongRefl(Mul(a, s)[i], G.Q);
      CongAdd(Mul(a, s)[i], Mul(a, s)[i], b[i] % G.Q, b[i], G.Q);
    }
  }

  lemma SameRescale(v: int, w: int, t: int, qInv: int)
    requires t > 0 && Cong(v, w, G.Q)
    ensures Bfv.DecRescale(v, t, G.Q, qInv) == Bfv.DecRescale(w, t, G.Q, qInv)
  {
    hide Cong;
    CongTrans(Centered(v, G.Q), v, w, G.Q);
    CenteredUnique(Centered(v, G.Q), w, G.Q);
  }

  /** Any message survives encryption, coefficient by coefficient, with every error e for which 2t|e| + t <= q: for
   *  every secret and every mask. */
  lemma EncryptionRoundTrip(s: Elem, a: Elem, e: Elem, m: Elem, t: int, tInv: int, qInv: int, i: nat)
    requires |s| == |a| == |e| == |m| > 0 && i < |s| && t > 0 && t % 2 == 1
    requires Cong(t * tInv, 1, G.Q) && Cong(G.Q * qInv, 1, t)
    requires 2 * (t * Abs(e[i])) + t <= G.Q
    ensures Dec(s, a, EncSymB(s, a, e, m, t, tInv), t, qInv)[i] == m[i] % t
  {
    hide Mul, Cong, Bfv.DecRescale, Bfv.EncRescale;
    var x := Payload(m, t, tInv);
    FreshPhase(s, a, e, x);
    var v := Phase(s, a, EncSymB(s, a, e, m, t, tInv))[i];
    assert Cong(v, x[i] + e[i], G.Q);
    SameRescale(v, x[i] + e[i], t, qInv);
    Bfv.RescaleWithinBound(m[i], e[i], x[i] + e[i], t, G.Q, tInv, qInv);
  }

  /** The noise of a Galois key part is the error it was made with. */
  lemma KeyNoiseIsError(s: Elem, a: Elem, e: Elem, g: int, h: int, base: int)
    requires |s| == |a| == |e| > 0 && Inverse(g, h, |s|)
    ensures ElemCong(KeyNoise(h, s, a, GenGkB(s, a, e, g, h, base), base), e, G.Q)
  {
    hide Mul, Cong, Galois, Bfv.GaloisOfKey;
    Bfv.GaloisOfKeyIsAutomorphism(s, g, h);
    var x := Scale(base, Galois(s, h));
    var b := GenGkB(s, a, e, g, h, base);
    FreshPhase(s, a, e, x);
    forall i | 0 <= i < |s|
      ensures Cong(KeyNoise(h, s, a, b, base)[i], e[i], G.Q)
    {
      assert Cong(Phase(s, a, b)[i], x[i] + e[i], G.Q);
      CongRefl(-x[i], G.Q);
      CongAdd(Phase(s, a, b)[i], x[i] + e[i], -x[i], -x[i], G.Q);
      NegScale(base, Galois(s, h)[i]);
    }
  }

  lemma NegScale(c: int, x: int)
    ensures -c * x == -(c * x)
  {
  }

  /** The phase of an encrypted monomial. */
  lemma QueryPhase(s: Elem, a: Elem, e: Elem, k: int, t: int, tInv: int)
    requires |s| == |a| == |e| > 0 && t > 2 && t % 2 == 1
    requires Cong(t * tInv, 1, G.Q)
    ensures ElemCong(Phase(s, a, EncSymB(s, a, e, Mono(|s|, k), t, tInv)), Add(Scale(Delta(t), Mono(|s|, k)), e), G.Q)
  {
    hide Mul, Cong, Mono, Delta, Payload;
    var m := Mono(|s|, k);
    var x := Payload(m, t, tInv);
    FreshPhase(s, a, e, x);
    PayloadMono(|s|, k, t, tInv);
    forall i | 0 <= i < |s|
      ensures Cong(Add(x, e)[i], Add(Scale(Delta(t), m), e)[i], G.Q)
    {
      CongRefl(e[i], G.Q);
      CongAdd(x[i], Delta(t) * m[i], e[i], e[i], G.Q);
    }
    ElemTrans(Phase(s, a, EncSymB(s, a, e, m, t, tInv)), Add(x, e), Add(Scale(Delta(t), m), e));
  }

  lemma PayloadMono(n: nat, k: int, t: int, tInv: int)
    requires n > 0 && t > 2 && t % 2 == 1
    requires Cong(t * tInv, 1, G.Q)
    ensures forall i :: 0 <= i < n ==> Cong(Payload(Mono(n, k), t, tInv)[i], Delta(t) * Mono(n, k)[i], G.Q)
  {
    hide Cong, Mono, Delta;
    forall i | 0 <= i < n
      ensures Cong(Payload(Mono(n, k), t, tInv)[i], Delta(t) * Mono(n, k)[i], G.Q)
    {
      MonoCoefficient(n, k, i);
      UnitPayload(Mono(n, k)[i], t, tInv);
    }
  }

  lemma MonoCoefficient(n: nat, k: int, i: int)
    requires n > 0 && 0 <= i < n
    ensures -1 <= Mono(n, k)[i] <= 1
  {
    var r, j := Split(i - k, n);
    AtTurns(One(n), r, j);
    AtPlain(One(n), r);
    assert Mono(n, k)[i] == At(One(n), r + j * n);
  }

  lemma UnitPayload(u: int, t: int, tInv: int)
    requires -1 <= u <= 1 && t > 2 && t % 2 == 1
    requires Cong(t * tInv, 1, G.Q)
    ensures Cong(Bfv.EncRescale(u, t, G.Q, tInv), Delta(t) * u, G.Q)
  {
    hide Cong;
    Bfv.EncRescaleValue(u, t, G.Q, tInv);
    UnitScaled(u, t);
    CongSelf(Bfv.ScaledMessage(u, t, G.Q), G.Q);
  }

  lemma UnitCentered(u: int, t: int)
    requires -1 <= u <= 1 && t > 2 && t % 2 == 1
    ensures Centered(u, t) == u
  {
    CongRefl(u, t);
    CenteredUnique(u, u, t);
  }

  lemma NegCentered(x: int, t: int)
    requires t > 0 && t % 2 == 1
    ensures Centered(-x, t) == -Centered(x, t)
  {
    var c := Centered(x, t);
    var k := CongWitness(c, x, t);
    CongIntro(-c, -x, -k, t);
    CenteredUnique(-c, -x, t);
  }

  lemma UnitScaled(u: int, t: int)
    requires -1 <= u <= 1 && t > 2 && t % 2 == 1
    ensures Bfv.ScaledMessage(u, t, G.Q) == Delta(t) * u
  {
    UnitCentered(u, t);
    UnitCentered(1, t);
    NegCentered(G.Q, t);
    UnitCentered(0, t);
    Bfv.ScaledMessageExact(u, t, G.Q);
    Bfv.ScaledMessageExact(1, t, G.Q);
    var x, y := Bfv.ScaledMessage(u, t, G.Q), Bfv.ScaledMessage(1, t, G.Q);
    if u == -1 {
      CancelFactor(t, x, -y);
    } else if u == 0 {
      assert Centered(0 * G.Q, t) == 0;
      CancelFactor(t, x, 0);
    }
  }

  // ------------------------------------------------------------- the course of the phase

  /** The phase loop is linear in the query: the scaled monomial gives the scaled plaintext loop, and the
   *  query's error goes through the same loop. */
  lemma {:induction false} IdealIsHorner(N: nat, h: int, stored: seq<Elem>, k: int, c: int, e: Elem)
    requires N > 0 && |e| == N
    requires forall i :: 0 <= i < |stored| ==> |stored[i]| == N
    ensures IdealPhase(N, h, stored, Add(Scale(c, Mono(N, k)), e))
            == Add(Scale(c, Horner(N, h, stored, k)), IdealPhase(N, h, stored, e))
    decreases |stored|
  {
    hide Mul, Galois, Mono, Shift;
    if stored == [] {
      assert Add(Scale(c, Zero(N)), Zero(N)) == Zero(N);
    } else {
      var n := |stored| - 1;
      IdealIsHorner(N, h, stored[..n], k, c, e);
      var acc, err := Horner(N, h, stored[..n], k), IdealPhase(N, h, stored[..n], e);
      GaloisAdd(Scale(c, acc), err, h);
      GaloisScale(c, acc, h);
      MulAddRight(stored[n], Scale(c, Mono(N, k)), e);
      MulScaleRight(stored[n], c, Mono(N, k));
      MulMono(stored[n], k);
      Regroup(c, Galois(acc, h), Galois(err, h), Shift(stored[n], k), Mul(stored[n], e));
    }
  }

  lemma Regroup(c: int, x: Elem, u: Elem, y: Elem, v: Elem)
    requires |x| == |u| == |y| == |v|
    ensures Add(Add(Scale(c, x), u), Add(Scale(c, y), v)) == Add(Scale(c, Add(x, y)), Add(u, v))
  {
    forall i | 0 <= i < |x|
      ensures c * x[i] + u[i] + (c * y[i] + v[i]) == c * (x[i] + y[i]) + (u[i] + v[i])
    {
    }
  }

  lemma {:induction false} IdealPhaseCong(N: nat, h: int, stored: seq<Elem>, x: Elem, y: Elem)
    requires N > 0 && ElemCong(x, y, G.Q) && |x| == N
    requires forall i :: 0 <= i < |stored| ==> |stored[i]| == N
    ensures ElemCong(IdealPhase(N, h, stored, x), IdealPhase(N, h, stored, y), G.Q)
    decreases |stored|
  {
    hide Mul, Galois, Cong;
    if stored == [] {
      ElemRefl(Zero(N));
    } else {
      var n := |stored| - 1;
      IdealPhaseCong(N, h, stored[..n], x, y);
      var u, v := IdealPhase(N, h, stored[..n], x), IdealPhase(N, h, stored[..n], y);
      GaloisElemCong(u, v, h, G.Q);
      ElemRefl(stored[n]);
      MulElemCong(stored[n], stored[n], x, y, G.Q);
      AddElemCong(Galois(u, h), Galois(v, h), Mul(stored[n], x), Mul(stored[n], y), G.Q);
    }
  }

  lemma {:induction false} KeyErrorCong(N: nat, h: int, digits: seq<Pair>, x: Pair, y: Pair)
    requires N > 0 && x.Size(N) && y.Size(N)
    requires ElemCong(x.d0, y.d0, G.Q) && ElemCong(x.d1, y.d1, G.Q)
    requires forall i :: 0 <= i < |digits| ==> digits[i].Size(N)
    ensures ElemCong(KeyError(N, h, digits, x), KeyError(N, h, digits, y), G.Q)
    decreases |digits|
  {
    hide Mul, Galois, Cong;
    if digits == [] {
      ElemRefl(Zero(N));
    } else {
      var n := |digits| - 1;
      KeyErrorCong(N, h, digits[..n], x, y);
      var u, v := KeyError(N, h, digits[..n], x), KeyError(N, h, digits[..n], y);
      var d := digits[n];
      GaloisElemCong(u, v, h, G.Q);
      ElemRefl(d.d0);
      ElemRefl(d.d1);
      MulElemCong(d.d0, d.d0, x.d0, y.d0, G.Q);
      MulElemCong(d.d1, d.d1, x.d1, y.d1, G.Q);
      AddElemCong(Mul(d.d0, x.d0), Mul(d.d0, y.d0), Mul(d.d1, x.d1), Mul(d.d1, y.d1), G.Q);
      AddElemCong(Galois(u, h), Galois(v, h), Inner(d, x), Inner(d, y), G.Q);
    }
  }

  /** A client's secret key, the errors of its Galois key and query, and all the public masks. */
  datatype Client = Client(s: Elem, keyA: Pair, keyE: Pair, qryA: Elem, qryE: Elem, conjA: Elem, conjE: Elem) {
    predicate Size(N: nat) {
      && N > 0 && |s| == N && keyA.Size(N) && keyE.Size(N)
      && |qryA| == |qryE| == |conjA| == |conjE| == N
    }

    function KeyB(g: int, h: int): (k: Pair)
      requires Size(|s|) && Inverse(g, h, |s|)
      ensures k.Size(|s|)
    {
      Pair(GenGkB(s, keyA.d0, keyE.d0, g, h, 1), GenGkB(s, keyA.d1, keyE.d1, g, h, G.BASE))
    }
  }

  /** What the errors of one loop add up to. */
  ghost function SideError(N: nat, h: int, stored: seq<Elem>, keyA: Pair, qryA: Elem, keyE: Pair, qryE: Elem): (r: Elem)
    requires Sizes(N, stored, keyA, qryA) && keyE.Size(N) && |qryE| == N
    ensures |r| == N
  {
    Add(IdealPhase(N, h, stored, qryE), KeyError(N, h, AllDigits(N, h, stored, keyA, qryA), keyE))
  }

  /** One loop over the database, on an encrypted monomial: it decrypts to the scaled plaintext loop plus
   *  the accumulated errors. */
  lemma SidePhase(N: nat, g: int, h: int, c: Client, stored: seq<Elem>, qryA: Elem, qryE: Elem, k: int, t: int, tInv: int)
    requires c.Size(N) && Sizes(N, stored, c.keyA, qryA) && |qryE| == N
    requires Inverse(g, h, N) && t > 2 && t % 2 == 1 && Cong(t * tInv, 1, G.Q)
    ensures var qryB := EncSymB(c.s, qryA, qryE, Mono(N, k), t, tInv);
            var digits := AllDigits(N, h, stored, c.keyA, qryA);
            ElemCong(Phase(c.s, PartA(N, h, stored, c.keyA, qryA), PartB(N, h, stored, digits, c.KeyB(g, h), qryB)),
                     Add(Scale(Delta(t), Horner(N, h, stored, k)),
                         SideError(N, h, stored, c.keyA, qryA, c.keyE, qryE)), G.Q)
  {
    hide Mul, Galois, Cong, KeyNoise, GenGkB, EncSymB, Mono, Delta, AllDigits, PartA, PartB, IdealPhase, KeyError, Horner, Bfv.GaloisOfKey, Inverse;
    var keyB := c.KeyB(g, h);
    var qryB := EncSymB(c.s, qryA, qryE, Mono(N, k), t, tInv);
    var digits := AllDigits(N, h, stored, c.keyA, qryA);
    var noise := Pair(KeyNoise(h, c.s, c.keyA.d0, keyB.d0, 1), KeyNoise(h, c.s, c.keyA.d1, keyB.d1, G.BASE));
    PhaseOfSplit(N, h, g, c.s, stored, c.keyA, keyB, qryA, qryB, noise);
    KeyNoiseIsError(c.s, c.keyA.d0, c.keyE.d0, g, h, 1);
    KeyNoiseIsError(c.s, c.keyA.d1, c.keyE.d1, g, h, G.BASE);
    KeyErrorCong(N, h, digits, noise, c.keyE);
    var query, clean := Phase(c.s, qryA, qryB), Add(Scale(Delta(t), Mono(N, k)), qryE);
    QueryPhase(c.s, qryA, qryE, k, t, tInv);
    IdealPhaseCong(N, h, stored, query, clean);
    IdealIsHorner(N, h, stored, k, Delta(t), qryE);
    var ideal, errors := IdealPhase(N, h, stored, query), KeyError(N, h, digits, noise);
    var wanted := Scale(Delta(t), Horner(N, h, stored, k));
    AddElemCong(ideal, Add(wanted, IdealPhase(N, h, stored, qryE)), errors, KeyError(N, h, digits, c.keyE), G.Q);
    AddShuffle(wanted, IdealPhase(N, h, stored, qryE), KeyError(N, h, digits, c.keyE));
    ElemTrans(Phase(c.s, PartA(N, h, stored, c.keyA, qryA), PartB(N, h, stored, digits, keyB, qryB)),
              Add(ideal, errors),
              Add(wanted, SideError(N, h, stored, c.keyA, qryA, c.keyE, qryE)));
  }

  lemma AddShuffle(x: Elem, y: Elem, z: Elem)
    requires |x| == |y| == |z|
    ensures Add(Add(x, y), z) == Add(x, Add(y, z))
  {
  }

  // ------------------------------------------------------------------------- one shard

  /** A shard with its index group, as the server stores it, and the constants of both moduli. */
  datatype Shard = Shard(g: IndexGroup, m: nat, h: int, t: int, tInv: int, invL: int, qInv: int, entries: seq<Elem>) {
    ghost predicate Valid() {
      && g.Layout(m) && g.N > 0 && t > 2 && t % 2 == 1
      && Entries(g, entries)
      && Cong(invL * g.l, 1, t) && Inverse(5, h, g.N)
      && Cong(t * tInv, 1, G.Q) && Cong(G.Q * qInv, 1, t)
    }

    function Main(): (r: seq<Elem>)
      requires g.LoopLen() > 0 && g.N > 0 && t > 0 && t % 2 == 1
      ensures |r| == g.LoopLen() && forall i :: 0 <= i < |r| ==> |r[i]| == g.N
    {
      Stored(g, t, invL, entries, false)
    }

    function Conj(): (r: seq<Elem>)
      requires g.LoopLen() > 0 && g.N > 0 && t > 0 && t % 2 == 1
      ensures |r| == g.LoopLen() && forall i :: 0 <= i < |r| ==> |r[i]| == g.N
    {
      Stored(g, t, invL, entries, true)
    }
  }

  /** The exponents of the two query monomials for entry idx. */
  function MainPower(g: IndexGroup, idx: nat): int
    requires g.LoopLen() > 0
  {
    idx * g.QueryBasePower()
  }

  function ConjPower(g: IndexGroup, idx: nat): int
    requires g.LoopLen() > 0
  {
    2 * g.N - idx * g.QueryBasePower()
  }

  /** The a-half of the reply. */
  ghost function ReplyA(d: Shard, c: Client): (a: Elem)
    requires d.Valid() && c.Size(d.g.N)
    ensures |a| == d.g.N
  {
    var main := PartA(d.g.N, d.h, d.Main(), c.keyA, c.qryA);
    ModQ(if d.g.RequiresConj() then Add(main, PartA(d.g.N, d.h, d.Conj(), c.keyA, c.conjA)) else main)
  }

  ghost function MainSide(d: Shard, c: Client, idx: nat): (s: Side)
    requires d.Valid() && c.Size(d.g.N)
    ensures s.Valid(d.g.N)
  {
    Side(d.Main(), AllDigits(d.g.N, d.h, d.Main(), c.keyA, c.qryA),
         EncSymB(c.s, c.qryA, c.qryE, Mono(d.g.N, MainPower(d.g, idx)), d.t, d.tInv))
  }

  ghost function ConjSide(d: Shard, c: Client, idx: nat): (s: Side)
    requires d.Valid() && c.Size(d.g.N)
    ensures s.Valid(d.g.N)
  {
    Side(d.Conj(), AllDigits(d.g.N, d.h, d.Conj(), c.keyA, c.conjA),
         EncSymB(c.s, c.conjA, c.conjE, Mono(d.g.N, ConjPower(d.g, idx)), d.t, d.tInv))
  }

  /** The b-half of the reply to the query for entry idx. */
  ghost function ReplyTo(d: Shard, c: Client, idx: nat): (b: Elem)
    requires d.Valid() && c.Size(d.g.N)
    ensures |b| == d.g.N
  {
    ModQ(ReplyB(d.g.N, d.h, c.KeyB(5, d.h), d.g.RequiresConj(), MainSide(d, c, idx), ConjSide(d, c, idx)))
  }

  /** All errors that reach the reply. */
  ghost function ReplyError(d: Shard, c: Client): (e: Elem)
    requires d.Valid() && c.Size(d.g.N)
    ensures |e| == d.g.N
  {
    var main := SideError(d.g.N, d.h, d.Main(), c.keyA, c.qryA, c.keyE, c.qryE);
    if d.g.RequiresConj() then Add(main, SideError(d.g.N, d.h, d.Conj(), c.keyA, c.conjA, c.keyE, c.conjE)) else main
  }

  /** The plaintext loops' result, over the integers. */
  ghost function PlainReply(d: Shard, idx: nat): (r: Elem)
    requires d.Valid()
    ensures |r| == d.g.N
  {
    var main := Horner(d.g.N, d.h, d.Main(), MainPower(d.g, idx));
    if d.g.RequiresConj() then Add(main, Horner(d.g.N, d.h, d.Conj(), ConjPower(d.g, idx))) else main
  }

  /** How far t times the phase is from a multiple of q: errors and the rounding of the embedded 1. */
  ghost function Disturbance(d: Shard, c: Client, idx: nat, i: nat): int
    requires d.Valid() && c.Size(d.g.N) && i < d.g.N
  {
    d.t * ReplyError(d, c)[i] - Centered(G.Q, d.t) * PlainReply(d, idx)[i]
  }

  /** The reply's phase is the scaled plaintext reply plus the errors. */
  lemma ReplyPhase(d: Shard, c: Client, idx: nat)
    requires d.Valid() && c.Size(d.g.N)
    ensures ElemCong(Phase(c.s, ReplyA(d, c), ReplyTo(d, c, idx)),
                     Add(Scale(Delta(d.t), PlainReply(d, idx)), ReplyError(d, c)), G.Q)
  {
    hide Mul, Cong, EncSymB, Mono, Delta, AllDigits, PartA, PartB, Horner, Inverse, SideError, Stored, IndexGroup.LoopLen, IndexGroup.Layout, ModQ, Client.KeyB, Entries;
    LayoutLoop(d);
    var N, h := d.g.N, d.h;
    var delta := Delta(d.t);
    var main, conj := MainSide(d, c, idx), ConjSide(d, c, idx);
    var keyB := c.KeyB(5, h);
    SidePhase(N, 5, h, c, d.Main(), c.qryA, c.qryE, MainPower(d.g, idx), d.t, d.tInv);
    SidePhase(N, 5, h, c, d.Conj(), c.conjA, c.conjE, ConjPower(d.g, idx), d.t, d.tInv);
    var a, b := PartA(N, h, d.Main(), c.keyA, c.qryA), main.Result(N, h, keyB);
    var x, e := Horner(N, h, d.Main(), MainPower(d.g, idx)), SideError(N, h, d.Main(), c.keyA, c.qryA, c.keyE, c.qryE);
    if d.g.RequiresConj() {
      var a', b' := PartA(N, h, d.Conj(), c.keyA, c.conjA), conj.Result(N, h, keyB);
      var x', e' := Horner(N, h, d.Conj(), ConjPower(d.g, idx)), SideError(N, h, d.Conj(), c.keyA, c.conjA, c.keyE, c.conjE);
      AddElemCong(Phase(c.s, a, b), Add(Scale(delta, x), e), Phase(c.s, a', b'), Add(Scale(delta, x'), e'), G.Q);
      PhaseAdd(c.s, a, b, a', b');
      Regroup(delta, x, e, x', e');
      PhaseModQ(c.s, Add(a, a'), Add(b, b'));
      ElemTrans(Phase(c.s, ModQ(Add(a, a')), ModQ(Add(b, b'))), Phase(c.s, Add(a, a'), Add(b, b')),
                Add(Scale(delta, Add(x, x')), Add(e, e')));
    } else {
      PhaseModQ(c.s, a, b);
      ElemTrans(Phase(c.s, ModQ(a), ModQ(b)), Phase(c.s, a, b), Add(Scale(delta, x), e));
    }
  }

  lemma LayoutLoop(d: Shard)
    requires d.Valid()
    ensures d.g.LoopLen() > 0
  {
  }

  lemma PhaseAdd(s: Elem, a: Elem, b: Elem, a': Elem, b': Elem)
    requires |s| == |a| == |b| == |a'| == |b'| > 0
    ensures Phase(s, Add(a, a'), Add(b, b')) == Add(Phase(s, a, b), Phase(s, a', b'))
  {
    hide Mul;
    MulAddLeft(a, a', s);
  }

  lemma PhaseModQ(s: Elem, a: Elem, b: Elem)
    requires |s| == |a| == |b| > 0
    ensures ElemCong(Phase(s, ModQ(a), ModQ(b)), Phase(s, a, b), G.Q)
  {
    hide Mul, Cong;
    ElemRefl(s);
    MulElemCong(ModQ(a), a, s, s, G.Q);
    AddElemCong(Mul(ModQ(a), s), Mul(a, s), ModQ(b), b, G.Q);
  }

  /** Decrypting the reply gives the requested entry plus the carry of the disturbance: it is the entry if and
   *  only if the carry is a multiple of t, and in particular whenever the disturbance is below q / 2. */
  lemma ShardRoundTrip(d: Shard, c: Client, idx: nat, i: nat)
    requires d.Valid() && c.Size(d.g.N) && idx < d.g.l && i < d.g.N
    ensures var got := Dec(c.s, ReplyA(d, c), ReplyTo(d, c, idx), d.t, d.qInv)[i];
            var carry := Bfv.Carry(Disturbance(d, c, idx, i), G.Q);
            && got == (d.entries[idx][i] + carry) % d.t
            && (got == d.entries[idx][i] % d.t <==> carry % d.t == 0)
            && (2 * Abs(Disturbance(d, c, idx, i)) < G.Q ==> got == d.entries[idx][i] % d.t)
  {
    hide Mul, Cong, Disturbance, Shard.Valid, ReplyA, ReplyTo, Bfv.Carry, Bfv.DecRescale, Phase;
    assert d.g.N > 0 && d.t > 0 by {
      ShardBasics(d);
    }
    var v := Phase(c.s, ReplyA(d, c), ReplyTo(d, c, idx))[i];
    CongRefl(v, G.Q);
    assert Disturbance(d, c, idx, i) + d.t * 0 == Disturbance(d, c, idx, i);
    ShardWithError(d, c, idx, i, v, 0);
  }

  lemma ShardBasics(d: Shard)
    requires d.Valid()
    ensures d.g.N > 0 && d.t > 2 && d.t % 2 == 1
  {
  }

  /** The same for a phase that is off by a further error e. */
  lemma ShardWithError(d: Shard, c: Client, idx: nat, i: nat, v: int, e: int)
    requires d.Valid() && c.Size(d.g.N) && idx < d.g.l && i < d.g.N
    requires Cong(v, Phase(c.s, ReplyA(d, c), ReplyTo(d, c, idx))[i] + e, G.Q)
    ensures |d.entries| == d.g.l && |d.entries[idx]| == d.g.N
    ensures var got := Bfv.DecRescale(v, d.t, G.Q, d.qInv);
            var w := Disturbance(d, c, idx, i) + d.t * e;
            && got == (d.entries[idx][i] + Bfv.Carry(w, G.Q)) % d.t
            && (got == d.entries[idx][i] % d.t <==> Bfv.Carry(w, G.Q) % d.t == 0)
            && (2 * Abs(w) < G.Q ==> got == d.entries[idx][i] % d.t)
  {
    hide Mul, Cong, Delta, Inverse, ModQ, Entries, ReplyA, ReplyTo, ReplyError, PlainReply, Bfv.Carry, Bfv.DecRescale, Phase, IndexGroup.LoopLen, IndexGroup.Layout;
    LayoutLoop(d);
    var v' := Phase(c.s, ReplyA(d, c), ReplyTo(d, c, idx))[i];
    var M, E, w := PlainReply(d, idx)[i], ReplyError(d, c)[i] + e, Disturbance(d, c, idx, i) + d.t * e;
    ReplyPhase(d, c, idx);
    var x := Delta(d.t) * M + E;
    assert Cong(v', x - e, G.Q);
    CongRefl(e, G.Q);
    CongAdd(v', x - e, e, e, G.Q);
    CongTrans(v, v' + e, x, G.Q);
    CongSym(v, x, G.Q);
    DeltaTimes(d.t, M, E);
    assert d.t * E == d.t * ReplyError(d, c)[i] + d.t * e;
    Bfv.DecFormula(v, x, M, w, d.t, G.Q, d.qInv);
    PlainReplyIsEntry(d, idx, i);
    var entry, carry := d.entries[idx][i], Bfv.Carry(w, G.Q);
    CongRefl(carry, d.t);
    CongAdd(M, entry, carry, carry, d.t);
    CongMod(M + carry, entry + carry, d.t);
    Bfv.ShiftedResidue(entry, carry, d.t);
    if 2 * Abs(w) < G.Q {
      Bfv.CarryZero(w, G.Q);
    }
  }

  lemma PlainReplyIsEntry(d: Shard, idx: nat, i: nat)
    requires d.Valid() && idx < d.g.l && i < d.g.N
    ensures |d.entries| == d.g.l && |d.entries[idx]| == d.g.N
    ensures Cong(PlainReply(d, idx)[i], d.entries[idx][i], d.t)
  {
    hide Cong, Horner, Stored, Inverse;
    RetrievalIdentity(d.g, d.m, d.t, d.invL, d.entries, d.h, idx, i);
    AtPlain(Horner(d.g.N, d.h, d.Main(), MainPower(d.g, idx)), i);
    AtPlain(Horner(d.g.N, d.h, d.Conj(), ConjPower(d.g, idx)), i);
  }

  lemma DeltaTimes(t: int, M: int, E: int)
    requires t > 2 && t % 2 == 1
    ensures t * (Delta(t) * M + E) == M * G.Q + (t * E - Centered(G.Q, t) * M)
  {
    UnitCentered(1, t);
    Bfv.ScaledMessageExact(1, t, G.Q);
    var d, k := Delta(t), Centered(G.Q, t);
    assert t * d == G.Q - k;
    Expand(t, d, M, E, G.Q, k);
  }

  lemma Expand(t: int, d: int, M: int, E: int, q: int, k: int)
    requires t * d == q - k
    ensures t * (d * M + E) == M * q + (t * E - k * M)
  {
    assert t * (d * M + E) == (t * d) * M + t * E;
    assert (q - k) * M == M * q - k * M;
  }
}
