/** A query after the wire: the server works with rounded ciphertexts. It answers exactly as it would answer a
 *  client whose errors have moved by the rounding.
 */
module ReceivedQuery {
  import opened Arith
  import opened Negacyclic
  import opened GaloisGroup
  import opened PhaseSplit
  import opened PerformPir
  import opened Retrieval
  import opened EndToEnd
  import opened QueryFormat
  import G = Gadget
  import Bfv
  import D = DoublePir
  import P = PirDatabase
  import Noise

  // --------------------------------------------------------------------- congruent queries

  lemma ModQEqual(a: Elem, b: Elem)
    requires ElemCong(a, b, G.Q)
    ensures ModQ(a) == ModQ(b)
  {
    hide Cong;
    forall i | 0 <= i < |a|
      ensures a[i] % G.Q == b[i] % G.Q
    {
      assert Cong(a[i], b[i], G.Q);
      CongMod(a[i], b[i], G.Q);
    }
  }

  /** The b-half of the recurrence depends on the key and the query only modulo q. */
  lemma {:induction false} PartBCong(N: nat, h: int, stored: seq<Elem>, digits: seq<Pair>, key: Pair, key': Pair,
                                     qry: Elem, qry': Elem)
    requires N > 0 && |stored| == |digits| && key.Size(N) && key'.Size(N) && |qry| == N
    requires forall i :: 0 <= i < |stored| ==> |stored[i]| == N
    requires forall i :: 0 <= i < |digits| ==> digits[i].Size(N)
    requires ElemCong(key.d0, key'.d0, G.Q) && ElemCong(key.d1, key'.d1, G.Q) && ElemCong(qry, qry', G.Q)
    ensures ElemCong(PartB(N, h, stored, digits, key, qry), PartB(N, h, stored, digits, key', qry'), G.Q)
    decreases |stored|
  {
    hide Mul, Galois, Cong;
    if stored == [] {
      ElemRefl(Zero(N));
    } else {
      var n := |stored| - 1;
      PartBCong(N, h, stored[..n], digits[..n], key, key', qry, qry');
      var b, b' := PartB(N, h, stored[..n], digits[..n], key, qry), PartB(N, h, stored[..n], digits[..n], key', qry');
      StepBCong(h, digits[n], key, key', stored[n], qry, qry', b, b');
    }
  }

  lemma StepBCong(h: int, d: Pair, key: Pair, key': Pair, te: Elem, qry: Elem, qry': Elem, b: Elem, b': Elem)
    requires |te| == |qry| == |b| > 0 && d.Size(|te|) && key.Size(|te|) && key'.Size(|te|)
    requires ElemCong(key.d0, key'.d0, G.Q) && ElemCong(key.d1, key'.d1, G.Q) && ElemCong(qry, qry', G.Q)
    requires ElemCong(b, b', G.Q)
    ensures ElemCong(StepB(h, d, key, te, qry, b), StepB(h, d, key', te, qry', b'), G.Q)
  {
    hide Mul, Galois, Cong;
    GaloisElemCong(b, b', h, G.Q);
    ElemRefl(d.d0);
    ElemRefl(d.d1);
    ElemRefl(te);
    MulElemCong(d.d0, d.d0, key.d0, key'.d0, G.Q);
    MulElemCong(d.d1, d.d1, key.d1, key'.d1, G.Q);
    MulElemCong(te, te, qry, qry', G.Q);
    AddElemCong(Mul(d.d0, key.d0), Mul(d.d0, key'.d0), Mul(d.d1, key.d1), Mul(d.d1, key'.d1), G.Q);
    AddElemCong(Inner(d, key), Inner(d, key'), Galois(b, h), Galois(b', h), G.Q);
    AddElemCong(Add(Inner(d, key), Galois(b, h)), Add(Inner(d, key'), Galois(b', h)), Mul(te, qry), Mul(te, qry'), G.Q);
  }

  // ---------------------------------------------------------------------- what the server does

  /** The public masks of one level's queries. */
  datatype Masks = Masks(qryA: Elem, conjA: Elem) {
    predicate Size(N: nat) {
      |qryA| == |conjA| == N
    }
  }

  /** get_a of a shard. */
  ghost function ServedA(d: Shard, keyA: Pair, m: Masks): (a: Elem)
    requires d.Valid() && keyA.Size(d.g.N) && m.Size(d.g.N)
    ensures |a| == d.g.N
  {
    var main := PartA(d.g.N, d.h, d.Main(), keyA, m.qryA);
    ModQ(if d.g.RequiresConj() then Add(main, PartA(d.g.N, d.h, d.Conj(), keyA, m.conjA)) else main)
  }

  /** perform_pir_split of a shard, on whatever key and query arrive. */
  ghost function ServedB(d: Shard, keyA: Pair, m: Masks, keyB: Pair, qryB: Elem, conjB: Elem): (b: Elem)
    requires d.Valid() && keyA.Size(d.g.N) && m.Size(d.g.N)
    requires keyB.Size(d.g.N) && |qryB| == |conjB| == d.g.N
    ensures |b| == d.g.N
  {
    ModQ(ReplyB(d.g.N, d.h, keyB, d.g.RequiresConj(),
                Side(d.Main(), AllDigits(d.g.N, d.h, d.Main(), keyA, m.qryA), qryB),
                Side(d.Conj(), AllDigits(d.g.N, d.h, d.Conj(), keyA, m.conjA), conjB)))
  }

  lemma ExpectedServes(k: P.Config, d: Shard, keyB: Pair, qryB: Elem, conjB: Elem)
    requires k.Valid() && k.g.LoopLen() > 0 && d.Valid() && keyB.Size(k.g.N) && |qryB| == |conjB| == k.g.N
    requires d.g == k.g && d.h == k.s.h && d.t == k.t && d.invL == k.invL
    ensures P.Expected(k, d.entries, keyB, qryB, conjB) == ServedB(d, k.keyA, Masks(k.qryA, k.conjA), keyB, qryB, conjB)
  {
    P.PlansValid(k, d.entries);
    hide AllDigits, Stored, PartA, PartB, Cong, Inverse, IndexGroup.Layout, Entries, ModQ;
  }

  /** Both are what a database of class Db computes on its slabs, if its loop length is above 1. */
  lemma DatabaseServes(k: P.Config, d: Shard, keyB: Pair, qryB: Elem, conjB: Elem)
    requires k.Valid() && k.g.LoopLen() > 0 && d.Valid() && keyB.Size(k.g.N) && |qryB| == |conjB| == k.g.N
    requires d.g == k.g && d.h == k.s.h && d.t == k.t && d.invL == k.invL
    ensures ModQ(P.SumA(k, d.entries)) == ServedA(d, k.keyA, Masks(k.qryA, k.conjA))
    ensures k.m > 0 ==>
              P.Answered(k, d.entries, keyB, qryB, conjB) == ServedB(d, k.keyA, Masks(k.qryA, k.conjA), keyB, qryB, conjB)
  {
    P.AnsweredCases(k, d.entries, keyB, qryB, conjB);
    ExpectedServes(k, d, keyB, qryB, conjB);
    P.PlansValid(k, d.entries);
    hide AllDigits, Stored, PartA, PartB, Cong, Inverse, IndexGroup.Layout, Entries, ModQ, P.Answered, P.Expected, ServedB;
  }

  lemma ServedBCong(d: Shard, keyA: Pair, m: Masks, key: Pair, key': Pair, qry: Elem, qry': Elem, conj: Elem, conj': Elem)
    requires d.Valid() && keyA.Size(d.g.N) && m.Size(d.g.N)
    requires key.Size(d.g.N) && key'.Size(d.g.N) && |qry| == |conj| == |conj'| == d.g.N
    requires ElemCong(key.d0, key'.d0, G.Q) && ElemCong(key.d1, key'.d1, G.Q) && ElemCong(qry, qry', G.Q)
    requires d.g.RequiresConj() ==> ElemCong(conj, conj', G.Q)
    ensures ServedB(d, keyA, m, key, qry, conj) == ServedB(d, keyA, m, key', qry', conj')
  {
    hide Cong, PartB, Stored, AllDigits, IndexGroup.LoopLen, IndexGroup.Layout, Entries, Inverse, ModQ;
    LayoutLoop(d);
    var N, h := d.g.N, d.h;
    var digits, digits' := AllDigits(N, h, d.Main(), keyA, m.qryA), AllDigits(N, h, d.Conj(), keyA, m.conjA);
    PartBCong(N, h, d.Main(), digits, key, key', qry, qry');
    var b, c := PartB(N, h, d.Main(), digits, key, qry), PartB(N, h, d.Main(), digits, key', qry');
    if d.g.RequiresConj() {
      PartBCong(N, h, d.Conj(), digits', key, key', conj, conj');
      var b', c' := PartB(N, h, d.Conj(), digits', key, conj), PartB(N, h, d.Conj(), digits', key', conj');
      AddElemCong(b, c, b', c', G.Q);
      ModQEqual(Add(b, b'), Add(c, c'));
    } else {
      ModQEqual(b, c);
    }
  }

  // ------------------------------------------------------------------------ moved errors

  /** A further error can be added to a ciphertext or to the error it is made with. */
  lemma ShiftError(e: Elem, y: Elem, x: Elem, moved: Elem)
    requires |e| == |y| == |x| == |moved|
    ensures ElemCong(Add(ModQ(Add(Add(e, y), x)), moved), ModQ(Add(Add(Add(e, moved), y), x)), G.Q)
  {
    hide Cong;
    var b, b' := Add(Add(e, y), x), Add(Add(Add(e, moved), y), x);
    ElemRefl(moved);
    AddElemCong(ModQ(b), b, moved, moved, G.Q);
    forall i | 0 <= i < |e|
      ensures Cong(b[i] + moved[i], ModQ(b')[i], G.Q)
    {
      CongSym(ModQ(b')[i], b'[i], G.Q);
    }
    ElemTrans(Add(ModQ(b), moved), Add(b, moved), ModQ(b'));
  }

  /** A rounded encryption is an encryption of the same message whose error has moved. */
  lemma RoundedEncryption(bits: nat, s: Elem, a: Elem, e: Elem, m: Elem, t: int, tInv: int)
    requires |s| == |a| == |e| == |m| > 0 && t > 0 && t % 2 == 1
    ensures var b := EncSymB(s, a, e, m, t, tInv);
            ElemCong(Rounded(bits, b), EncSymB(s, a, Add(e, D.Moved(bits, b)), m, t, tInv), G.Q)
  {
    hide Cong, Mul, Payload, Rounded, D.Moved;
    var b := EncSymB(s, a, e, m, t, tInv);
    D.MovedCong(bits, b);
    ShiftError(e, Scale(-1, Mul(a, s)), Payload(m, t, tInv), D.Moved(bits, b));
    ElemTrans(Rounded(bits, b), Add(b, D.Moved(bits, b)), EncSymB(s, a, Add(e, D.Moved(bits, b)), m, t, tInv));
  }

  /** A rounded part of a Galois key is such a part, with a moved error. */
  lemma RoundedKeyPart(bits: nat, s: Elem, a: Elem, e: Elem, g: int, h: int, base: int)
    requires |s| == |a| == |e| > 0 && Inverse(g, h, |s|)
    ensures var b := GenGkB(s, a, e, g, h, base);
            ElemCong(Rounded(bits, b), GenGkB(s, a, Add(e, D.Moved(bits, b)), g, h, base), G.Q)
  {
    hide Cong, Mul, Rounded, D.Moved, Inverse;
    var b := GenGkB(s, a, e, g, h, base);
    D.MovedCong(bits, b);
    ShiftError(e, Scale(-1, Mul(a, s)), Scale(base, Bfv.GaloisOfKey(s, g, h)), D.Moved(bits, b));
    ElemTrans(Rounded(bits, b), Add(b, D.Moved(bits, b)), GenGkB(s, a, Add(e, D.Moved(bits, b)), g, h, base));
  }

  /** The query parts that a client sends to the shard d for position idx. */
  function SentMain(d: Shard, c: Client, idx: nat): (b: Elem)
    requires d.g.LoopLen() > 0 && c.Size(d.g.N) && d.t > 0 && d.t % 2 == 1
    ensures |b| == d.g.N
  {
    EncSymB(c.s, c.qryA, c.qryE, Mono(d.g.N, MainPower(d.g, idx)), d.t, d.tInv)
  }

  function SentConj(d: Shard, c: Client, idx: nat): (b: Elem)
    requires d.g.LoopLen() > 0 && c.Size(d.g.N) && d.t > 0 && d.t % 2 == 1
    ensures |b| == d.g.N
  {
    EncSymB(c.s, c.conjA, c.conjE, Mono(d.g.N, ConjPower(d.g, idx)), d.t, d.tInv)
  }

  function SentKey(d: Shard, c: Client): (k: Pair)
    requires c.Size(d.g.N) && Inverse(5, d.h, d.g.N)
    ensures k.Size(d.g.N)
  {
    c.KeyB(5, d.h)
  }

  /** The client as the server sees it when the query has gone over the wire: the same secret and masks, with the
   *  rounding added to the errors. */
  function Arrived(d: Shard, c: Client, idx: nat): (r: Client)
    requires d.g.LoopLen() > 0 && c.Size(d.g.N) && d.t > 0 && d.t % 2 == 1 && Inverse(5, d.h, d.g.N)
    ensures r.Size(d.g.N) && r.s == c.s && r.keyA == c.keyA && r.qryA == c.qryA && r.conjA == c.conjA
  {
    var key := SentKey(d, c);
    c.(keyE := Pair(Add(c.keyE.d0, D.Moved(GALOIS_KEY_LOG2_MODULUS, key.d0)),
                    Add(c.keyE.d1, D.Moved(GALOIS_KEY_LOG2_MODULUS, key.d1))),
       qryE := Add(c.qryE, D.Moved(PRIMARY_QUERY_LOG2_MODULUS, SentMain(d, c, idx))),
       conjE := Add(c.conjE, D.Moved(PRIMARY_QUERY_LOG2_MODULUS, SentConj(d, c, idx))))
  }

  lemma ArrivedCong(d: Shard, c: Client, idx: nat)
    requires d.g.LoopLen() > 0 && c.Size(d.g.N) && d.t > 0 && d.t % 2 == 1 && Inverse(5, d.h, d.g.N)
    ensures var key, key' := SentKey(d, c), SentKey(d, Arrived(d, c, idx));
            && ElemCong(Rounded(GALOIS_KEY_LOG2_MODULUS, key.d0), key'.d0, G.Q)
            && ElemCong(Rounded(GALOIS_KEY_LOG2_MODULUS, key.d1), key'.d1, G.Q)
    ensures ElemCong(Rounded(PRIMARY_QUERY_LOG2_MODULUS, SentMain(d, c, idx)), SentMain(d, Arrived(d, c, idx), idx), G.Q)
    ensures ElemCong(Rounded(PRIMARY_QUERY_LOG2_MODULUS, SentConj(d, c, idx)), SentConj(d, Arrived(d, c, idx), idx), G.Q)
  {
    hide Cong, Mul, Rounded, D.Moved, Inverse, EncSymB, GenGkB, Mono, ElemCong;
    RoundedKeyPart(GALOIS_KEY_LOG2_MODULUS, c.s, c.keyA.d0, c.keyE.d0, 5, d.h, 1);
    RoundedKeyPart(GALOIS_KEY_LOG2_MODULUS, c.s, c.keyA.d1, c.keyE.d1, 5, d.h, G.BASE);
    RoundedEncryption(PRIMARY_QUERY_LOG2_MODULUS, c.s, c.qryA, c.qryE, Mono(d.g.N, MainPower(d.g, idx)), d.t, d.tInv);
    RoundedEncryption(PRIMARY_QUERY_LOG2_MODULUS, c.s, c.conjA, c.conjE, Mono(d.g.N, ConjPower(d.g, idx)), d.t, d.tInv);
  }

  /** The reply to a query that went over the wire is the reply to the client with the moved errors; so every
   *  result about a shard's reply holds for it with those errors. */
  lemma ReplyToReceived(d: Shard, c: Client, idx: nat)
    requires d.Valid() && d.g.LoopLen() > 0 && c.Size(d.g.N)
    ensures var key := SentKey(d, c);
            var m := Masks(c.qryA, c.conjA);
            && ServedA(d, c.keyA, m) == ReplyA(d, Arrived(d, c, idx))
            && ServedB(d, c.keyA, m,
                       Pair(Rounded(GALOIS_KEY_LOG2_MODULUS, key.d0), Rounded(GALOIS_KEY_LOG2_MODULUS, key.d1)),
                       Rounded(PRIMARY_QUERY_LOG2_MODULUS, SentMain(d, c, idx)),
                       Rounded(PRIMARY_QUERY_LOG2_MODULUS, SentConj(d, c, idx)))
               == ReplyTo(d, Arrived(d, c, idx), idx)
  {
    hide Cong, Mul, Rounded, Inverse, EncSymB, GenGkB, Mono, ElemCong, Stored, AllDigits, PartA, PartB, IndexGroup.Layout, IndexGroup.LoopLen, Entries, ModQ, Arrived, ReplyB;
    var c', key := Arrived(d, c, idx), SentKey(d, c);
    ArrivedCong(d, c, idx);
    ServedBCong(d, c.keyA, Masks(c.qryA, c.conjA),
                Pair(Rounded(GALOIS_KEY_LOG2_MODULUS, key.d0), Rounded(GALOIS_KEY_LOG2_MODULUS, key.d1)), SentKey(d, c'),
                Rounded(PRIMARY_QUERY_LOG2_MODULUS, SentMain(d, c, idx)), SentMain(d, c', idx),
                Rounded(PRIMARY_QUERY_LOG2_MODULUS, SentConj(d, c, idx)), SentConj(d, c', idx));
  }

  // ------------------------------------------------------------------------- how far they move

  lemma MovedBounded(bits: nat, a: Elem, bound: int)
    requires bound >= 0
    requires G.Q + 2 * Pow2(bits) < 2 * ((bound + 1) * Pow2(bits))
    ensures Noise.Bounded(D.Moved(bits, a), bound)
  {
    hide Rounded, Pow2, Cong;
    forall i | 0 <= i < |a|
      ensures -bound <= D.Moved(bits, a)[i] <= bound
    {
      SectionError(bits, a, i);
      var x: nat := Abs(D.Moved(bits, a)[i]);
      if x > bound {
        MulMonotone(bound + 1, x, Pow2(bits));
      }
    }
  }

  /** The wire adds at most 1 to the errors of the Galois key and at most 65525 to those of the query. */
  lemma ArrivedErrors(d: Shard, c: Client, idx: nat, b: int, k: int)
    requires d.g.LoopLen() > 0 && c.Size(d.g.N) && d.t > 0 && d.t % 2 == 1 && Inverse(5, d.h, d.g.N)
    requires Noise.SmallErrors(c, b, k)
    ensures Noise.SmallErrors(Arrived(d, c, idx), b + 65525, k + 1)
  {
    Pow2Values();
    hide EncSymB, GenGkB, Mono, D.Moved, Pow2, Noise.Bounded, Inverse;
    MovedBounded(GALOIS_KEY_LOG2_MODULUS, SentKey(d, c).d0, 1);
    MovedBounded(GALOIS_KEY_LOG2_MODULUS, SentKey(d, c).d1, 1);
    MovedBounded(PRIMARY_QUERY_LOG2_MODULUS, SentMain(d, c, idx), 65525);
    MovedBounded(PRIMARY_QUERY_LOG2_MODULUS, SentConj(d, c, idx), 65525);
    Noise.AddBounded(c.keyE.d0, D.Moved(GALOIS_KEY_LOG2_MODULUS, SentKey(d, c).d0), k, 1);
    Noise.AddBounded(c.keyE.d1, D.Moved(GALOIS_KEY_LOG2_MODULUS, SentKey(d, c).d1), k, 1);
    Noise.AddBounded(c.qryE, D.Moved(PRIMARY_QUERY_LOG2_MODULUS, SentMain(d, c, idx)), b, 65525);
    Noise.AddBounded(c.conjE, D.Moved(PRIMARY_QUERY_LOG2_MODULUS, SentConj(d, c, idx)), b, 65525);
  }
}
