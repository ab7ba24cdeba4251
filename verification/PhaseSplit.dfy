/** The homomorphic evaluation loop on ciphertexts, split into the a-halves that are computed offline and
 *  the b-halves that are computed per query, and what the resulting pair decrypts to.
 */
module PhaseSplit {
  import opened Arith
  import opened Negacyclic
  import opened Gadget
  import opened Retrieval

  /** Both parts of a Galois key or both digits of a decomposition. */
  datatype Pair = Pair(d0: Elem, d1: Elem) {
    predicate Size(n: nat) {
      |d0| == n && |d1| == n
    }
  }

  function ModQ(a: Elem): (r: Elem)
    ensures |r| == |a|
    ensures ElemCong(r, a, Q)
  {
    ModQCong(a);
    seq(|a|, i requires 0 <= i < |a| => a[i] % Q)
  }

  lemma ModQCong(a: Elem)
    ensures forall i :: 0 <= i < |a| ==> Cong(a[i] % Q, a[i], Q)
  {
    forall i | 0 <= i < |a|
      ensures Cong(a[i] % Q, a[i], Q)
    {
      CongSelf(a[i], Q);
    }
  }

  // ------------------------------------------------------------------------- the steps

  /** Decomp(gal(a)): the balanced digits of the rotated a-half. */
  function DigitsOf(h: int, a: Elem): (d: Pair)
    requires |a| > 0
    ensures d.Size(|a|)
  {
    var rotated := CenterAll(Q, Galois(a, h));
    Pair(seq(|a|, i requires 0 <= i < |a| => LowPart(rotated[i])),
         seq(|a|, i requires 0 <= i < |a| => LowPart(HighPart(rotated[i]))))
  }

  /** <D, key>. */
  function Inner(d: Pair, key: Pair): (r: Elem)
    requires |d.d0| > 0 && d.Size(|d.d0|) && key.Size(|d.d0|)
    ensures |r| == |d.d0|
  {
    Add(Mul(d.d0, key.d0), Mul(d.d1, key.d1))
  }

  /** One iteration of preprocess_loop. */
  function StepA(d: Pair, keyA: Pair, te: Elem, qryA: Elem): (r: Elem)
    requires |te| == |qryA| > 0 && d.Size(|te|) && keyA.Size(|te|)
    ensures |r| == |te|
  {
    ModQ(Add(Inner(d, keyA), Mul(te, qryA)))
  }

  /** One iteration of the online recurrence. */
  function StepB(h: int, d: Pair, keyB: Pair, te: Elem, qryB: Elem, b: Elem): (r: Elem)
    requires |te| == |qryB| == |b| > 0 && d.Size(|te|) && keyB.Size(|te|)
    ensures |r| == |te|
  {
    Add(Add(Inner(d, keyB), Galois(b, h)), Mul(te, qryB))
  }

  ghost predicate Sizes(N: nat, stored: seq<Elem>, key: Pair, qry: Elem) {
    && N > 0
    && (forall i :: 0 <= i < |stored| ==> |stored[i]| == N)
    && key.Size(N)
    && |qry| == N
  }

  /** The a-half after all stored elements. */
  ghost function PartA(N: nat, h: int, stored: seq<Elem>, keyA: Pair, qryA: Elem): (r: Elem)
    requires Sizes(N, stored, keyA, qryA)
    ensures |r| == N
  {
    if stored == [] then Zero(N)
    else
      var n := |stored| - 1;
      StepA(DigitsOf(h, PartA(N, h, stored[..n], keyA, qryA)), keyA, stored[n], qryA)
  }

  /** The digits that the online phase uses in iteration i. */
  ghost function DigitsAt(N: nat, h: int, stored: seq<Elem>, keyA: Pair, qryA: Elem, i: nat): (d: Pair)
    requires Sizes(N, stored, keyA, qryA)
    requires i < |stored|
    ensures d.Size(N)
  {
    DigitsOf(h, PartA(N, h, stored[..i], keyA, qryA))
  }

  /** The b-half after all stored elements, given the digits of every iteration. */
  function PartB(N: nat, h: int, stored: seq<Elem>, digits: seq<Pair>, keyB: Pair, qryB: Elem): (r: Elem)
    requires N > 0 && |stored| == |digits| && keyB.Size(N) && |qryB| == N
    requires forall i :: 0 <= i < |stored| ==> |stored[i]| == N
    requires forall i :: 0 <= i < |digits| ==> digits[i].Size(N)
    ensures |r| == N
  {
    if stored == [] then Zero(N)
    else
      var n := |stored| - 1;
      StepB(h, digits[n], keyB, stored[n], qryB, PartB(N, h, stored[..n], digits[..n], keyB, qryB))
  }

  ghost function AllDigits(N: nat, h: int, stored: seq<Elem>, keyA: Pair, qryA: Elem): (d: seq<Pair>)
    requires Sizes(N, stored, keyA, qryA)
    ensures |d| == |stored|
    ensures forall i :: 0 <= i < |d| ==> d[i].Size(N) && d[i] == DigitsAt(N, h, stored, keyA, qryA, i)
  {
    seq(|stored|, i requires 0 <= i < |stored| => DigitsAt(N, h, stored, keyA, qryA, i))
  }

  // ----------------------------------------------------------------- phases and noise

  function Phase(s: Elem, a: Elem, b: Elem): (r: Elem)
    requires |s| == |a| == |b| > 0
    ensures |r| == |s|
  {
    Add(Mul(a, s), b)
  }

  /** What part k of a Galois key encrypts beyond base^k * gal(s); whatever the key, this is its noise. */
  function KeyNoise(h: int, s: Elem, keyA: Elem, keyB: Elem, base: int): (r: Elem)
    requires |s| == |keyA| == |keyB| > 0
    ensures |r| == |s|
  {
    Add(Phase(s, keyA, keyB), Scale(-base, Galois(s, h)))
  }

  /** The noise-free course of the phase: rotate, then add the stored element times the query's phase. */
  function IdealPhase(N: nat, h: int, stored: seq<Elem>, query: Elem): (r: Elem)
    requires N > 0 && |query| == N
    requires forall i :: 0 <= i < |stored| ==> |stored[i]| == N
    ensures |r| == N
  {
    if stored == [] then Zero(N)
    else
      var n := |stored| - 1;
      Add(Galois(IdealPhase(N, h, stored[..n], query), h), Mul(stored[n], query))
  }

  /** The accumulated key-switching noise. */
  function KeyError(N: nat, h: int, digits: seq<Pair>, noise: Pair): (r: Elem)
    requires N > 0 && noise.Size(N)
    requires forall i :: 0 <= i < |digits| ==> digits[i].Size(N)
    ensures |r| == N
  {
    if digits == [] then Zero(N)
    else
      var n := |digits| - 1;
      assert digits[n].Size(N);
      Add(Galois(KeyError(N, h, digits[..n], noise), h), Inner(digits[n], noise))
  }

  lemma DigitsRecombineAll(h: int, a: Elem)
    requires |a| > 0
    ensures var d := DigitsOf(h, a); ElemCong(Add(d.d0, Scale(BASE, d.d1)), Galois(a, h), Q)
  {
    var d := DigitsOf(h, a);
    var rotated := CenterAll(Q, Galois(a, h));
    forall i | 0 <= i < |a|
      ensures Add(d.d0, Scale(BASE, d.d1))[i] == rotated[i]
    {
      DigitsRecombine(rotated[i]);
    }
    assert Add(d.d0, Scale(BASE, d.d1)) == rotated;
  }

  /** D * A * s + D * B = D * noise + base * D * gal(s). */
  lemma KeyIdentity(h: int, s: Elem, d: Elem, keyA: Elem, keyB: Elem, base: int, i: int)
    requires |s| == |d| == |keyA| == |keyB| > 0
    requires 0 <= i < |s|
    ensures Mul(Mul(d, keyA), s)[i] + Mul(d, keyB)[i]
            == Mul(d, KeyNoise(h, s, keyA, keyB, base))[i] + base * Mul(d, Galois(s, h))[i]
  {
    hide Mul, Galois;
    var t := Galois(s, h);
    MulAssoc(d, keyA, s);
    MulAddRight(d, Mul(keyA, s), keyB);
    MulAddRight(d, Phase(s, keyA, keyB), Scale(-base, t));
    MulScaleRight(d, -base, t);
  }

  /** One step, exactly modulo q: the phase rotates, gains the stored element times the query phase, and
   *  the digits times the key noise. */
  lemma PhaseStep(h: int, g: int, s: Elem, a: Elem, b: Elem, keyA: Pair, keyB: Pair, te: Elem, qryA: Elem, qryB: Elem,
                  noise: Pair)
    requires |s| == |a| == |b| == |te| == |qryA| == |qryB| > 0
    requires keyA.Size(|s|) && keyB.Size(|s|)
    requires Inverse(g, h, |s|)
    requires noise == Pair(KeyNoise(h, s, keyA.d0, keyB.d0, 1), KeyNoise(h, s, keyA.d1, keyB.d1, BASE))
    ensures var d := DigitsOf(h, a);
            ElemCong(Phase(s, StepA(d, keyA, te, qryA), StepB(h, d, keyB, te, qryB, b)),
                     Add(Add(Galois(Phase(s, a, b), h), Mul(te, Phase(s, qryA, qryB))), Inner(d, noise)), Q)
  {
    hide Mul, Galois, DigitsOf, Cong, KeyNoise;
    var d := DigitsOf(h, a);
    var a' := StepA(d, keyA, te, qryA);
    var unreduced := Add(Inner(d, keyA), Mul(te, qryA));
    var b' := StepB(h, d, keyB, te, qryB, b);
    ElemRefl(s);
    ElemRefl(b');
    MulElemCong(a', unreduced, s, s, Q);
    AddElemCong(Mul(a', s), Mul(unreduced, s), b', b', Q);
    var t := Galois(s, h);
    var d01 := Add(d.d0, Scale(BASE, d.d1));
    var middle := Add(Add(Add(Mul(d01, t), Galois(b, h)), Mul(te, Phase(s, qryA, qryB))), Inner(d, noise));
    UnreducedStep(h, s, b, d, keyA, keyB, te, qryA, qryB, noise);
    assert Add(Mul(unreduced, s), b') == middle;
    DigitsRecombineAll(h, a);
    ElemRefl(t);
    MulElemCong(d01, Galois(a, h), t, t, Q);
    GaloisMul(a, s, g, h);
    GaloisAdd(Mul(a, s), b, h);
    var rest1, rest2, rest3 := Galois(b, h), Mul(te, Phase(s, qryA, qryB)), Inner(d, noise);
    ElemRefl(rest1);
    ElemRefl(rest2);
    ElemRefl(rest3);
    AddElemCong(Mul(d01, t), Mul(Galois(a, h), t), rest1, rest1, Q);
    AddElemCong(Add(Mul(d01, t), rest1), Galois(Phase(s, a, b), h), rest2, rest2, Q);
    AddElemCong(Add(Add(Mul(d01, t), rest1), rest2), Add(Galois(Phase(s, a, b), h), rest2), rest3, rest3, Q);
    ElemTrans(Phase(s, a', b'), middle, Add(Add(Galois(Phase(s, a, b), h), rest2), rest3));
  }

  lemma ElemRefl(a: Elem)
    ensures ElemCong(a, a, Q)
  {
    forall i | 0 <= i < |a|
      ensures Cong(a[i], a[i], Q)
    {
      CongRefl(a[i], Q);
    }
  }

  lemma ElemTrans(a: Elem, b: Elem, c: Elem)
    requires ElemCong(a, b, Q) && ElemCong(b, c, Q)
    ensures ElemCong(a, c, Q)
  {
    forall i | 0 <= i < |a|
      ensures Cong(a[i], c[i], Q)
    {
      CongTrans(a[i], b[i], c[i], Q);
    }
  }

  /** The step before reduction, as an identity of integer ring elements. */
  lemma UnreducedStep(h: int, s: Elem, b: Elem, d: Pair, keyA: Pair, keyB: Pair, te: Elem, qryA: Elem, qryB: Elem,
                      noise: Pair)
    requires |s| == |b| == |te| == |qryA| == |qryB| > 0
    requires d.Size(|s|) && keyA.Size(|s|) && keyB.Size(|s|)
    requires noise == Pair(KeyNoise(h, s, keyA.d0, keyB.d0, 1), KeyNoise(h, s, keyA.d1, keyB.d1, BASE))
    ensures Add(Mul(Add(Inner(d, keyA), Mul(te, qryA)), s), StepB(h, d, keyB, te, qryB, b))
            == Add(Add(Add(Mul(Add(d.d0, Scale(BASE, d.d1)), Galois(s, h)), Galois(b, h)),
                       Mul(te, Phase(s, qryA, qryB))), Inner(d, noise))
  {
    hide Mul, Galois, KeyNoise;
    var t := Galois(s, h);
    MulAddLeft(Inner(d, keyA), Mul(te, qryA), s);
    MulAddLeft(Mul(d.d0, keyA.d0), Mul(d.d1, keyA.d1), s);
    MulAssoc(te, qryA, s);
    MulAddRight(te, Mul(qryA, s), qryB);
    MulAddLeft(d.d0, Scale(BASE, d.d1), t);
    MulScaleLeft(BASE, d.d1, t);
    var l := Add(Mul(Add(Inner(d, keyA), Mul(te, qryA)), s), StepB(h, d, keyB, te, qryB, b));
    var r := Add(Add(Add(Mul(Add(d.d0, Scale(BASE, d.d1)), t), Galois(b, h)), Mul(te, Phase(s, qryA, qryB))), Inner(d, noise));
    forall i | 0 <= i < |s|
      ensures l[i] == r[i]
    {
      KeyIdentity(h, s, d.d0, keyA.d0, keyB.d0, 1, i);
      KeyIdentity(h, s, d.d1, keyA.d1, keyB.d1, BASE, i);
    }
  }

  /** After any number of steps the pair's phase is the ideal phase plus the key-switching error. */
  lemma {:induction false} PhaseOfSplit(N: nat, h: int, g: int, s: Elem, stored: seq<Elem>, keyA: Pair, keyB: Pair,
                                        qryA: Elem, qryB: Elem, noise: Pair)
    requires Sizes(N, stored, keyA, qryA) && |s| == |qryB| == N && keyB.Size(N)
    requires Inverse(g, h, N)
    requires noise == Pair(KeyNoise(h, s, keyA.d0, keyB.d0, 1), KeyNoise(h, s, keyA.d1, keyB.d1, BASE))
    ensures var digits := AllDigits(N, h, stored, keyA, qryA);
            ElemCong(Phase(s, PartA(N, h, stored, keyA, qryA), PartB(N, h, stored, digits, keyB, qryB)),
                     Add(IdealPhase(N, h, stored, Phase(s, qryA, qryB)), KeyError(N, h, digits, noise)), Q)
    decreases |stored|
  {
    hide Mul, Galois, Cong, KeyNoise, DigitsOf, StepA, StepB, Inner;
    var digits := AllDigits(N, h, stored, keyA, qryA);
    var query := Phase(s, qryA, qryB);
    if stored == [] {
      ZeroPhase(s);
      ElemRefl(Zero(N));
      assert Add(Zero(N), Zero(N)) == Zero(N);
    } else {
      var n := |stored| - 1;
      var init := stored[..n];
      var a, b := PartA(N, h, init, keyA, qryA), PartB(N, h, init, digits[..n], keyB, qryB);
      PhaseOfSplit(N, h, g, s, init, keyA, keyB, qryA, qryB, noise);
      PrefixDigits(N, h, stored, keyA, qryA, n);
      PhaseStep(h, g, s, a, b, keyA, keyB, stored[n], qryA, qryB, noise);
      var ideal, err := IdealPhase(N, h, init, query), KeyError(N, h, digits[..n], noise);
      GaloisElemCong(Phase(s, a, b), Add(ideal, err), h, Q);
      GaloisAdd(ideal, err, h);
      var d := DigitsOf(h, a);
      AddRest(Galois(Phase(s, a, b), h), Galois(ideal, h), Galois(err, h), Mul(stored[n], query), Inner(d, noise));
      ElemTrans(Phase(s, StepA(d, keyA, stored[n], qryA), StepB(h, d, keyB, stored[n], qryB, b)),
                Add(Add(Galois(Phase(s, a, b), h), Mul(stored[n], query)), Inner(d, noise)),
                Add(Add(Galois(ideal, h), Mul(stored[n], query)), Add(Galois(err, h), Inner(d, noise))));
    }
  }

  lemma ZeroPhase(s: Elem)
    requires |s| > 0
    ensures Phase(s, Zero(|s|), Zero(|s|)) == Zero(|s|)
  {
    MulScaleLeft(0, Zero(|s|), s);
    assert Scale(0, Zero(|s|)) == Zero(|s|);
    assert Scale(0, Mul(Zero(|s|), s)) == Zero(|s|);
  }

  lemma PrefixDigits(N: nat, h: int, stored: seq<Elem>, keyA: Pair, qryA: Elem, n: nat)
    requires Sizes(N, stored, keyA, qryA) && n <= |stored|
    ensures AllDigits(N, h, stored[..n], keyA, qryA) == AllDigits(N, h, stored, keyA, qryA)[..n]
  {
    forall i | 0 <= i < n
      ensures AllDigits(N, h, stored[..n], keyA, qryA)[i] == AllDigits(N, h, stored, keyA, qryA)[i]
    {
      assert stored[..n][..i] == stored[..i];
    }
  }

  lemma AddRest(x: Elem, y: Elem, z: Elem, u: Elem, v: Elem)
    requires |x| == |y| == |z| == |u| == |v|
    requires ElemCong(x, Add(y, z), Q)
    ensures ElemCong(Add(Add(x, u), v), Add(Add(y, u), Add(z, v)), Q)
  {
    forall i | 0 <= i < |x|
      ensures Cong(Add(Add(x, u), v)[i], Add(Add(y, u), Add(z, v))[i], Q)
    {
      assert Cong(x[i], Add(y, z)[i], Q);
      CongRefl(u[i] + v[i], Q);
      CongAdd(x[i], y[i] + z[i], u[i] + v[i], u[i] + v[i], Q);
    }
  }
}
