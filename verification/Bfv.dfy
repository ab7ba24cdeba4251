/** The coefficient arithmetic of the encryption layer: message rescaling, modulus switching and the
 *  Galois image of the secret key. All of it is coefficientwise.
 */
module Bfv {
  import opened Arith
  import opened Negacyclic
  import opened Parameters
  import G = Gadget


  // ------------------------------------------------------------------ message rescaling

  /** The exact quotient (lift(m) * q - delta) / t that encryption embeds, before reduction modulo q. */
  function ScaledMessage(m: int, t: int, q: int): int
    requires t > 0 && t % 2 == 1
  {
    var up := Centered(m, t) * q;
    (up - Centered(up, t)) / t
  }

  /** The payload coefficient of enc_sym_b; tInv is the inverse of t modulo q. */
  function EncRescale(m: int, t: int, q: int, tInv: int): int
    requires t > 0 && t % 2 == 1 && q > 0
  {
    var up := Centered(m, t) * q;
    var delta := Centered(up, t);
    ((up - delta) % q * tInv) % q
  }

  /** One coefficient of dec; qInv is the inverse of q modulo t. */
  function DecRescale(v: int, t: int, q: int, qInv: int): int
    requires t > 0 && q > 0 && q % 2 == 1
  {
    var up := Centered(v, q) * t;
    var delta := Centered(up, q);
    ((up - delta) % t * qInv) % t
  }

  lemma ScaledMessageExact(m: int, t: int, q: int)
    requires t > 0 && t % 2 == 1
    ensures t * ScaledMessage(m, t, q) == Centered(m, t) * q - Centered(Centered(m, t) * q, t)
  {
    var up := Centered(m, t) * q;
    var delta := Centered(up, t);
    CongSym(delta, up, t);
    var k := CongWitness(up, delta, t);
    DivModUnique(up - delta, t, k, 0);
    assert t * k == k * t;
  }

  /** The modular division by t computes the exact quotient. */
  lemma EncRescaleValue(m: int, t: int, q: int, tInv: int)
    requires t > 0 && t % 2 == 1 && q > 0
    requires Cong(t * tInv, 1, q)
    ensures EncRescale(m, t, q, tInv) == ScaledMessage(m, t, q) % q
  {
    ScaledMessageExact(m, t, q);
    var s := ScaledMessage(m, t, q);
    DivideModulo(t * s, s, t, tInv, q);
  }

  lemma DivideModulo(x: int, s: int, t: int, tInv: int, q: int)
    requires q > 0
    requires x == t * s
    requires Cong(t * tInv, 1, q)
    ensures (x % q * tInv) % q == s % q
  {
    CongSelf(x, q);
    CongScale(tInv, x % q, x, q);
    CongScale(s, t * tInv, 1, q);
    assert (t * s) * tInv == s * (t * tInv);
    CongTrans(x % q * tInv, x * tInv, s, q);
    CongMod(x % q * tInv, s, q);
  }

  /** How many multiples of q the disturbance w is away from zero, rounded. */
  function Carry(w: int, q: int): int
    requires q > 0 && q % 2 == 1
  {
    (w - Centered(w, q)) / q
  }

  lemma CarryExact(w: int, q: int)
    requires q > 0 && q % 2 == 1
    ensures w == Centered(w, q) + Carry(w, q) * q
  {
    CongSym(Centered(w, q), w, q);
    var k := CongWitness(w, Centered(w, q), q);
    DivModUnique(w - Centered(w, q), q, k, 0);
  }

  lemma CarryZero(w: int, q: int)
    requires q > 0 && q % 2 == 1
    requires 2 * Abs(w) < q
    ensures Carry(w, q) == 0
  {
    hide Cong;
    CongRefl(w, q);
    CenteredUnique(w, w, q);
    DivModUnique(0, q, 0, 0);
  }

  /** Decryption of any value whose t-fold is M * q + w modulo t * q: the message plus the carry of w. */
  lemma DecFormula(v: int, x: int, M: int, w: int, t: int, q: int, qInv: int)
    requires t > 0 && q > 0 && q % 2 == 1
    requires Cong(q * qInv, 1, t)
    requires Cong(x, v, q)
    requires t * x == M * q + w
    ensures DecRescale(v, t, q, qInv) == (M + Carry(w, q)) % t
  {
    var c := Centered(v, q);
    CongSym(x, v, q);
    CongTrans(c, v, x, q);
    var k := CongWitness(c, x, q);
    var up := c * t;
    UpscaledValue(c, x, k, M, w, t, q);
    var j := M + k * t;
    CongIntro(up, w, j, q);
    SameCentered(up, w, q);
    CarryExact(w, q);
    var s := j + Carry(w, q);
    DecDifference(j, Carry(w, q), q, w, Centered(w, q));
    DivideModulo(q * s, s, q, qInv, t);
    CongIntro(s, M + Carry(w, q), k, t);
    CongMod(s, M + Carry(w, q), t);
  }

  lemma UpscaledValue(c: int, x: int, k: int, M: int, w: int, t: int, q: int)
    requires c == x + k * q
    requires t * x == M * q + w
    ensures c * t == w + (M + k * t) * q
  {
    assert (x + k * q) * t == t * x + (k * t) * q;
    assert (M + k * t) * q == M * q + (k * t) * q;
  }

  lemma DecDifference(j: int, c: int, q: int, w: int, z: int)
    requires w == z + c * q
    ensures w + j * q - z == q * (j + c)
  {
  }

  lemma SameCentered(x: int, y: int, q: int)
    requires q > 0 && q % 2 == 1
    requires Cong(x, y, q)
    ensures Centered(x, q) == Centered(y, q)
  {
    CongSym(x, y, q);
    CongTrans(Centered(y, q), y, x, q);
    CenteredUnique(Centered(y, q), x, q);
  }

  /** Rounding round trip, exactly: encrypting m and decrypting with error e returns m plus the carry of
   *  t * e - delta, and therefore m itself if and only if t divides that carry. */
  lemma RescaleRoundTrip(m: int, e: int, v: int, t: int, q: int, tInv: int, qInv: int)
    requires t > 0 && t % 2 == 1 && q > 0 && q % 2 == 1
    requires Cong(t * tInv, 1, q) && Cong(q * qInv, 1, t)
    requires v == EncRescale(m, t, q, tInv) + e
    ensures var w := Disturbance(m, e, t, q);
            && DecRescale(v, t, q, qInv) == (m + Carry(w, q)) % t
            && (DecRescale(v, t, q, qInv) == m % t <==> Carry(w, q) % t == 0)
  {
    hide Cong, EncRescale, DecRescale, Carry, ScaledMessage, Centered, Disturbance;
    var s, M, w := ScaledMessage(m, t, q), Centered(m, t), Disturbance(m, e, t, q);
    EncRescaleValue(m, t, q, tInv);
    EncodedResidue(s, e, v, q);
    EncodedTimes(m, e, t, q);
    DecFormula(v, s + e, M, w, t, q, qInv);
    DecodedResidue(M, m, Carry(w, q), t);
  }

  /** How far t times the encoded message with error e is from a multiple of q. */
  function Disturbance(m: int, e: int, t: int, q: int): int
    requires t > 0 && t % 2 == 1
  {
    t * e - Centered(Centered(m, t) * q, t)
  }

  lemma EncodedTimes(m: int, e: int, t: int, q: int)
    requires t > 0 && t % 2 == 1
    ensures t * (ScaledMessage(m, t, q) + e) == Centered(m, t) * q + Disturbance(m, e, t, q)
  {
    hide ScaledMessage, Centered;
    ScaledMessageExact(m, t, q);
    TimesSum(t, ScaledMessage(m, t, q), e);
  }

  lemma EncodedResidue(s: int, e: int, v: int, q: int)
    requires q > 0 && v == s % q + e
    ensures Cong(s + e, v, q)
  {
    hide Cong;
    CongSelf(s, q);
    CongSym(s % q, s, q);
    CongRefl(e, q);
    CongAdd(s, s % q, e, e, q);
  }

  lemma DecodedResidue(M: int, m: int, c: int, t: int)
    requires t > 0 && Cong(M, m, t)
    ensures (M + c) % t == (m + c) % t
    ensures (m + c) % t == m % t <==> c % t == 0
  {
    hide Cong;
    CongRefl(c, t);
    CongAdd(M, m, c, c, t);
    CongMod(M + c, m + c, t);
    ShiftedResidue(m, c, t);
  }

  lemma TimesSum(t: int, x: int, y: int)
    ensures t * (x + y) == t * x + t * y
  {
  }

  lemma ShiftedResidue(m: int, c: int, t: int)
    requires t > 0
    ensures (m + c) % t == m % t <==> c % t == 0
  {
    CongMod(m + c, m, t);
    CongMod(c, 0, t);
    CongRefl(m, t);
    DivModUnique(0, t, 0, 0);
    hide Cong;
    if Cong(m + c, m, t) {
      CongAdd(m + c, m, m, m, t);
    }
    if Cong(c, 0, t) {
      CongAdd(c, 0, m, m, t);
    }
  }

  /** Errors up to the noise bound decrypt correctly. */
  lemma RescaleWithinBound(m: int, e: int, v: int, t: int, q: int, tInv: int, qInv: int)
    requires t > 0 && t % 2 == 1 && q > 0 && q % 2 == 1
    requires Cong(t * tInv, 1, q) && Cong(q * qInv, 1, t)
    requires v == EncRescale(m, t, q, tInv) + e
    requires 2 * (t * Abs(e)) + t <= q
    ensures DecRescale(v, t, q, qInv) == m % t
  {
    hide Cong, EncRescale, DecRescale, Carry, Centered;
    RescaleRoundTrip(m, e, v, t, q, tInv, qInv);
    ErrorBand(t, e, Centered(Centered(m, t) * q, t));
    CarryZero(Disturbance(m, e, t, q), q);
    DivModUnique(0, t, 0, 0);
  }

  lemma ErrorBand(t: int, e: int, delta: int)
    requires t > 0 && t % 2 == 1 && -(t - 1) / 2 <= delta <= (t - 1) / 2
    ensures 2 * Abs(t * e - delta) < 2 * (t * Abs(e)) + t
  {
    NegNeg(t, e);
    var x, y := t * e, t * Abs(e);
    assert y == x || y == -x;
    MulMonotone(0, Abs(e), t);
    assert Abs(e) * t == y;
    assert -(t - 1) / 2 >= -t / 2 && 2 * delta < t && -t < 2 * delta;
  }

  /** With the real parameters every intermediate product fits a signed 64-bit integer. */
  lemma RescaleFitsI64(m: int, v: int)
    ensures Abs(Centered(m, PLAIN_MODULUS) * G.Q) < 0x7FFF_FFFF_FFFF_FFFF
    ensures Abs(Centered(v, G.Q) * PLAIN_MODULUS) < 0x7FFF_FFFF_FFFF_FFFF
  {
  }

  // ------------------------------------------------------------------- modulus switching

  /** Nearest integer to x / q. For odd q and even x there are no ties. */
  function RoundedDiv(x: int, q: int): int
    requires q > 0
  {
    (2 * x + q) / (2 * q)
  }

  function ModSwitchEncode(B: nat, q: int, x: int): int
    requires q > 0 && q % 2 == 1
  {
    (RoundedDiv(Centered(x, q) * Pow2(B), q) + Pow2(B)) % Pow2(B)
  }

  function ModSwitchDecode(B: nat, q: int, c: int): int
    requires q > 0
  {
    (c * q) / Pow2(B) % q
  }

  lemma RoundedDivBound(x: int, q: int)
    requires q > 0
    ensures var n := RoundedDiv(x, q); -q <= 2 * (x - n * q) <= q
  {
    var n := RoundedDiv(x, q);
    var r, k := Split(2 * x + q, 2 * q);
    assert n * (2 * q) == 2 * (n * q);
  }

  /** Truncation and floor agree on the shifted quotient: it is never negative. */
  lemma EncodeNonNegative(B: nat, q: int, x: int)
    requires q > 0 && q % 2 == 1
    ensures RoundedDiv(Centered(x, q) * Pow2(B), q) + Pow2(B) >= 0
    ensures 0 <= ModSwitchEncode(B, q, x) < Pow2(B)
  {
    var c, P := Centered(x, q), Pow2(B);
    var n := RoundedDiv(c * P, q);
    RoundedDivBound(c * P, q);
    NonNegativeShift(c, P, n, q);
  }

  lemma NonNegativeShift(c: int, P: int, n: int, q: int)
    requires P > 0 && q > 0 && 2 * c >= -q
    requires 2 * (c * P - n * q) <= q
    ensures n + P >= 0
  {
    MulMonotone(-q, 2 * c, P);
    assert (-q) * P == -(P * q) && (2 * c) * P == 2 * (c * P);
    assert (n + P) * q == n * q + P * q;
    MulSign(n + P, q);
    MulSign(P, q);
  }

  lemma CenteredMinimal(v: int, z: int, q: int)
    requires q > 0 && q % 2 == 1
    requires Cong(z, v, q)
    ensures Abs(Centered(v, q)) <= Abs(z)
  {
    if -(q - 1) / 2 <= z <= (q - 1) / 2 {
      CenteredUnique(z, v, q);
    }
  }

  /** Switching down and back moves a coefficient by at most q / 2^(B+1) + 1 modulo q. */
  lemma ModSwitchError(B: nat, q: int, x: int)
    requires q > 0 && q % 2 == 1
    ensures var y := ModSwitchDecode(B, q, ModSwitchEncode(B, q, x));
            2 * (Abs(Centered(y - x, q)) * Pow2(B)) <= q + 2 * Pow2(B)
  {
    hide Cong, Centered, Pow2, RoundedDiv;
    var P := Pow2(B);
    var c := Centered(x, q);
    var n := RoundedDiv(c * P, q);
    var r := ModSwitchEncode(B, q, x);
    RoundedDivBound(c * P, q);
    CongSelf(n + P, P);
    var s := CongWitness(r, n + P, P);
    var f, y' := Split(r * q, P);
    var z := y' - c - (s + 1) * q;
    SwitchDifference(P, c, n, r, s, q, f, y', z);
    var y := ModSwitchDecode(B, q, r);
    SwitchResidue(x, c, y, y', q, s, z);
    CenteredMinimal(y - x, z, q);
    ScaledBound(Abs(Centered(y - x, q)), z, P, q);
  }

  lemma SwitchResidue(x: int, c: int, y: int, y': int, q: int, s: int, z: int)
    requires q > 0 && Cong(c, x, q) && y == y' % q && z == y' - c - (s + 1) * q
    ensures Cong(z, y - x, q)
  {
    hide Cong;
    CongSelf(y', q);
    CongSym(c, x, q);
    CongScale(-1, x, c, q);
    CongAdd(y, y', -1 * x, -1 * c, q);
    NegTimes(s + 1, q);
    CongIntro(z, y' - c, -(s + 1), q);
    CongSym(y - x, y' - c, q);
    CongTrans(z, y' - c, y - x, q);
  }

  lemma NegTimes(k: int, q: int)
    ensures (-k) * q == -(k * q)
  {
  }

  lemma SwitchDifference(P: int, c: int, n: int, r: int, s: int, q: int, f: int, y: int, z: int)
    requires P > 0 && q > 0
    requires -q <= 2 * (c * P - n * q) <= q
    requires r == n + P + s * P
    requires 0 <= f < P && r * q == f + y * P
    requires z == y - c - (s + 1) * q
    ensures -(q + 2 * P) <= 2 * (z * P) <= q + 2 * P
  {
    assert z * P == y * P - c * P - ((s + 1) * q) * P;
    assert r * q == n * q + ((s + 1) * q) * P by {
      assert r == n + (s + 1) * P;
      assert ((s + 1) * P) * q == ((s + 1) * q) * P;
      assert (n + (s + 1) * P) * q == n * q + ((s + 1) * P) * q;
    }
  }

  lemma ScaledBound(a: nat, z: int, P: int, q: int)
    requires P > 0 && a <= Abs(z)
    requires -(q + 2 * P) <= 2 * (z * P) <= q + 2 * P
    ensures 2 * (a * P) <= q + 2 * P
  {
    assert a * P <= Abs(z) * P;
    NegNeg(P, z);
    assert z * P == P * z && P * (-z) == (-z) * P;
  }

  /** Encoding a decoded value returns it exactly when the truncated fraction is below one half step. */
  lemma ModSwitchExact(B: nat, q: int, r: int)
    requires q > 2 && q % 2 == 1 && B > 0
    requires 0 <= r < Pow2(B)
    ensures ModSwitchEncode(B, q, ModSwitchDecode(B, q, r)) == r <==> 2 * ((r * q) % Pow2(B)) < q
  {
    var P := Pow2(B);
    var f, y := Split(r * q, P);
    DecodedRange(r, q, P, f, y);
    DivModUnique(y, q, 0, y);
    var c := Centered(y, q);
    var k := if 2 * y < q then 0 else 1;
    CongIntro(y - k * q, y, -k, q);
    CenteredUnique(y - k * q, y, q);
    var n := RoundedDiv(c * P, q);
    var j := RoundedDiv(-f, q);
    ShiftedRounding(c, P, q, r, k, f, y, n);
    RoundedFraction(f, q, P, j);
    assert n == r - k * P + j;
    CongIntro(n + P, r + j, 1 - k, P);
    assert (1 - k) * P == P - k * P;
    CongMod(n + P, r + j, P);
    DivModUnique(r, P, 0, r);
    ShiftedResidue(r, j, P);
    if j != 0 {
      if j % P == 0 {
        CongMod(j, 0, P);
        CongClose(j, 0, P);
      }
    }
  }

  lemma DecodedRange(r: int, q: int, P: int, f: int, y: int)
    requires P > 0 && q > 0 && 0 <= r < P
    requires 0 <= f < P && r * q == f + y * P
    ensures 0 <= y < q
  {
    assert r * q >= 0;
    assert (P - r) * q > 0;
    assert (P - r) * q == P * q - r * q;
    MulSign(y, P);
    MulSign(y - q, P);
    assert (y - q) * P == y * P - P * q;
    assert y >= q ==> (y - q) * P >= 0;
  }

  lemma ShiftedRounding(c: int, P: int, q: int, r: int, k: int, f: int, y: int, n: int)
    requires P > 0 && q > 0
    requires r * q == f + y * P && c == y - k * q
    requires n == RoundedDiv(c * P, q)
    ensures n == r - k * P + RoundedDiv(-f, q)
  {
    var s := r - k * P;
    ShiftedProduct(c, P, q, r, k, f, y);
    var x := 2 * -f + q;
    assert 2 * (-f + s * q) + q == x + s * (2 * q) by {
      DoubleLast(s, q);
    }
    ModShift(x, s, 2 * q);
  }

  lemma DoubleLast(s: int, q: int)
    ensures s * (2 * q) == 2 * (s * q)
  {
  }

  lemma ShiftedProduct(c: int, P: int, q: int, r: int, k: int, f: int, y: int)
    requires r * q == f + y * P && c == y - k * q
    ensures c * P == -f + (r - k * P) * q
  {
    assert (y - k * q) * P == y * P - (k * q) * P;
    assert (r - k * P) * q == r * q - (k * P) * q;
    assert (k * q) * P == (k * P) * q;
  }

  lemma RoundedFraction(f: int, q: int, P: int, j: int)
    requires q > 2 && q % 2 == 1 && P >= 2 && 0 <= f < P
    requires j == RoundedDiv(-f, q)
    ensures j == 0 <==> 2 * f < q
    ensures -P < j <= 0
  {
    hide RoundedDiv;
    RoundedDivBound(-f, q);
    RoundedRange(f, q, P, j);
  }

  lemma RoundedRange(f: int, q: int, P: int, j: int)
    requires q > 2 && q % 2 == 1 && P >= 2 && 0 <= f < P
    requires -q <= 2 * (-f - j * q) <= q
    ensures j == 0 <==> 2 * f < q
    ensures -P < j <= 0
  {
    MulSign(j, q);
    LowMultiples(j, P, q);
    var k, pq := j * q, P * q;
  }

  lemma LowMultiples(j: int, P: int, q: int)
    requires q > 2 && P >= 2
    ensures j <= -P ==> j * q <= -(P * q)
    ensures 3 * P <= P * q && 2 * q <= P * q
  {
    if j <= -P {
      MulMonotone(j, -P, q);
      NegTimes(P, q);
    }
    MulMonotone(3, q, P);
    MulMonotone(2, P, q);
    assert q * P == P * q;
  }

  /** For widths with 2^(B+1) <= q (such as 12, 17 and 34) the exactness condition always holds. */
  lemma ModSwitchWide(B: nat, q: int, r: int)
    requires q > 2 && q % 2 == 1 && B > 0
    requires 0 <= r < Pow2(B)
    requires 2 * Pow2(B) <= q
    ensures ModSwitchEncode(B, q, ModSwitchDecode(B, q, r)) == r
  {
    ModSwitchExact(B, q, r);
    CongSelf(r * q, Pow2(B));
  }

  /** The Galois-key width 50 is one bit too wide for that: 5463 does not come back. */
  lemma ModSwitchNarrow()
    ensures ModSwitchEncode(50, G.Q, ModSwitchDecode(50, G.Q, 5463)) != 5463
  {
    hide ModSwitchEncode, ModSwitchDecode, Pow2;
    Pow2Values();
    ModSwitchExact(50, G.Q, 5463);
    DivModUnique(5463 * G.Q, 0x4_0000_0000_0000, 5463 * G.Q / 0x4_0000_0000_0000, 5463 * G.Q % 0x4_0000_0000_0000);
  }

  // ------------------------------------------------------------- Galois image of the key

  lemma DilatedIndex(i: int, g: int, h: int, n: nat)
    requires 0 <= i < n
    requires Inverse(g, h, n)
    ensures 0 <= (i * h) % (2 * n) < 2 * n
    ensures (i * h) % (2 * n) != n
  {
    hide Cong;
    InverseOdd(g, h, n);
    CongSelf(i * h, 2 * n);
    if (i * h) % (2 * n) == n {
      CongScale(g, n, i * h, 2 * n);
      CongScale(i, g * h, 1, 2 * n);
      SwapProducts(g, i, h);
      CongTrans(g * n, i * (g * h), i, 2 * n);
      OddMultipleOfHalf(g, n);
      CongTrans(n, g * n, i, 2 * n);
      CongClose(n, i, 2 * n);
    }
  }

  lemma SwapProducts(g: int, i: int, h: int)
    ensures g * (i * h) == i * (g * h)
  {
  }

  lemma OddMultipleOfHalf(g: int, n: nat)
    requires g % 2 == 1
    ensures Cong(n, g * n, 2 * n)
  {
    var r, k := Split(g, 2);
    assert (1 + k * 2) * n == n + k * (2 * n);
    NegTimes(k, 2 * n);
    CongIntro(n, g * n, -k, 2 * n);
  }

  /** The coefficient loop of gen_gk_b: position i reads position i/g, negated above N. */
  function GaloisOfKey(s: Elem, g: int, h: int): (r: Elem)
    requires |s| > 0
    requires Inverse(g, h, |s|)
    ensures |r| == |s|
  {
    seq(|s|, i requires 0 <= i < |s| =>
      var n := |s|;
      var newIdx := (i * h) % (2 * n);
      DilatedIndex(i, g, h, n);
      if newIdx > n then -s[newIdx - n] else s[newIdx])
  }

  /** It never reads position N, and it is the ring automorphism X -> X^g. */
  lemma GaloisOfKeyIsAutomorphism(s: Elem, g: int, h: int)
    requires |s| > 0
    requires Inverse(g, h, |s|)
    ensures GaloisOfKey(s, g, h) == Galois(s, h)
  {
    var n := |s|;
    forall i | 0 <= i < n
      ensures GaloisOfKey(s, g, h)[i] == Galois(s, h)[i]
    {
      var newIdx := (i * h) % (2 * n);
      DilatedIndex(i, g, h, n);
      CongSelf(i * h, 2 * n);
      assert i * h == h * i;
      AtCong(s, newIdx, h * i);
      if newIdx > n {
        AtAnti(s, newIdx - n);
        AtPlain(s, newIdx - n);
      } else {
        AtPlain(s, newIdx);
      }
    }
  }
}
