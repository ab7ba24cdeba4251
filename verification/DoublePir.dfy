/** Two-level retrieval: the replies of all shards become the entries of a second, per-query database. */
module DoublePir {
  import opened Arith
  import opened Options
  import opened Negacyclic
  import opened GaloisGroup
  import opened Parameters
  import opened PhaseSplit
  import opened EndToEnd
  import opened QueryFormat
  import G = Gadget
  import Bfv

  const CTXT_PARTS := 3
  const BATCH_COUNT := 2
  const PRIMARY_A_LOG2_RESPONSE_Q := 17
  const PRIMARY_B_LOG2_RESPONSE_Q := 12

  // ------------------------------------------------------------------ digits of a ciphertext

  /** A pair of mod-switched coefficients as one number, and its base-1025 digits, lowest first. */
  function Joined(a: nat, b: nat): nat {
    a * 4096 + b
  }

  function DigitsOf(x: nat): (d: seq<nat>)
    ensures |d| == CTXT_PARTS
  {
    [x % 1025, x / 1025 % 1025, x / 1025 / 1025 % 1025]
  }

  /** encode_ciphertext_plaintext; the last line is its assertion that nothing is left over. */
  method EncodeCiphertextPlaintext(a: nat, b: nat) returns (result: seq<nat>)
    requires a < Pow2(PRIMARY_A_LOG2_RESPONSE_Q) && b < Pow2(PRIMARY_B_LOG2_RESPONSE_Q)
    ensures result == DigitsOf(Joined(a, b))
  {
    hide Pow2;
    Pow2Values();
    var current: nat := a * Pow2(PRIMARY_B_LOG2_RESPONSE_Q) + b;
    ghost var x := current;
    result := [];
    for k := 0 to CTXT_PARTS
      invariant result == DigitsOf(x)[..k]
      invariant current == Shifted(x, k)
    {
      result := result + [current % PLAIN_MODULUS];
      current := current / PLAIN_MODULUS;
    }
    NothingLeft(x);
    assert current == 0;
  }

  /** What is left of x after k digits. */
  function Shifted(x: nat, k: nat): nat {
    if k == 0 then x else if k == 1 then x / 1025 else if k == 2 then x / 1025 / 1025 else x / 1025 / 1025 / 1025
  }

  lemma NothingLeft(x: nat)
    requires x < 0x2000_0000
    ensures Shifted(x, 3) == 0
  {
  }

  /** The number that digits stand for, as decode_ciphertext_plaintext builds it from the last digit down. */
  function Undigits(d: seq<nat>): nat {
    if d == [] then 0 else Undigits(d[1..]) * 1025 + d[0]
  }

  /** decode_ciphertext_plaintext; None where its assertion fails. */
  method DecodeCiphertextPlaintext(data: seq<nat>) returns (r: Option<(nat, nat)>)
    ensures r == DecodedOf(data)
  {
    var integer := 0;
    var k := |data|;
    while k > 0
      invariant 0 <= k <= |data|
      invariant integer == Undigits(data[k..])
    {
      k := k - 1;
      assert data[k..][1..] == data[k + 1..];
      integer := integer * PLAIN_MODULUS;
      integer := integer + data[k];
    }
    assert data[0..] == data;
    if integer / 4096 < 0x2_0000 {
      r := Some((integer / 4096, integer % 4096));
    } else {
      r := None;
    }
  }

  function DecodedOf(data: seq<nat>): Option<(nat, nat)> {
    var x := Undigits(data);
    if x / 4096 < 0x2_0000 then Some((x / 4096, x % 4096)) else None
  }

  lemma UndigitsThree(d: seq<nat>)
    requires |d| == 3
    ensures Undigits(d) == (d[2] * 1025 + d[1]) * 1025 + d[0]
  {
    var u, v := d[1..], d[1..][1..];
    assert v[1..] == [] && v[0] == d[2] && u[0] == d[1];
    assert Undigits(v) == d[2];
    assert Undigits(u) == d[2] * 1025 + d[1];
  }

  lemma ThreeDigits(x: nat)
    requires x < 1025 * 1025 * 1025
    ensures ((x / 1025 / 1025 % 1025) * 1025 + x / 1025 % 1025) * 1025 + x % 1025 == x
  {
    var r0, q0 := Split(x, 1025);
    var r1, q1 := Split(q0, 1025);
    DivModUnique(q1, 1025, 0, q1);
  }

  /** Every pair in range survives the digits. */
  lemma DigitsRoundTrip(a: nat, b: nat)
    requires a < Pow2(PRIMARY_A_LOG2_RESPONSE_Q) && b < Pow2(PRIMARY_B_LOG2_RESPONSE_Q)
    ensures DecodedOf(DigitsOf(Joined(a, b))) == Some((a, b))
    ensures forall k :: 0 <= k < CTXT_PARTS ==> DigitsOf(Joined(a, b))[k] < PLAIN_MODULUS
  {
    Pow2Values();
    hide Pow2;
    var x := Joined(a, b);
    ThreeDigits(x);
    UndigitsThree(DigitsOf(x));
    DivModUnique(x, 4096, a, b);
  }

  /** The digits, lowest first, are those of the number a * 2^12 + b to the base 1025. */
  lemma DigitsValue(a: nat, b: nat)
    requires a < 0x2_0000 && b < 0x1000
    ensures var d := DigitsOf(Joined(a, b)); d[0] + 1025 * d[1] + 1025 * 1025 * d[2] == a * 0x1000 + b
  {
    var x := Joined(a, b);
    ThreeDigits(x);
    hide *;
    DigitsAre(x);
    Expanded(DigitsOf(x)[0], DigitsOf(x)[1], DigitsOf(x)[2], x);
    JoinedIs(a, b);
  }

  lemma DigitsAre(x: nat)
    ensures |DigitsOf(x)| == 3
    ensures DigitsOf(x)[0] == x % 1025 && DigitsOf(x)[1] == x / 1025 % 1025 && DigitsOf(x)[2] == x / 1025 / 1025 % 1025
  {
  }

  lemma JoinedIs(a: nat, b: nat)
    ensures Joined(a, b) == a * 0x1000 + b
  {
  }

  lemma Expanded(d0: int, d1: int, d2: int, x: int)
    requires (d2 * 1025 + d1) * 1025 + d0 == x
    ensures d0 + 1025 * d1 + 1025 * 1025 * d2 == x
  {
  }

  /** Any digits that decode at all are those of the pair they decode to. */
  lemma DigitsUnique(d: seq<nat>)
    requires |d| == CTXT_PARTS && forall k :: 0 <= k < CTXT_PARTS ==> d[k] < PLAIN_MODULUS
    ensures DecodedOf(d).Some? ==> var (a, b) := DecodedOf(d).value; DigitsOf(Joined(a, b)) == d
  {
    UndigitsThree(d);
    var x := Undigits(d);
    DivModUnique(x, 1025, d[2] * 1025 + d[1], d[0]);
    DivModUnique(d[2] * 1025 + d[1], 1025, d[2], d[1]);
    DivModUnique(d[2], 1025, 0, d[2]);
  }

  /** Digits decode exactly if the number they stand for is below 2^29. */
  lemma DecodesIff(d: seq<nat>)
    requires |d| == CTXT_PARTS
    ensures DecodedOf(d).Some? <==> d[0] + 1025 * d[1] + 1025 * 1025 * d[2] < 0x2000_0000
  {
    UndigitsThree(d);
    hide Undigits;
  }

  // ------------------------------------------------------------------------- two levels

  /** A fleet of databases, each of them eight shards side by side, one per lane. */
  ghost predicate ValidFleet(N: nat, fleet: seq<seq<Shard>>) {
    && (forall d :: 0 <= d < |fleet| ==> |fleet[d]| == SIMD_COUNT)
    && forall d, k :: 0 <= d < |fleet| && 0 <= k < SIMD_COUNT ==> fleet[d][k].Valid() && fleet[d][k].g.N == N
  }

  /** One of the three plaintexts that carry a mod-switched ciphertext. */
  function PartElem(a: Elem, b: Elem, part: nat): (r: Elem)
    requires |a| == |b| && part < CTXT_PARTS
    ensures |r| == |a|
  {
    seq(|a|, i requires 0 <= i < |a| =>
      DigitsOf(Joined(SwitchedAt(PRIMARY_A_LOG2_RESPONSE_Q, a[i]), SwitchedAt(PRIMARY_B_LOG2_RESPONSE_Q, b[i])))[part])
  }

  /** The results of all databases for one query, flattened: database * 8 + lane, three parts each. */
  ghost function PartResults(N: nat, fleet: seq<seq<Shard>>, c: Client, i: nat): (r: seq<seq<Elem>>)
    requires N > 0 && ValidFleet(N, fleet) && c.Size(N)
    ensures |r| == |fleet| * SIMD_COUNT
  {
    seq(|fleet| * SIMD_COUNT, f requires 0 <= f < |fleet| * SIMD_COUNT => PartResult(N, fleet, c, i, f / SIMD_COUNT, f % SIMD_COUNT))
  }

  ghost function PartResult(N: nat, fleet: seq<seq<Shard>>, c: Client, i: nat, d: nat, k: nat): (r: seq<Elem>)
    requires N > 0 && ValidFleet(N, fleet) && c.Size(N) && d < |fleet| && k < SIMD_COUNT
    ensures |r| == CTXT_PARTS
  {
    var shard := fleet[d][k];
    var a, b := ReplyA(shard, c), ReplyTo(shard, c, i);
    seq(CTXT_PARTS, part requires 0 <= part < CTXT_PARTS => PartElem(a, b, part))
  }

  /** What the second-level database stores at position i of lane j: the lanes 3s, 3s+1 and 3s+2 belong to batch
   *  slot s, everything else is zero. */
  function SecondaryEntry(N: nat, results: seq<Option<seq<seq<Elem>>>>, lens: seq<nat>, i: nat, j: nat): Elem
    requires |results| == |lens| == BATCH_COUNT
  {
    if j < CTXT_PARTS * BATCH_COUNT && i < SIMD_COUNT * lens[j / CTXT_PARTS] then
      match results[j / CTXT_PARTS] {
        case Some(part) => if i < |part| && j % CTXT_PARTS < |part[i]| then part[i][j % CTXT_PARTS] else Zero(N)
        case None => Zero(N)
      }
    else Zero(N)
  }

  /** Lane j of the second-level database, with the parameters of the given shard. */
  function SecondaryLane(base: Shard, results: seq<Option<seq<seq<Elem>>>>, lens: seq<nat>, j: nat): Shard
    requires |results| == |lens| == BATCH_COUNT
  {
    base.(entries := seq(base.g.l, i requires 0 <= i => SecondaryEntry(base.g.N, results, lens, i, j)))
  }

  /** The position the client asks the second level for. */
  function SecondaryIndex(primaryIdx: nat, secondaryIdx: nat): nat {
    secondaryIdx * SIMD_COUNT + primaryIdx % SIMD_COUNT
  }

  function PrimaryIndex(primaryIdx: nat): nat {
    primaryIdx / SIMD_COUNT
  }

  lemma Flattened(d: nat, k: nat)
    requires k < SIMD_COUNT
    ensures (d * SIMD_COUNT + k) / SIMD_COUNT == d && (d * SIMD_COUNT + k) % SIMD_COUNT == k
  {
  }

  /** Lane 3s + part holds, at the client's position, part of the answer of the database and the lane that the
   *  client means, whatever the other batch slot contains. */
  lemma LaneSelection(N: nat, fleet: seq<seq<Shard>>, c: Client, base: Shard, results: seq<Option<seq<seq<Elem>>>>,
                      lens: seq<nat>, slot: nat, part: nat, primaryIdx: nat, secondaryIdx: nat)
    requires N > 0 && ValidFleet(N, fleet) && c.Size(N) && base.g.N == N
    requires |results| == |lens| == BATCH_COUNT && slot < BATCH_COUNT && part < CTXT_PARTS
    requires lens[slot] == |fleet| && SIMD_COUNT * |fleet| <= base.g.l && secondaryIdx < |fleet|
    requires results[slot] == Some(PartResults(N, fleet, c, PrimaryIndex(primaryIdx)))
    ensures SecondaryIndex(primaryIdx, secondaryIdx) < base.g.l
    ensures SecondaryLane(base, results, lens, CTXT_PARTS * slot + part).entries[SecondaryIndex(primaryIdx, secondaryIdx)]
            == PartResult(N, fleet, c, PrimaryIndex(primaryIdx), secondaryIdx, primaryIdx % SIMD_COUNT)[part]
  {
    hide ReplyA, ReplyTo, PartElem, ValidFleet, PartResult;
    var k := primaryIdx % SIMD_COUNT;
    var i := SecondaryIndex(primaryIdx, secondaryIdx);
    Flattened(secondaryIdx, k);
    var r := PartResults(N, fleet, c, PrimaryIndex(primaryIdx));
    assert i < |r| && r[i] == PartResult(N, fleet, c, PrimaryIndex(primaryIdx), secondaryIdx, k);
    var j := CTXT_PARTS * slot + part;
    assert j / CTXT_PARTS == slot && j % CTXT_PARTS == part;
  }

  /** Everything else in the second-level database is zero: the two lanes that no slot uses, the positions behind a
   *  slot's databases, and the lanes of a slot without a query. */
  lemma RestIsZero(base: Shard, results: seq<Option<seq<seq<Elem>>>>, lens: seq<nat>, j: nat, i: nat)
    requires |results| == |lens| == BATCH_COUNT && j < SIMD_COUNT && i < base.g.l
    requires j >= 6 || i >= 8 * lens[j / 3] || results[j / 3].None?
    ensures SecondaryLane(base, results, lens, j).entries[i] == seq(base.g.N, x => 0)
  {
  }

  /** Every stored element of the second level has N coefficients below its plaintext modulus. */
  lemma SecondaryLaneValid(N: nat, base: Shard, results: seq<Option<seq<seq<Elem>>>>, lens: seq<nat>, j: nat)
    requires N > 0 && base.Valid() && base.g.N == N && |results| == |lens| == BATCH_COUNT
    requires forall s :: 0 <= s < BATCH_COUNT && results[s].Some? ==> ResultSizes(N, results[s].value)
    ensures SecondaryLane(base, results, lens, j).Valid()
  {
    hide IndexGroup.Layout, Cong, Inverse;
    var lane := SecondaryLane(base, results, lens, j);
    forall i | 0 <= i < |lane.entries|
      ensures |lane.entries[i]| == N
    {
      EntrySize(N, results, lens, i, j);
    }
  }

  ghost predicate ResultSizes(N: nat, r: seq<seq<Elem>>) {
    forall i, p :: 0 <= i < |r| && 0 <= p < |r[i]| ==> |r[i][p]| == N
  }

  lemma EntrySize(N: nat, results: seq<Option<seq<seq<Elem>>>>, lens: seq<nat>, i: nat, j: nat)
    requires |results| == |lens| == BATCH_COUNT
    requires forall s :: 0 <= s < BATCH_COUNT && results[s].Some? ==> ResultSizes(N, results[s].value)
    ensures |SecondaryEntry(N, results, lens, i, j)| == N
  {
  }

  // ------------------------------------------------------------- decryption after the wire

  /** By how much mod-switching moves an element, coefficientwise and centred. */
  function Moved(bits: nat, a: Elem): (d: Elem)
    ensures |d| == |a|
  {
    seq(|a|, i requires 0 <= i < |a| => Centered(Rounded(bits, a)[i] - a[i], G.Q))
  }

  /** What mod-switching both halves of a ciphertext adds to its phase. */
  function SwitchError(s: Elem, a: Elem, b: Elem): (e: Elem)
    requires |s| == |a| == |b| > 0
    ensures |e| == |s|
  {
    Phase(s, Moved(PRIMARY_A_LOG2_RESPONSE_Q, a), Moved(PRIMARY_B_LOG2_RESPONSE_Q, b))
  }

  lemma MovedCong(bits: nat, a: Elem)
    ensures ElemCong(Rounded(bits, a), Add(a, Moved(bits, a)), G.Q)
  {
    hide Cong, Rounded;
    forall i | 0 <= i < |a|
      ensures Cong(Rounded(bits, a)[i], a[i] + Moved(bits, a)[i], G.Q)
    {
      MovedBack(Rounded(bits, a)[i], a[i]);
    }
  }

  lemma MovedBack(x: int, a: int)
    ensures Cong(x, a + Centered(x - a, G.Q), G.Q)
  {
    hide Cong;
    var c := Centered(x - a, G.Q);
    CongRefl(a, G.Q);
    CongAdd(a, a, c, x - a, G.Q);
    CongSym(a + c, x, G.Q);
  }

  lemma SwitchedPhase(s: Elem, a: Elem, b: Elem, i: nat)
    requires |s| == |a| == |b| > 0 && i < |s|
    ensures Cong(Phase(s, Rounded(PRIMARY_A_LOG2_RESPONSE_Q, a), Rounded(PRIMARY_B_LOG2_RESPONSE_Q, b))[i],
                 Phase(s, a, b)[i] + SwitchError(s, a, b)[i], G.Q)
  {
    hide Cong, Mul, Rounded, Moved;
    var a', b' := Rounded(PRIMARY_A_LOG2_RESPONSE_Q, a), Rounded(PRIMARY_B_LOG2_RESPONSE_Q, b);
    var da, db := Moved(PRIMARY_A_LOG2_RESPONSE_Q, a), Moved(PRIMARY_B_LOG2_RESPONSE_Q, b);
    MovedCong(PRIMARY_A_LOG2_RESPONSE_Q, a);
    MovedCong(PRIMARY_B_LOG2_RESPONSE_Q, b);
    ElemRefl(s);
    MulElemCong(a', Add(a, da), s, s, G.Q);
    AddElemCong(Mul(a', s), Mul(Add(a, da), s), b', Add(b, db), G.Q);
    PhaseAdd(s, a, b, da, db);
  }

  /** dec on a ciphertext that went over the wire with 17 and 12 bits. */
  function Received(d: Shard, c: Client, a: Elem, b: Elem): (m: Elem)
    requires d.t > 0 && |c.s| == |a| == |b| > 0
    ensures |m| == |c.s|
  {
    Dec(c.s, Rounded(PRIMARY_A_LOG2_RESPONSE_Q, a), Rounded(PRIMARY_B_LOG2_RESPONSE_Q, b), d.t, d.qInv)
  }

  /** The disturbance of a mod-switched reply. */
  ghost function SwitchedDisturbance(d: Shard, c: Client, idx: nat, i: nat): int
    requires d.Valid() && c.Size(d.g.N) && i < d.g.N
  {
    Disturbance(d, c, idx, i) + d.t * SwitchError(c.s, ReplyA(d, c), ReplyTo(d, c, idx))[i]
  }

  /** No harmful carry in coefficient i of the reply for idx. */
  ghost predicate Undisturbed(d: Shard, c: Client, idx: nat, i: nat)
    requires d.Valid() && c.Size(d.g.N) && i < d.g.N
  {
    Bfv.Carry(SwitchedDisturbance(d, c, idx, i), G.Q) % d.t == 0
  }

  /** A mod-switched reply decrypts to the entry exactly where it is undisturbed. */
  lemma ReceivedEntry(d: Shard, c: Client, idx: nat, i: nat)
    requires d.Valid() && c.Size(d.g.N) && idx < d.g.l && i < d.g.N
    ensures |d.entries| == d.g.l && |d.entries[idx]| == d.g.N && d.t > 2
    ensures Received(d, c, ReplyA(d, c), ReplyTo(d, c, idx))[i] == d.entries[idx][i] % d.t <==> Undisturbed(d, c, idx, i)
    ensures 2 * Abs(SwitchedDisturbance(d, c, idx, i)) < G.Q ==> Undisturbed(d, c, idx, i)
  {
    hide Cong, Phase, Mul, Rounded, Moved, ReplyA, ReplyTo, Disturbance, Shard.Valid, SwitchError, Bfv.DecRescale, Bfv.Carry;
    ShardBasics(d);
    var a, b := ReplyA(d, c), ReplyTo(d, c, idx);
    var e := SwitchError(c.s, a, b)[i];
    SwitchedPhase(c.s, a, b, i);
    var v := Phase(c.s, Rounded(PRIMARY_A_LOG2_RESPONSE_Q, a), Rounded(PRIMARY_B_LOG2_RESPONSE_Q, b))[i];
    ShardWithError(d, c, idx, i, v, e);
    if 2 * Abs(SwitchedDisturbance(d, c, idx, i)) < G.Q {
      Bfv.CarryZero(SwitchedDisturbance(d, c, idx, i), G.Q);
    }
  }

  // ------------------------------------------------------------------ the client's last step

  /** The digits that the three decrypted parts hold at coefficient x. */
  function DigitsAt(parts: seq<Elem>, x: nat): (d: seq<nat>)
    requires |parts| == CTXT_PARTS && forall p :: 0 <= p < CTXT_PARTS ==> x < |parts[p]|
    ensures |d| == CTXT_PARTS
  {
    seq(CTXT_PARTS, p requires 0 <= p < CTXT_PARTS => parts[p][x] % PLAIN_MODULUS)
  }

  /** dec_double_pir after the three decryptions; None where the digits do not decode. */
  function DecDoublePir(N: nat, s: Elem, parts: seq<Elem>, t: int, qInv: int): Option<Elem>
    requires N > 0 && |s| == N && t > 0 && |parts| == CTXT_PARTS
    requires forall p :: 0 <= p < CTXT_PARTS ==> |parts[p]| == N
  {
    if exists x: nat :: x < N && DecodedOf(DigitsAt(parts, x)).None? then None
    else
      var a := seq(N, x requires 0 <= x < N => LiftedA(parts, x));
      var b := seq(N, x requires 0 <= x < N => LiftedB(parts, x));
      Some(Dec(s, a, b, t, qInv))
  }

  function LiftedA(parts: seq<Elem>, x: nat): int
    requires |parts| == CTXT_PARTS && forall p :: 0 <= p < CTXT_PARTS ==> x < |parts[p]|
  {
    var d := DecodedOf(DigitsAt(parts, x));
    if d.None? then 0 else Bfv.ModSwitchDecode(PRIMARY_A_LOG2_RESPONSE_Q, G.Q, d.value.0)
  }

  function LiftedB(parts: seq<Elem>, x: nat): int
    requires |parts| == CTXT_PARTS && forall p :: 0 <= p < CTXT_PARTS ==> x < |parts[p]|
  {
    var d := DecodedOf(DigitsAt(parts, x));
    if d.None? then 0 else Bfv.ModSwitchDecode(PRIMARY_B_LOG2_RESPONSE_Q, G.Q, d.value.1)
  }

  /** If the three parts hold the digits of a mod-switched ciphertext, the client decrypts that ciphertext. */
  lemma PartsDecode(N: nat, s: Elem, parts: seq<Elem>, a: Elem, b: Elem, t: int, qInv: int)
    requires N > 0 && |s| == |a| == |b| == N && t > 0 && |parts| == CTXT_PARTS
    requires forall p :: 0 <= p < CTXT_PARTS ==> |parts[p]| == N && parts[p] == PartElem(a, b, p)
    ensures DecDoublePir(N, s, parts, t, qInv)
            == Some(Dec(s, Rounded(PRIMARY_A_LOG2_RESPONSE_Q, a), Rounded(PRIMARY_B_LOG2_RESPONSE_Q, b), t, qInv))
  {
    hide DecodedOf, DigitsOf, SwitchedAt, Bfv.ModSwitchDecode, Bfv.DecRescale, Phase, Pow2;
    forall x: nat | x < N
      ensures DecodedOf(DigitsAt(parts, x))
              == Some((SwitchedAt(PRIMARY_A_LOG2_RESPONSE_Q, a[x]), SwitchedAt(PRIMARY_B_LOG2_RESPONSE_Q, b[x])))
    {
      var u, v := SwitchedAt(PRIMARY_A_LOG2_RESPONSE_Q, a[x]), SwitchedAt(PRIMARY_B_LOG2_RESPONSE_Q, b[x]);
      DigitsRoundTrip(u, v);
      forall p | 0 <= p < CTXT_PARTS
        ensures DigitsAt(parts, x)[p] == DigitsOf(Joined(u, v))[p]
      {
        assert parts[p][x] == DigitsOf(Joined(u, v))[p];
        DivModUnique(parts[p][x], PLAIN_MODULUS, 0, parts[p][x]);
      }
      assert DigitsAt(parts, x) == DigitsOf(Joined(u, v));
    }
    assert seq(N, x requires 0 <= x < N => LiftedA(parts, x)) == Rounded(PRIMARY_A_LOG2_RESPONSE_Q, a);
    assert seq(N, x requires 0 <= x < N => LiftedB(parts, x)) == Rounded(PRIMARY_B_LOG2_RESPONSE_Q, b);
  }

  // ------------------------------------------------------------------------ both levels

  /** One batched evaluation: the fleet, the parameters of the second level, the results of both batch slots,
   *  which slot is looked at, the client's two sets of masks, and what the client asked for. */
  datatype Batch = Batch(N: nat, fleet: seq<seq<Shard>>, base: Shard, results: seq<Option<seq<seq<Elem>>>>,
                         lens: seq<nat>, slot: nat, first: Client, second: Client, primaryIdx: nat, secondaryIdx: nat)
  {
    ghost predicate Valid() {
      && N > 0 && ValidFleet(N, fleet) && first.Size(N) && second.Size(N)
      && base.Valid() && base.g.N == N && base.t == PLAIN_MODULUS
      && |results| == |lens| == BATCH_COUNT && slot < BATCH_COUNT
      && lens[slot] == |fleet| && SIMD_COUNT * |fleet| <= base.g.l && secondaryIdx < |fleet|
      && (forall s :: 0 <= s < BATCH_COUNT && results[s].Some? ==> ResultSizes(N, results[s].value))
      && results[slot] == Some(PartResults(N, fleet, first, PrimaryIndex(primaryIdx)))
      && PrimaryIndex(primaryIdx) < Target().g.l
    }

    /** The shard that holds the entry: the client's database, in the lane of its primary index. */
    function Target(): Shard {
      if secondaryIdx < |fleet| && |fleet[secondaryIdx]| == SIMD_COUNT then fleet[secondaryIdx][primaryIdx % SIMD_COUNT]
      else base
    }

    function Lane(part: nat): Shard
      requires |results| == |lens| == BATCH_COUNT
    {
      SecondaryLane(base, results, lens, CTXT_PARTS * slot + part)
    }

    function Position(): nat {
      SecondaryIndex(primaryIdx, secondaryIdx)
    }

    /** Part p of the reply, decrypted by the client. */
    ghost function Part(p: nat): (m: Elem)
      requires Valid() && Lane(p).Valid()
      ensures |m| == N
    {
      Received(Lane(p), second, ReplyA(Lane(p), second), ReplyTo(Lane(p), second, Position()))
    }

    ghost predicate SecondLevelUndisturbed()
      requires Valid()
    {
      forall p: nat, x: nat :: p < CTXT_PARTS && x < N && Lane(p).Valid() ==> Undisturbed(Lane(p), second, Position(), x)
    }
  }

  lemma LanesValid(q: Batch, p: nat)
    requires q.Valid()
    ensures q.Lane(p).Valid() && q.Lane(p).g == q.base.g && q.Lane(p).t == PLAIN_MODULUS
    ensures q.Position() < q.base.g.l
  {
    hide ValidFleet, IndexGroup.Layout, Cong, Inverse, ResultSizes, SecondaryEntry;
    SecondaryLaneValid(q.N, q.base, q.results, q.lens, CTXT_PARTS * q.slot + p);
    Flattened(q.secondaryIdx, q.primaryIdx % SIMD_COUNT);
  }

  lemma TargetValid(q: Batch)
    requires q.Valid()
    ensures q.Target().Valid() && q.Target().g.N == q.N
  {
    hide IndexGroup.Layout, Cong, Inverse, ResultSizes, SecondaryEntry;
  }

  /** Part p decrypts to the digits of the target's mod-switched reply. */
  lemma PartIsDigits(q: Batch, p: nat)
    requires q.Valid() && q.Lane(p).Valid() && q.SecondLevelUndisturbed() && p < CTXT_PARTS
    requires q.Target().Valid() && q.Target().g.N == q.N
    ensures q.Part(p) == PartElem(ReplyA(q.Target(), q.first), ReplyTo(q.Target(), q.first, PrimaryIndex(q.primaryIdx)), p)
  {
    hide ReplyA, ReplyTo, ValidFleet, IndexGroup.Layout, Cong, Inverse, ResultSizes, SecondaryEntry, PartResults, Received, Undisturbed, Shard.Valid, Batch.Lane, PartElem;
    LanesValid(q, p);
    LaneEntry(q, p);
    var a, b := ReplyA(q.Target(), q.first), ReplyTo(q.Target(), q.first, PrimaryIndex(q.primaryIdx));
    forall x: nat | x < q.N
      ensures q.Part(p)[x] == PartElem(a, b, p)[x]
    {
      assert Undisturbed(q.Lane(p), q.second, q.Position(), x);
      ReceivedEntry(q.Lane(p), q.second, q.Position(), x);
      PartBelow(a, b, p, x);
    }
  }

  lemma PartBelow(a: Elem, b: Elem, p: nat, x: nat)
    requires |a| == |b| && p < CTXT_PARTS && x < |a|
    ensures PartElem(a, b, p)[x] % PLAIN_MODULUS == PartElem(a, b, p)[x]
  {
    hide DigitsOf, SwitchedAt, Pow2;
    var u, v := SwitchedAt(PRIMARY_A_LOG2_RESPONSE_Q, a[x]), SwitchedAt(PRIMARY_B_LOG2_RESPONSE_Q, b[x]);
    DigitsRoundTrip(u, v);
    DivModUnique(DigitsOf(Joined(u, v))[p], PLAIN_MODULUS, 0, DigitsOf(Joined(u, v))[p]);
  }

  lemma LaneEntry(q: Batch, p: nat)
    requires q.Valid() && p < CTXT_PARTS
    requires q.Target().Valid() && q.Target().g.N == q.N
    ensures |q.Lane(p).entries| == q.base.g.l && q.Position() < q.base.g.l
    ensures q.Lane(p).entries[q.Position()]
            == PartElem(ReplyA(q.Target(), q.first), ReplyTo(q.Target(), q.first, PrimaryIndex(q.primaryIdx)), p)
  {
    hide ReplyA, ReplyTo, IndexGroup.Layout, Cong, Inverse, ResultSizes, SecondaryEntry, PartResults, Shard.Valid, PartElem;
    LaneSelection(q.N, q.fleet, q.first, q.base, q.results, q.lens, q.slot, p, q.primaryIdx, q.secondaryIdx);
  }

  lemma BatchSizes(q: Batch)
    requires q.Valid()
    ensures q.N > 0 && |q.first.s| == |q.second.s| == q.N && q.first.Size(q.N) && q.second.Size(q.N)
    ensures PrimaryIndex(q.primaryIdx) < q.Target().g.l
    ensures |q.results| == |q.lens| == BATCH_COUNT
  {
    hide ValidFleet, ResultSizes, PartResults, Shard.Valid;
  }

  lemma PartCount()
    ensures CTXT_PARTS == 3
  {
  }

  /** The three parts of the reply, decrypted. */
  ghost function Parts(q: Batch): (parts: seq<Elem>)
    requires q.Valid()
    ensures |parts| == CTXT_PARTS && forall p :: 0 <= p < CTXT_PARTS ==> |parts[p]| == q.N
  {
    hide *;
    LanesAllValid(q);
    seq(CTXT_PARTS, p requires 0 <= p < CTXT_PARTS => q.Part(p))
  }

  lemma LanesAllValid(q: Batch)
    requires q.Valid()
    ensures |q.results| == |q.lens| == BATCH_COUNT && forall p: nat :: q.Lane(p).Valid()
  {
    hide *;
    BatchSizes(q);
    forall p: nat
      ensures q.Lane(p).Valid()
    {
      LanesValid(q, p);
    }
  }

  lemma PartsAre(q: Batch, p: nat)
    requires q.Valid() && q.Lane(p).Valid() && p < CTXT_PARTS
    ensures Parts(q)[p] == q.Part(p)
  {
    hide Batch.Valid, Batch.Lane, Batch.Part;
  }

  /** What the client ends up with. */
  ghost function ClientResult(q: Batch): (r: Option<Elem>)
    requires q.Valid()
  {
    hide *;
    BatchSizes(q);
    TargetValid(q);
    ShardBasics(q.Target());
    DecDoublePir(q.N, q.first.s, Parts(q), q.Target().t, q.Target().qInv)
  }

  /** The mod-switched reply of the target shard, decrypted. */
  ghost function TargetReply(q: Batch): (m: Elem)
    requires q.Valid()
    ensures |m| == q.N
  {
    BatchSizes(q);
    TargetValid(q);
    hide Batch.Valid, Batch.Target, Shard.Valid;
    ShardBasics(q.Target());
    Received(q.Target(), q.first, ReplyA(q.Target(), q.first), ReplyTo(q.Target(), q.first, PrimaryIndex(q.primaryIdx)))
  }

  lemma AllPartsDecode(q: Batch)
    requires q.Valid() && q.SecondLevelUndisturbed()
    ensures ClientResult(q) == Some(TargetReply(q))
  {
    hide ReplyA, ReplyTo, Undisturbed, Shard.Valid, Batch.Valid, Batch.SecondLevelUndisturbed, Batch.Lane, Batch.Part, PartElem, Rounded, Dec, DecDoublePir, Batch.Target;
    BatchSizes(q);
    TargetValid(q);
    ShardBasics(q.Target());
    var a, b := ReplyA(q.Target(), q.first), ReplyTo(q.Target(), q.first, PrimaryIndex(q.primaryIdx));
    forall p | 0 <= p < CTXT_PARTS
      ensures |Parts(q)[p]| == q.N && Parts(q)[p] == PartElem(a, b, p)
    {
      LanesValid(q, p);
      PartIsDigits(q, p);
      PartsAre(q, p);
    }
    PartsDecode(q.N, q.first.s, Parts(q), a, b, q.Target().t, q.Target().qInv);
  }

  /** Coefficient x of the result is that of the requested entry. */
  ghost predicate Correct(q: Batch, x: nat)
    requires q.Valid()
  {
    var e, i := q.Target().entries, PrimaryIndex(q.primaryIdx);
    && ClientResult(q).Some? && |ClientResult(q).value| == q.N > x
    && i < |e| && |e[i]| == q.N && q.Target().t > 0
    && ClientResult(q).value[x] == e[i][x] % q.Target().t
  }

  /** The first-level reply of the target shard is undisturbed at coefficient x. */
  ghost predicate FirstLevelUndisturbed(q: Batch, x: nat)
    requires q.Valid() && x < q.N
  {
    BatchSizes(q);
    TargetValid(q);
    hide Batch.Valid, Batch.Target, Shard.Valid;
    Undisturbed(q.Target(), q.first, PrimaryIndex(q.primaryIdx), x)
  }

  /** The two-level retrieval: wherever the second level is undisturbed, the client decrypts the mod-switched
   *  reply of the shard it meant, and a coefficient is that of its entry if and only if that first-level reply is
   *  undisturbed there. The other batch slot plays no part. */
  lemma DoubleRetrieval(q: Batch, x: nat)
    requires q.Valid() && x < q.N && q.SecondLevelUndisturbed()
    ensures ClientResult(q) == Some(TargetReply(q))
    ensures Correct(q, x) <==> FirstLevelUndisturbed(q, x)
  {
    hide ReplyA, ReplyTo, Undisturbed, Shard.Valid, Batch.Valid, Batch.SecondLevelUndisturbed, Batch.Lane, Batch.Part, Rounded, Dec, DecDoublePir, Batch.Target, ClientResult;
    BatchSizes(q);
    TargetValid(q);
    ShardBasics(q.Target());
    AllPartsDecode(q);
    ReceivedEntry(q.Target(), q.first, PrimaryIndex(q.primaryIdx), x);
  }

  // ------------------------------------------------------------------- entries and lanes

  /** The entries of a database that go to lane k: every eighth one, starting with the k-th. */
  function LaneEntries(all: seq<Elem>, k: nat): (lane: seq<Elem>)
    requires k < SIMD_COUNT
    ensures |lane| == |all| / SIMD_COUNT
  {
    seq(|all| / SIMD_COUNT, i requires 0 <= i < |all| / SIMD_COUNT => all[SIMD_COUNT * i + k])
  }

  /** If every lane holds its share of the database, the position the client derives from primary_idx is that
   *  of entry primary_idx: so DoubleRetrieval is about entry primary_idx of database secondary_idx. */
  lemma TargetEntry(q: Batch, databases: seq<seq<Elem>>)
    requires q.secondaryIdx < |q.fleet| == |databases| && |q.fleet[q.secondaryIdx]| == SIMD_COUNT
    requires |databases[q.secondaryIdx]| % SIMD_COUNT == 0
    requires forall k :: 0 <= k < SIMD_COUNT ==>
               q.fleet[q.secondaryIdx][k].entries == LaneEntries(databases[q.secondaryIdx], k)
    requires q.primaryIdx < |databases[q.secondaryIdx]|
    ensures PrimaryIndex(q.primaryIdx) < |q.Target().entries|
    ensures q.Target().entries[PrimaryIndex(q.primaryIdx)] == databases[q.secondaryIdx][q.primaryIdx]
  {
    var k := q.primaryIdx % SIMD_COUNT;
    assert SIMD_COUNT * (q.primaryIdx / SIMD_COUNT) + k == q.primaryIdx;
  }
}
