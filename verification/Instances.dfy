/** The hypotheses of the main results can be met, all together: a deployment of rank 8 with the program's moduli,
 *  on which the size condition of Guarantee holds, and a codec for addresses.
 */
module Instances {
  import opened Arith
  import opened Options
  import opened Addresses
  import opened Parameters
  import opened Negacyclic
  import opened GaloisGroup
  import opened Ntt
  import opened PhaseSplit
  import opened Offline
  import opened Retrieval
  import opened EndToEnd
  import opened Noise
  import opened ReceivedQuery
  import opened Protocol
  import opened Guarantee
  import opened PirDatabase
  import G = Gadget
  import D = DoublePir
  import ZT = ZoneText

  const RANK := 8
  const ROOT1 := Root(67104769, 8, 12414426, 10149721, 58716673)
  const ROOT2 := Root(33550337, 8, 17371284, 21713415, 29356545)
  const SETUP := Setup(ROOT1, ROOT2, 33560578, 16771072, 5, 13)

  // ---------------------------------------------------------------------- roots of unity

  lemma EighthPower(x: int, x2: int, x4: int, x8: int, p: int)
    requires Cong(x * x, x2, p) && Cong(x2 * x2, x4, p) && Cong(x4 * x4, x8, p)
    ensures Cong(Pow(x, 8), x8, p)
  {
    hide Cong;
    PowAdd(x, 1, 1);
    PowAdd(x, 2, 2);
    PowAdd(x, 4, 4);
    assert Pow(x, 1) == x * Pow(x, 0) == x;
    CongMul(x * x, x2, x * x, x2, p);
    CongTrans(Pow(x, 4), x2 * x2, x4, p);
    CongMul(Pow(x, 4), x4, Pow(x, 4), x4, p);
    CongTrans(Pow(x, 8), x4 * x4, x8, p);
  }

  lemma RootsValid()
    ensures ROOT1.Valid() && ROOT2.Valid()
  {
    hide Pow;
    var x, y := 10149721, 21713415;
    CongIntro(x * x, 10780725, 1535164, 67104769);
    CongIntro(10780725 * 10780725, 47922543, 1731978, 67104769);
    CongIntro(47922543 * 47922543, -1, 34223650, 67104769);
    EighthPower(x, 10780725, 47922543, -1, 67104769);
    CongIntro(12414426 * x, 1, 1877705, 67104769);
    CongIntro(58716673 * 8, 1, 7, 67104769);
    CongIntro(y * y, 6356706, 14052687, 33550337);
    CongIntro(6356706 * 6356706, 20791006, 1204390, 33550337);
    CongIntro(20791006 * 20791006, -1, 12884101, 33550337);
    EighthPower(y, 6356706, 20791006, -1, 33550337);
    CongIntro(17371284 * y, 1, 11242507, 33550337);
    CongIntro(29356545 * 8, 1, 7, 33550337);
  }

  lemma SetupValid()
    ensures SETUP.Valid()
  {
    RootsValid();
    G.RingModuli();
    hide Root.Valid;
    CongIntro(33560578 * 33550337, 1, 16779265, 67104769);
    CongIntro(16771072 * 67104769, 1, 33544191, 33550337);
    CongIntro(5 * 13, 1, 4, 16);
    assert 8 == Pow2(3);
  }

  // ------------------------------------------------------------------------ shards and server

  const T_INV := 237219377892461
  const Q_INV := 917

  /** A lane of two entries. */
  function SmallShard(entries: seq<Elem>): Shard {
    Shard(IndexGroup(RANK, 2), 1, 13, PLAIN_MODULUS, T_INV, 513, Q_INV, entries)
  }

  /** A lane of eight entries, which needs the conjugates. */
  function FullShard(entries: seq<Elem>): Shard {
    Shard(FullGroup(RANK), 2, 13, PLAIN_MODULUS, T_INV, 897, Q_INV, entries)
  }

  /** count entries of the ring. */
  predicate Sized(count: nat, entries: seq<Elem>) {
    |entries| == count && forall j :: 0 <= j < count ==> |entries[j]| == RANK
  }

  lemma Constants()
    ensures Cong(1025 * T_INV, 1, G.Q) && Cong(G.Q * Q_INV, 1, 1025)
    ensures Cong(513 * 2, 1, 1025) && Cong(897 * 8, 1, 1025) && Inverse(5, 13, RANK)
    ensures IndexGroup(RANK, 2).Layout(1) && FullGroup(RANK).Layout(2)
  {
    CongIntro(1025 * T_INV, 1, 108, G.Q);
    CongIntro(G.Q * Q_INV, 1, 2014168236364692, 1025);
    CongIntro(513 * 2, 1, 1, 1025);
    CongIntro(897 * 8, 1, 7, 1025);
    CongIntro(5 * 13, 1, 4, 16);
    assert Pow2(1) == 2 && Pow2(2) == 4;
  }

  lemma ShardsValid(small: seq<Elem>, full: seq<Elem>)
    requires Sized(2, small) && Sized(8, full)
    ensures SmallShard(small).Valid() && FullShard(full).Valid()
  {
    Constants();
    hide Cong, Inverse, IndexGroup.Layout;
  }

  /** The lanes of one database. */
  function Lanes(data: seq<seq<Elem>>): (shards: seq<Shard>)
    ensures |shards| == |data|
  {
    seq(|data|, k requires 0 <= k < |data| => SmallShard(data[k]))
  }

  /** One database for each slot. */
  function ServerOf(data: seq<seq<Elem>>, keyA: Pair, first: Masks, second: Masks): Server {
    Server(RANK, SmallShard(seq(2, j => Zero(RANK))), [[Lanes(data)], [Lanes(data)]],
           FullShard(seq(8, j => Zero(RANK))), keyA, first, second)
  }

  /** Eight lanes of two entries. */
  predicate Data(data: seq<seq<Elem>>) {
    |data| == SIMD_COUNT && forall k :: 0 <= k < SIMD_COUNT ==> Sized(2, data[k])
  }

  lemma ServerValid(data: seq<seq<Elem>>, keyA: Pair, first: Masks, second: Masks)
    requires Data(data) && keyA.Size(RANK) && first.Size(RANK) && second.Size(RANK)
    ensures ServerOf(data, keyA, first, second).Valid()
  {
    var s := ServerOf(data, keyA, first, second);
    ShardsValid(seq(2, j => Zero(RANK)), seq(8, j => Zero(RANK)));
    LanesFit(data);
    hide Shard.Valid, Lanes;
    forall i | 0 <= i < D.BATCH_COUNT
      ensures s.ValidSlot(i)
    {
    }
  }

  lemma LanesFit(data: seq<seq<Elem>>)
    requires Data(data)
    ensures D.ValidFleet(RANK, [Lanes(data)])
    ensures forall k :: 0 <= k < SIMD_COUNT ==>
              Lanes(data)[k] == SmallShard(seq(2, j => Zero(RANK))).(entries := Lanes(data)[k].entries)
  {
    hide Shard.Valid;
    forall k | 0 <= k < SIMD_COUNT
      ensures Lanes(data)[k].Valid()
    {
      ShardsValid(data[k], seq(8, j => Zero(RANK)));
    }
  }

  // ------------------------------------------------------------------------------- answers

  lemma SmallServerTolerates(data: seq<seq<Elem>>, keyA: Pair, first: Masks, second: Masks)
    ensures ServerTolerates(ServerOf(data, keyA, first, second), 19, 1, 1)
  {
  }

  /** On this server every request with errors of at most 19, key errors of at most 1 and a ternary secret is
   *  answered, whatever the data, the masks and the other slot. */
  lemma SmallExchange(data: seq<seq<Elem>>, keyA: Pair, first: Masks, second: Masks, inputs: seq<Option<seq<nat>>>,
                      slot: nat, r: Request, x: nat)
    requires Data(data) && keyA.Size(RANK) && first.Size(RANK) && second.Size(RANK)
    requires ServerOf(data, keyA, first, second).Valid()
    requires slot < D.BATCH_COUNT && r.Valid(ServerOf(data, keyA, first, second), slot) && |inputs| == D.BATCH_COUNT
    requires inputs[slot] == Some(PrepareQuery(ServerOf(data, keyA, first, second), slot, r)) && inputs[1 - slot] == None
    requires Small(r, 19, 1, 1) && x < RANK
    ensures Protocol.Answered(ServerOf(data, keyA, first, second), inputs, slot, r, x)
  {
    hide Server.Valid, PrepareQuery, Small, ServerTolerates, Protocol.Answered, Server.Unpack;
    SmallServerTolerates(data, keyA, first, second);
    SmallErrorsExchange(ServerOf(data, keyA, first, second), inputs, slot, r, x, 19, 1, 1);
  }

  /** A client with the secret X and no errors. */
  function PlainClient(keyA: Pair, m: Masks): Client {
    var zero := Zero(RANK);
    Client(Mono(RANK, 1), keyA, Pair(zero, zero), m.qryA, zero, m.conjA, zero)
  }

  /** Someone can ask: for every entry of every lane there is a request that fits. */
  lemma RequestExists(data: seq<seq<Elem>>, keyA: Pair, first: Masks, second: Masks, slot: nat, primaryIdx: nat)
    requires Data(data) && keyA.Size(RANK) && first.Size(RANK) && second.Size(RANK)
    requires ServerOf(data, keyA, first, second).Valid() && slot < D.BATCH_COUNT && primaryIdx < 2 * SIMD_COUNT
    ensures var r := Request(PlainClient(keyA, first), PlainClient(keyA, second), primaryIdx, 0);
            r.Valid(ServerOf(data, keyA, first, second), slot) && Small(r, 19, 1, 1)
  {
    hide Server.Valid, Mono;
    forall i | 0 <= i < RANK
      ensures -1 <= Mono(RANK, 1)[i] <= 1
    {
      MonoCoefficient(RANK, 1, i);
    }
  }

  // --------------------------------------------------------------------------- one database

  function SmallConfig(keyA: Pair, m: Masks): Config {
    Config(SETUP, IndexGroup(RANK, 2), 1, PLAIN_MODULUS, 513, keyA, m.qryA, m.conjA)
  }

  lemma SmallConfigValid(keyA: Pair, m: Masks)
    requires keyA.Size(RANK) && m.Size(RANK)
    ensures SmallConfig(keyA, m).Valid()
  {
    SetupValid();
    Constants();
    hide Setup.Valid, IndexGroup.Layout;
  }

  /** From an empty database to a decrypted answer: nothing that the members on the way require is missing. */
  method SmallRetrieve(entries: seq<Elem>, keyA: Pair, masks: Masks, c: Client, idx: nat) returns (m: Elem)
    requires keyA.Size(RANK) && masks.Size(RANK) && Sized(2, entries)
    requires forall j, i :: 0 <= j < 2 && 0 <= i < RANK ==> 0 <= entries[j][i] < PLAIN_MODULUS
    requires c.Size(RANK) && c.keyA == keyA && c.qryA == masks.qryA && c.conjA == masks.conjA && idx < 2
    requires SmallShard(entries).Valid()
    ensures |m| == RANK && forall i: nat :: i < RANK ==> Retrieved(SmallShard(entries), c, idx, m, i)
  {
    SmallConfigValid(keyA, masks);
    var db := new Db(SmallConfig(keyA, masks));
    hide Config.Valid, Shard.Valid, Retrieved;
    db.SetDb(entries);
    m := Retrieve(db, SmallShard(entries), c, idx);
  }

  // ------------------------------------------------------------------------------ addresses

  /** Octets as characters above all white space. */
  function PrintOctets(octets: Bytes): (s: string)
    ensures |s| == |octets|
  {
    seq(|octets|, i requires 0 <= i < |octets| => (0x4000 + octets[i] % 256) as char)
  }

  predicate Readable(s: string) {
    forall i :: 0 <= i < |s| ==> 0x4000 <= s[i] as int < 0x4100
  }

  function ReadOctets(s: string): (octets: Bytes)
    requires Readable(s)
    ensures |octets| == |s| && AreBytes(octets)
  {
    seq(|s|, i requires 0 <= i < |s| => s[i] as int - 0x4000)
  }

  const CODEC := ZT.Codec((ip: Ip4) => PrintOctets(ip.octets),
                          (s: string) => if |s| == 4 && Readable(s) then Some(Ip4(ReadOctets(s))) else None,
                          (ip: Ip6) => PrintOctets(ip.octets),
                          (s: string) => if |s| == 16 && Readable(s) then Some(Ip6(ReadOctets(s))) else None)

  lemma OctetsRoundTrip(octets: Bytes)
    requires AreBytes(octets)
    ensures Readable(PrintOctets(octets)) && ReadOctets(PrintOctets(octets)) == octets
    ensures octets != [] ==> ZT.Printable(PrintOctets(octets))
  {
  }

  lemma CodecValid()
    ensures CODEC.Valid()
  {
    hide PrintOctets, ReadOctets, Readable, ZT.Printable;
    forall ip: Ip4 | ip.Valid()
      ensures CODEC.parse4(CODEC.print4(ip)) == Some(ip) && ZT.Printable(CODEC.print4(ip))
    {
      OctetsRoundTrip(ip.octets);
    }
    forall ip: Ip6 | ip.Valid()
      ensures CODEC.parse6(CODEC.print6(ip)) == Some(ip) && ZT.Printable(CODEC.print6(ip))
    {
      OctetsRoundTrip(ip.octets);
    }
  }
}
