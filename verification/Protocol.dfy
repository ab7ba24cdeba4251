/** One exchange on bytes: the client writes a query, the server answers a batch of two, the client reads the reply. */
module Protocol {
  import opened Arith
  import opened Options
  import opened Negacyclic
  import opened GaloisGroup
  import opened Parameters
  import opened PhaseSplit
  import opened EndToEnd
  import opened QueryFormat
  import opened ReceivedQuery
  import opened Retrieval
  import G = Gadget
  import D = DoublePir

  // -------------------------------------------------------------------------- the server

  /** What the server knows: for each batch slot a fleet whose shards differ in their entries only, the parameters
   *  of the second level, and the masks. */
  datatype Server = Server(N: nat, shape: Shard, fleets: seq<seq<seq<Shard>>>, base: Shard,
                           keyA: Pair, first: Masks, second: Masks)
  {
    ghost predicate Valid() {
      && N > 0 && N % 8 == 0 && keyA.Size(N) && first.Size(N) && second.Size(N)
      && shape.Valid() && shape.g.N == N
      && base.Valid() && base.g.N == N && base.t == PLAIN_MODULUS && base.h == shape.h
      && |fleets| == D.BATCH_COUNT
      && forall s :: 0 <= s < D.BATCH_COUNT ==> ValidSlot(s)
    }

    ghost predicate ValidSlot(s: nat)
      requires s < |fleets|
    {
      && D.ValidFleet(N, fleets[s]) && SIMD_COUNT * |fleets[s]| <= base.g.l
      && forall d, k :: 0 <= d < |fleets[s]| && 0 <= k < SIMD_COUNT ==> Like(fleets[s][d][k])
    }

    predicate Like(d: Shard) {
      d == shape.(entries := d.entries)
    }

    /** How many databases each slot has. */
    function Lens(): (lens: seq<nat>)
      ensures |lens| == |fleets|
    {
      seq(|fleets|, s requires 0 <= s < |fleets| => |fleets[s]|)
    }

    /** The start of process_queries: None when the query ends too early. */
    function Unpack(bytes: seq<nat>): Option<Query> {
      ReadQuery(N, shape.g.RequiresConj(), base.g.RequiresConj(), bytes)
    }
  }

  /** The conjugated part of a query, where there is one. */
  function ConjOr(N: nat, a: Option<Elem>): Elem {
    if a.Some? then a.value else Zero(N)
  }

  /** A query as the server reads it. */
  predicate Unpacked(N: nat, q: Query) {
    q.Size(N) && |ConjOr(N, q.primaryConj)| == |ConjOr(N, q.secondaryConj)| == N
  }

  lemma UnpackSizes(s: Server, bytes: seq<nat>)
    ensures s.Unpack(bytes).Some? ==> Unpacked(s.N, s.Unpack(bytes).value)
  {
    hide ReadSection;
  }

  /** The results of a fleet for one query. */
  ghost function FirstLevel(s: Server, slot: nat, q: Query): (r: seq<seq<Elem>>)
    requires s.Valid() && slot < D.BATCH_COUNT && Unpacked(s.N, q)
    ensures |r| == |s.fleets[slot]| * SIMD_COUNT && D.ResultSizes(s.N, r)
  {
    seq(|s.fleets[slot]| * SIMD_COUNT, f requires 0 <= f < |s.fleets[slot]| * SIMD_COUNT =>
      FirstLevelParts(s, slot, q, f / SIMD_COUNT, f % SIMD_COUNT))
  }

  ghost function ShardAt(s: Server, slot: nat, d: nat, k: nat): (shard: Shard)
    requires s.Valid() && slot < D.BATCH_COUNT && d < |s.fleets[slot]| && k < SIMD_COUNT
    ensures |s.fleets[slot][d]| == SIMD_COUNT && shard == s.fleets[slot][d][k]
    ensures shard.Valid() && shard.g.N == s.N && s.Like(shard) && s.keyA.Size(s.N) && s.first.Size(s.N)
  {
    hide Shard.Valid;
    assert s.ValidSlot(slot);
    s.fleets[slot][d][k]
  }

  ghost function FirstLevelParts(s: Server, slot: nat, q: Query, d: nat, k: nat): (r: seq<Elem>)
    requires s.Valid() && slot < D.BATCH_COUNT && Unpacked(s.N, q) && d < |s.fleets[slot]| && k < SIMD_COUNT
    ensures |r| == D.CTXT_PARTS && forall p :: 0 <= p < D.CTXT_PARTS ==> |r[p]| == s.N
  {
    var shard := ShardAt(s, slot, d, k);
    var a := ServedA(shard, s.keyA, s.first);
    var b := ServedB(shard, s.keyA, s.first, Pair(q.gk0, q.gk1), q.primary, ConjOr(s.N, q.primaryConj));
    seq(D.CTXT_PARTS, part requires 0 <= part < D.CTXT_PARTS => D.PartElem(a, b, part))
  }

  /** The results of both slots; an empty slot has none. */
  ghost function Results(s: Server, queries: seq<Option<Query>>): (r: seq<Option<seq<seq<Elem>>>>)
    requires s.Valid() && |queries| == D.BATCH_COUNT
    requires forall i :: 0 <= i < D.BATCH_COUNT && queries[i].Some? ==> Unpacked(s.N, queries[i].value)
    ensures |r| == D.BATCH_COUNT
    ensures forall i :: 0 <= i < D.BATCH_COUNT && r[i].Some? ==> D.ResultSizes(s.N, r[i].value)
  {
    seq(D.BATCH_COUNT, i requires 0 <= i < D.BATCH_COUNT =>
      if queries[i].Some? then Some(FirstLevel(s, i, queries[i].value)) else None)
  }

  /** Lane 3 * slot + part of the second level, and the ciphertext that it contributes to the reply. */
  ghost function Lane(s: Server, queries: seq<Option<Query>>, slot: nat, part: nat): (lane: Shard)
    requires s.Valid() && |queries| == D.BATCH_COUNT && slot < D.BATCH_COUNT
    requires forall i :: 0 <= i < D.BATCH_COUNT && queries[i].Some? ==> Unpacked(s.N, queries[i].value)
    ensures lane.Valid() && lane == s.base.(entries := lane.entries)
  {
    D.SecondaryLaneValid(s.N, s.base, Results(s, queries), s.Lens(), D.CTXT_PARTS * slot + part);
    D.SecondaryLane(s.base, Results(s, queries), s.Lens(), D.CTXT_PARTS * slot + part)
  }

  /** The reply to one slot's query: both halves of the three lanes' ciphertexts. */
  ghost function SecondLevel(s: Server, queries: seq<Option<Query>>, slot: nat): (r: seq<Ciphertext>)
    requires s.Valid() && |queries| == D.BATCH_COUNT && slot < D.BATCH_COUNT && queries[slot].Some?
    requires forall i :: 0 <= i < D.BATCH_COUNT && queries[i].Some? ==> Unpacked(s.N, queries[i].value)
    ensures |r| == D.CTXT_PARTS && forall p :: 0 <= p < D.CTXT_PARTS ==> |r[p].0| == |r[p].1| == s.N
  {
    var q := queries[slot].value;
    seq(D.CTXT_PARTS, part requires 0 <= part < D.CTXT_PARTS =>
      (ServedA(Lane(s, queries, slot, part), s.keyA, s.second),
       ServedB(Lane(s, queries, slot, part), s.keyA, s.second, Pair(q.gk0, q.gk1), q.secondary, ConjOr(s.N, q.secondaryConj))))
  }

  /** The unpacked queries; None when a query ends too early. */
  function UnpackAll(s: Server, inputs: seq<Option<seq<nat>>>): (r: Option<seq<Option<Query>>>)
    ensures r.Some? ==> |r.value| == |inputs|
    ensures r.Some? ==> forall i :: 0 <= i < |inputs| ==>
              r.value[i] == if inputs[i].Some? then s.Unpack(inputs[i].value) else None
    ensures r.Some? ==> forall i :: 0 <= i < |inputs| && r.value[i].Some? ==> Unpacked(s.N, r.value[i].value)
  {
    if exists i :: 0 <= i < |inputs| && inputs[i].Some? && s.Unpack(inputs[i].value).None? then None
    else
      var r := seq(|inputs|, i requires 0 <= i < |inputs| => if inputs[i].Some? then s.Unpack(inputs[i].value) else None);
      assert forall i :: 0 <= i < |inputs| && r[i].Some? ==> Unpacked(s.N, r[i].value) by {
        forall i | 0 <= i < |inputs| && r[i].Some?
          ensures Unpacked(s.N, r[i].value)
        {
          UnpackSizes(s, inputs[i].value);
        }
      }
      Some(r)
  }

  /** process_queries: a reply for every slot with a query. */
  ghost function ProcessQueries(s: Server, inputs: seq<Option<seq<nat>>>): (r: Option<seq<Option<seq<nat>>>>)
    requires s.Valid() && |inputs| == D.BATCH_COUNT
    ensures r.Some? ==> |r.value| == D.BATCH_COUNT
  {
    var queries := UnpackAll(s, inputs);
    if queries.None? then None
    else
      Some(seq(D.BATCH_COUNT, i requires 0 <= i < D.BATCH_COUNT =>
        if queries.value[i].Some? then Some(ReplyBytes(SecondLevel(s, queries.value, i))) else None))
  }

  /** The batch as a whole fails exactly if some query is too short for its sections; otherwise precisely the slots
   *  with a query get a reply. */
  lemma SlotsAnswered(s: Server, inputs: seq<Option<seq<nat>>>)
    requires s.Valid() && |inputs| == D.BATCH_COUNT
    ensures ProcessQueries(s, inputs).None? <==>
              exists i :: 0 <= i < 2 && inputs[i].Some?
                && |inputs[i].value| < QueryBytesNeeded(s.N, s.shape.g.RequiresConj(), s.base.g.RequiresConj())
    ensures ProcessQueries(s, inputs).Some? ==>
              |ProcessQueries(s, inputs).value| == 2
              && forall i :: 0 <= i < 2 ==> (ProcessQueries(s, inputs).value[i].Some? <==> inputs[i].Some?)
  {
    forall i | 0 <= i < 2 && inputs[i].Some?
      ensures s.Unpack(inputs[i].value).None?
              <==> |inputs[i].value| < QueryBytesNeeded(s.N, s.shape.g.RequiresConj(), s.base.g.RequiresConj())
    {
      Unpackable(s, inputs[i].value);
    }
    hide Server.Valid, Server.Unpack, ReplyBytes, SecondLevel, Unpacked, QueryBytesNeeded;
    UnpackAllFails(s, inputs);
  }

  lemma Unpackable(s: Server, bytes: seq<nat>)
    requires s.Valid()
    ensures s.Unpack(bytes).None? <==>
              |bytes| < QueryBytesNeeded(s.N, s.shape.g.RequiresConj(), s.base.g.RequiresConj())
  {
    hide ReadQuery, Shard.Valid, Server.ValidSlot;
    QueryReadable(s.N, s.shape.g.RequiresConj(), s.base.g.RequiresConj(), bytes);
  }

  lemma UnpackAllFails(s: Server, inputs: seq<Option<seq<nat>>>)
    ensures UnpackAll(s, inputs).None? <==>
              exists i :: 0 <= i < |inputs| && inputs[i].Some? && s.Unpack(inputs[i].value).None?
  {
    hide Server.Unpack, Unpacked;
  }

  // -------------------------------------------------------------------------- the client

  /** A client's request: both levels' queries are encrypted under one key, and sent with one Galois key. */
  datatype Request = Request(first: Client, second: Client, primaryIdx: nat, secondaryIdx: nat) {
    ghost predicate Valid(s: Server, slot: nat)
      requires s.Valid() && slot < D.BATCH_COUNT
    {
      && first.Size(s.N) && second.Size(s.N)
      && first.s == second.s && first.keyA == second.keyA == s.keyA && first.keyE == second.keyE
      && Masks(first.qryA, first.conjA) == s.first && Masks(second.qryA, second.conjA) == s.second
      && secondaryIdx < |s.fleets[slot]| && primaryIdx / SIMD_COUNT < s.shape.g.l
    }

    function I(): nat {
      D.PrimaryIndex(primaryIdx)
    }

    function J(): nat {
      D.SecondaryIndex(primaryIdx, secondaryIdx)
    }
  }

  lemma ServerFacts(s: Server)
    requires s.Valid()
    ensures s.shape.g.LoopLen() > 0 && s.base.g.LoopLen() > 0 && s.N > 0 && s.N % 8 == 0
    ensures s.shape.g.N == s.base.g.N == s.N && s.shape.h == s.base.h && Inverse(5, s.shape.h, s.N)
    ensures s.shape.t > 2 && s.shape.t % 2 == 1 && s.base.t > 2 && s.base.t % 2 == 1
    ensures s.keyA.Size(s.N) && s.first.Size(s.N) && s.second.Size(s.N)
  {
    LayoutLoop(s.shape);
    LayoutLoop(s.base);
    hide IndexGroup.Layout, Entries, Inverse, Cong;
  }

  /** enc_double_pir: the parts of the query before they go over the wire. */
  ghost function Encrypted(s: Server, slot: nat, r: Request): (q: Query)
    requires s.Valid() && slot < D.BATCH_COUNT && r.Valid(s, slot)
    ensures q.Size(s.N)
    ensures q.primaryConj.Some? == s.shape.g.RequiresConj() && q.secondaryConj.Some? == s.base.g.RequiresConj()
  {
    ServerFacts(s);
    var key := SentKey(s.shape, r.first);
    Query(key.d0, key.d1, SentMain(s.shape, r.first, r.I()),
          if s.shape.g.RequiresConj() then Some(SentConj(s.shape, r.first, r.I())) else None,
          SentMain(s.base, r.second, r.J()),
          if s.base.g.RequiresConj() then Some(SentConj(s.base, r.second, r.J())) else None)
  }

  /** prepare_query. */
  ghost function PrepareQuery(s: Server, slot: nat, r: Request): seq<nat>
    requires s.Valid() && slot < D.BATCH_COUNT && r.Valid(s, slot)
  {
    QueryBytes(Encrypted(s, slot, r))
  }

  /** process_reply; None when the reply ends too early or its digits do not decode. */
  function ProcessReply(s: Server, sk: Elem, bytes: seq<nat>): (m: Option<Elem>)
    requires s.N > 0 && |sk| == s.N && s.base.t > 0 && s.shape.t > 0
  {
    var reply := ReadReply(s.N, D.CTXT_PARTS, bytes);
    if reply.None? then None
    else
      ReadReplySizes(s.N, D.CTXT_PARTS, bytes);
      var parts := seq(D.CTXT_PARTS, p requires 0 <= p < D.CTXT_PARTS =>
        Dec(sk, reply.value.0[p].0, reply.value.0[p].1, s.base.t, s.base.qInv));
      D.DecDoublePir(s.N, sk, parts, s.shape.t, s.shape.qInv)
  }

  /** A reply that is too short for three ciphertexts is not read. */
  lemma ShortReply(s: Server, sk: Elem, bytes: seq<nat>)
    requires s.N > 0 && s.N % 8 == 0 && |sk| == s.N && s.base.t > 0 && s.shape.t > 0
    requires |bytes| < 3 * (s.N / 8 * 29)
    ensures ProcessReply(s, sk, bytes) == None
  {
    hide ReadReply, D.DecDoublePir, Dec;
    ReplyReadable(s.N, 3, bytes);
  }

  lemma {:induction false} ReadReplySizes(N: nat, n: nat, bytes: seq<nat>)
    ensures var r := ReadReply(N, n, bytes);
            r.Some? ==> |r.value.0| == n && forall i :: 0 <= i < n ==> |r.value.0[i].0| == |r.value.0[i].1| == N
  {
    hide ReadSection;
    if n > 0 {
      var a := ReadSection(SECONDARY_A_LOG2_RESPONSE_Q, N, bytes);
      if a.Some? {
        var b := ReadSection(SECONDARY_B_LOG2_RESPONSE_Q, N, a.value.1);
        if b.Some? {
          ReadReplySizes(N, n - 1, b.value.1);
        }
      }
    }
  }

  // ------------------------------------------------------------------------ both together

  /** A shard answers the query that arrives as it would answer the client with the moved errors. */
  lemma AnswersReceived(like: Shard, d: Shard, c: Client, idx: nat, key: Pair, qry: Elem, conj: Elem)
    requires like.Valid() && d.Valid() && d == like.(entries := d.entries) && c.Size(d.g.N)
    requires like.g.LoopLen() > 0 && |conj| == d.g.N
    requires key.d0 == Rounded(GALOIS_KEY_LOG2_MODULUS, SentKey(like, c).d0)
    requires key.d1 == Rounded(GALOIS_KEY_LOG2_MODULUS, SentKey(like, c).d1)
    requires qry == Rounded(PRIMARY_QUERY_LOG2_MODULUS, SentMain(like, c, idx))
    requires d.g.RequiresConj() ==> conj == Rounded(PRIMARY_QUERY_LOG2_MODULUS, SentConj(like, c, idx))
    ensures ServedA(d, c.keyA, Masks(c.qryA, c.conjA)) == ReplyA(d, Arrived(like, c, idx))
    ensures ServedB(d, c.keyA, Masks(c.qryA, c.conjA), key, qry, conj) == ReplyTo(d, Arrived(like, c, idx), idx)
  {
    hide ServedA, ServedB, ReplyA, ReplyTo, Rounded, SentKey, SentMain, SentConj, Arrived, Inverse, Entries, Cong;
    SentAlike(like, d, c, idx);
    ReplyToReceived(d, c, idx);
    var conj' := Rounded(PRIMARY_QUERY_LOG2_MODULUS, SentConj(d, c, idx));
    ElemRefl(key.d0);
    ElemRefl(key.d1);
    ElemRefl(qry);
    ElemRefl(conj);
    ServedBCong(d, c.keyA, Masks(c.qryA, c.conjA), key, key, qry, qry, conj, conj');
  }

  /** What a client sends does not depend on the entries. */
  lemma SentAlike(like: Shard, d: Shard, c: Client, idx: nat)
    requires like.Valid() && d.Valid() && d == like.(entries := d.entries) && c.Size(d.g.N) && like.g.LoopLen() > 0
    ensures SentKey(like, c) == SentKey(d, c) && SentMain(like, c, idx) == SentMain(d, c, idx)
    ensures SentConj(like, c, idx) == SentConj(d, c, idx) && Arrived(like, c, idx) == Arrived(d, c, idx)
  {
    hide EncSymB, Mono, D.Moved, Client.KeyB, Entries, Inverse, Cong;
  }

  /** The client of the first level as the server sees it, and that of the second. */
  ghost function FirstArrived(s: Server, slot: nat, r: Request): (c: Client)
    requires s.Valid() && slot < D.BATCH_COUNT && r.Valid(s, slot)
    ensures c.Size(s.N) && c.s == r.first.s
  {
    ServerFacts(s);
    Arrived(s.shape, r.first, r.I())
  }

  ghost function SecondArrived(s: Server, slot: nat, r: Request): (c: Client)
    requires s.Valid() && slot < D.BATCH_COUNT && r.Valid(s, slot)
    ensures c.Size(s.N) && c.s == r.first.s
  {
    ServerFacts(s);
    Arrived(s.base, r.second, r.J())
  }

  /** Every slot holds a query of the right size or none, and the given slot holds the request. */
  ghost predicate Asks(s: Server, queries: seq<Option<Query>>, slot: nat, r: Request) {
    && s.Valid() && slot < D.BATCH_COUNT && r.Valid(s, slot) && |queries| == D.BATCH_COUNT
    && (forall i :: 0 <= i < D.BATCH_COUNT && queries[i].Some? ==> Unpacked(s.N, queries[i].value))
    && queries[slot] == Some(Encrypted(s, slot, r).Received())
  }

  lemma FirstLevelAnswer(s: Server, queries: seq<Option<Query>>, slot: nat, r: Request, d: nat, k: nat)
    requires Asks(s, queries, slot, r) && d < |s.fleets[slot]| && k < SIMD_COUNT
    requires D.ValidFleet(s.N, s.fleets[slot])
    ensures FirstLevelParts(s, slot, queries[slot].value, d, k)
            == D.PartResult(s.N, s.fleets[slot], FirstArrived(s, slot, r), r.I(), d, k)
  {
    ServerFacts(s);
    assert s.ValidSlot(slot);
    var shard, q := s.fleets[slot][d][k], queries[slot].value;
    assert s.Like(shard);
    hide ServedA, ServedB, ReplyA, ReplyTo, Rounded, SentKey, SentMain, SentConj, Arrived, Inverse, Entries, Cong, D.PartElem, Shard.Valid, Server.Valid, Server.ValidSlot;
    AnswersReceived(s.shape, shard, r.first, r.I(), Pair(q.gk0, q.gk1), q.primary, ConjOr(s.N, q.primaryConj));
  }

  lemma FirstLevelAnswers(s: Server, queries: seq<Option<Query>>, slot: nat, r: Request)
    requires Asks(s, queries, slot, r)
    ensures D.ValidFleet(s.N, s.fleets[slot])
    ensures Results(s, queries)[slot] == Some(D.PartResults(s.N, s.fleets[slot], FirstArrived(s, slot, r), r.I()))
  {
    assert s.ValidSlot(slot);
    hide FirstLevelParts, D.PartResult, FirstArrived, Encrypted, Server.Valid, D.ValidFleet;
    var x := FirstLevel(s, slot, queries[slot].value);
    var y := D.PartResults(s.N, s.fleets[slot], FirstArrived(s, slot, r), r.I());
    forall f | 0 <= f < |x|
      ensures x[f] == y[f]
    {
      FirstLevelAnswer(s, queries, slot, r, f / SIMD_COUNT, f % SIMD_COUNT);
    }
    assert x == y;
  }

  /** The batch of the two-level theorem that a request becomes. */
  ghost function AsBatch(s: Server, queries: seq<Option<Query>>, slot: nat, r: Request): (b: D.Batch)
    requires Asks(s, queries, slot, r)
  {
    D.Batch(s.N, s.fleets[slot], s.base, Results(s, queries), s.Lens(), slot,
            FirstArrived(s, slot, r), SecondArrived(s, slot, r), r.primaryIdx, r.secondaryIdx)
  }

  lemma BatchIsValid(s: Server, queries: seq<Option<Query>>, slot: nat, r: Request)
    requires Asks(s, queries, slot, r)
    ensures AsBatch(s, queries, slot, r).Valid()
    ensures s.Like(AsBatch(s, queries, slot, r).Target())
  {
    FirstLevelAnswers(s, queries, slot, r);
    assert s.ValidSlot(slot);
    var b := AsBatch(s, queries, slot, r);
    assert s.Like(s.fleets[slot][r.secondaryIdx][r.primaryIdx % SIMD_COUNT]);
    hide Results, D.PartResults, FirstArrived, SecondArrived, Encrypted, Shard.Valid, D.ResultSizes;
  }

  lemma SecondLevelAnswer(s: Server, queries: seq<Option<Query>>, slot: nat, r: Request, p: nat)
    requires Asks(s, queries, slot, r) && p < D.CTXT_PARTS
    ensures Lane(s, queries, slot, p) == AsBatch(s, queries, slot, r).Lane(p)
    ensures var lane, c := Lane(s, queries, slot, p), SecondArrived(s, slot, r);
            SecondLevel(s, queries, slot)[p] == (ReplyA(lane, c), ReplyTo(lane, c, r.J()))
  {
    ServerFacts(s);
    var lane, q := Lane(s, queries, slot, p), queries[slot].value;
    hide ServedA, ServedB, ReplyA, ReplyTo, Rounded, SentMain, SentConj, Arrived, Inverse, Entries, Cong, D.SecondaryLane, Lane, Shard.Valid, Server.Valid, Results;
    SameKey(s, slot, r);
    AnswersReceived(s.base, lane, r.second, r.J(), Pair(q.gk0, q.gk1), q.secondary, ConjOr(s.N, q.secondaryConj));
    LaneIs(s, queries, slot, r, p);
  }

  /** Both levels are asked under the same Galois key. */
  lemma SameKey(s: Server, slot: nat, r: Request)
    requires s.Valid() && slot < D.BATCH_COUNT && r.Valid(s, slot)
    requires Inverse(5, s.shape.h, s.N) && s.shape.g.N == s.base.g.N == s.N
    ensures s.shape.h == s.base.h && SentKey(s.shape, r.first) == SentKey(s.base, r.second)
  {
    hide GenGkB, Shard.Valid, Inverse;
  }

  lemma LaneIs(s: Server, queries: seq<Option<Query>>, slot: nat, r: Request, p: nat)
    requires Asks(s, queries, slot, r) && p < D.CTXT_PARTS
    ensures Lane(s, queries, slot, p) == AsBatch(s, queries, slot, r).Lane(p)
  {
    hide Results, FirstArrived, SecondArrived, Encrypted, Server.Valid, D.SecondaryLane;
  }

  /** The batch of the request, with what the client reads of it after the wire. */
  lemma PartsRead(s: Server, queries: seq<Option<Query>>, slot: nat, r: Request, p: nat)
    requires Asks(s, queries, slot, r) && p < D.CTXT_PARTS
    requires AsBatch(s, queries, slot, r).Valid() && AsBatch(s, queries, slot, r).Lane(p).Valid()
    requires s.base.t > 0
    ensures var c := ReceivedReply(SecondLevel(s, queries, slot))[p];
            |c.0| == |c.1| == |r.first.s| == s.N > 0
            && Dec(r.first.s, c.0, c.1, s.base.t, s.base.qInv) == AsBatch(s, queries, slot, r).Part(p)
  {
    SecondLevelAnswer(s, queries, slot, r, p);
    LaneConstants(s, queries, slot, r, p);
    hide ReplyA, ReplyTo, Rounded, Dec, Shard.Valid, Server.Valid, Results, FirstArrived, SecondArrived, Encrypted, Lane, SecondLevel, D.Batch.Valid, D.Batch.Lane;
  }

  lemma LaneConstants(s: Server, queries: seq<Option<Query>>, slot: nat, r: Request, p: nat)
    requires Asks(s, queries, slot, r) && p < D.CTXT_PARTS
    ensures var lane := AsBatch(s, queries, slot, r).Lane(p); lane.t == s.base.t && lane.qInv == s.base.qInv
    ensures |r.first.s| == s.N > 0
  {
    hide Results, FirstArrived, SecondArrived, Encrypted, Server.Valid;
    ServerFacts(s);
  }

  /** Everything the server sends back is what the client of the batch decrypts. */
  lemma ReplyIsRead(s: Server, queries: seq<Option<Query>>, slot: nat, r: Request)
    requires Asks(s, queries, slot, r) && AsBatch(s, queries, slot, r).Valid()
    requires |r.first.s| == s.N > 0 && s.base.t > 0 && s.shape.t > 0
    ensures ProcessReply(s, r.first.s, ReplyBytes(SecondLevel(s, queries, slot))) == D.ClientResult(AsBatch(s, queries, slot, r))
  {
    hide *;
    AsksBasics(s, queries, slot, r);
    var b := AsBatch(s, queries, slot, r);
    var reply := SecondLevel(s, queries, slot);
    ReplyRoundTrip(s.N, reply, []);
    assert ReplyBytes(reply) + [] == ReplyBytes(reply);
    D.LanesValid(b, 0);
    D.LanesValid(b, 1);
    D.LanesValid(b, 2);
    D.PartCount();
    forall p: nat | p < D.CTXT_PARTS
      ensures ReadAs(s, r, ReceivedReply(reply), D.Parts(b), p)
    {
      D.LanesValid(b, p);
      D.PartsAre(b, p);
      PartsRead(s, queries, slot, r, p);
      ReadAsIs(s, r, ReceivedReply(reply), D.Parts(b), p);
    }
    DecodedReply(s, r, ReplyBytes(reply), ReceivedReply(reply), D.Parts(b));
    BatchFields(s, queries, slot, r);
    ResultIs(b, s);
  }

  /** Ciphertext p of the reply decrypts to part p. */
  predicate ReadAs(s: Server, r: Request, reply: seq<Ciphertext>, parts: seq<Elem>, p: nat) {
    && p < |reply| && p < |parts| && |reply[p].0| == |reply[p].1| == |parts[p]| == |r.first.s| == s.N > 0 && s.base.t > 0
    && Dec(r.first.s, reply[p].0, reply[p].1, s.base.t, s.base.qInv) == parts[p]
  }

  lemma ReadAsIs(s: Server, r: Request, reply: seq<Ciphertext>, parts: seq<Elem>, p: nat)
    requires p < |reply| && p < |parts| && |reply[p].0| == |reply[p].1| == |parts[p]| == |r.first.s| == s.N > 0 && s.base.t > 0
    requires Dec(r.first.s, reply[p].0, reply[p].1, s.base.t, s.base.qInv) == parts[p]
    ensures ReadAs(s, r, reply, parts, p)
  {
  }

  lemma ResultIs(b: D.Batch, s: Server)
    requires b.Valid() && b.N == s.N > 0 && |b.first.s| == s.N && s.shape.t > 0
    requires b.Target().t == s.shape.t && b.Target().qInv == s.shape.qInv
    ensures D.ClientResult(b) == D.DecDoublePir(s.N, b.first.s, D.Parts(b), s.shape.t, s.shape.qInv)
  {
    hide D.Batch.Valid, D.Batch.Target, D.Parts, D.DecDoublePir;
  }

  lemma AsksBasics(s: Server, queries: seq<Option<Query>>, slot: nat, r: Request)
    requires Asks(s, queries, slot, r)
    ensures s.Valid() && slot < D.BATCH_COUNT && |queries| == D.BATCH_COUNT && queries[slot].Some?
    ensures forall i :: 0 <= i < D.BATCH_COUNT && queries[i].Some? ==> Unpacked(s.N, queries[i].value)
    ensures s.N % 8 == 0 && AsBatch(s, queries, slot, r).N == s.N
  {
    hide Results, Encrypted, FirstArrived, SecondArrived, Shard.Valid, Unpacked;
    ServerFacts(s);
  }

  lemma DecodedReply(s: Server, r: Request, bytes: seq<nat>, reply: seq<Ciphertext>, parts: seq<Elem>)
    requires s.N > 0 && |r.first.s| == s.N && s.base.t > 0 && s.shape.t > 0 && |reply| == |parts| == D.CTXT_PARTS
    requires forall p :: 0 <= p < D.CTXT_PARTS ==> |parts[p]| == s.N
    requires ReadReply(s.N, D.CTXT_PARTS, bytes) == Some((reply, []))
    requires forall p: nat :: p < D.CTXT_PARTS ==> ReadAs(s, r, reply, parts, p)
    ensures ProcessReply(s, r.first.s, bytes) == D.DecDoublePir(s.N, r.first.s, parts, s.shape.t, s.shape.qInv)
  {
    hide ReadReply, Dec, D.DecDoublePir;
    ReadReplySizes(s.N, D.CTXT_PARTS, bytes);
    forall p: nat | p < D.CTXT_PARTS
      ensures Dec(r.first.s, reply[p].0, reply[p].1, s.base.t, s.base.qInv) == parts[p]
    {
      assert ReadAs(s, r, reply, parts, p);
    }
    assert parts == seq(D.CTXT_PARTS, p requires 0 <= p < D.CTXT_PARTS =>
      Dec(r.first.s, reply[p].0, reply[p].1, s.base.t, s.base.qInv));
  }

  /** The query arrives as it was sent, up to rounding. */
  lemma QueryArrives(s: Server, inputs: seq<Option<seq<nat>>>, slot: nat, r: Request)
    requires s.Valid() && slot < D.BATCH_COUNT && r.Valid(s, slot) && |inputs| == D.BATCH_COUNT
    requires inputs[slot] == Some(PrepareQuery(s, slot, r))
    requires forall i :: 0 <= i < D.BATCH_COUNT && i != slot && inputs[i].Some? ==> s.Unpack(inputs[i].value).Some?
    ensures UnpackAll(s, inputs).Some? && Asks(s, UnpackAll(s, inputs).value, slot, r)
  {
    hide *;
    ServerFacts(s);
    var q := Encrypted(s, slot, r);
    QueryRoundTrip(s.N, q);
    UnpackIs(s, slot, r, q);
    UnpackAllSome(s, inputs);
    AsksIs(s, UnpackAll(s, inputs).value, slot, r);
  }

  lemma UnpackIs(s: Server, slot: nat, r: Request, q: Query)
    requires s.Valid() && slot < D.BATCH_COUNT && r.Valid(s, slot) && q == Encrypted(s, slot, r)
    requires ReadQuery(s.N, q.primaryConj.Some?, q.secondaryConj.Some?, QueryBytes(q)) == Some(q.Received())
    ensures s.Unpack(PrepareQuery(s, slot, r)) == Some(q.Received())
  {
    hide Encrypted, Server.Valid, ReadQuery, QueryBytes, Rounded;
  }

  lemma UnpackAllSome(s: Server, inputs: seq<Option<seq<nat>>>)
    requires forall i :: 0 <= i < |inputs| && inputs[i].Some? ==> s.Unpack(inputs[i].value).Some?
    ensures UnpackAll(s, inputs).Some?
  {
    hide Server.Unpack, Unpacked;
  }

  lemma AsksIs(s: Server, queries: seq<Option<Query>>, slot: nat, r: Request)
    requires s.Valid() && slot < D.BATCH_COUNT && r.Valid(s, slot) && |queries| == D.BATCH_COUNT
    requires forall i :: 0 <= i < |queries| && queries[i].Some? ==> Unpacked(s.N, queries[i].value)
    requires queries[slot] == Some(Encrypted(s, slot, r).Received())
    ensures Asks(s, queries, slot, r)
  {
    hide Unpacked, Server.Valid, Encrypted;
  }

  /** A whole exchange on bytes. Whatever query the other slot holds, the client's answer is that of the two-level
   *  retrieval for the client whose errors have moved by the rounding of the query. */
  lemma Exchange(s: Server, inputs: seq<Option<seq<nat>>>, slot: nat, r: Request)
    requires s.Valid() && slot < D.BATCH_COUNT && r.Valid(s, slot) && |inputs| == D.BATCH_COUNT
    requires inputs[slot] == Some(PrepareQuery(s, slot, r))
    requires forall i :: 0 <= i < D.BATCH_COUNT && i != slot && inputs[i].Some? ==> s.Unpack(inputs[i].value).Some?
    ensures UnpackAll(s, inputs).Some? && Asks(s, UnpackAll(s, inputs).value, slot, r)
    ensures ProcessQueries(s, inputs).Some? && ProcessQueries(s, inputs).value[slot].Some?
    ensures forall i :: 0 <= i < D.BATCH_COUNT ==> (ProcessQueries(s, inputs).value[i].Some? <==> inputs[i].Some?)
    ensures AsBatch(s, UnpackAll(s, inputs).value, slot, r).Valid()
    ensures |r.first.s| == s.N > 0 && s.base.t > 0 && s.shape.t > 0
    ensures ProcessReply(s, r.first.s, ProcessQueries(s, inputs).value[slot].value)
            == D.ClientResult(AsBatch(s, UnpackAll(s, inputs).value, slot, r))
  {
    hide *;
    ServerFacts(s);
    QueryArrives(s, inputs, slot, r);
    var queries := UnpackAll(s, inputs).value;
    AsksBasics(s, queries, slot, r);
    BatchIsValid(s, queries, slot, r);
    BatchFields(s, queries, slot, r);
    RequestSizes(s, slot, r);
    ReplyIsRead(s, queries, slot, r);
    RepliesTo(s, inputs, slot);
    SlotsAnswered(s, inputs);
    BatchCount();
  }

  lemma BatchCount()
    ensures D.BATCH_COUNT == 2
  {
  }

  lemma RequestSizes(s: Server, slot: nat, r: Request)
    requires s.Valid() && slot < D.BATCH_COUNT && r.Valid(s, slot)
    ensures |r.first.s| == s.N
  {
    hide Server.Valid;
  }

  lemma RepliesTo(s: Server, inputs: seq<Option<seq<nat>>>, slot: nat)
    requires s.Valid() && slot < D.BATCH_COUNT && |inputs| == D.BATCH_COUNT
    requires UnpackAll(s, inputs).Some? && UnpackAll(s, inputs).value[slot].Some?
    ensures ProcessQueries(s, inputs).Some?
    ensures ProcessQueries(s, inputs).value[slot] == Some(ReplyBytes(SecondLevel(s, UnpackAll(s, inputs).value, slot)))
  {
    hide Server.Valid, UnpackAll, ReplyBytes, SecondLevel, Unpacked;
  }

  /** Coefficient x of the reply that the client reads. */
  ghost predicate Answered(s: Server, inputs: seq<Option<seq<nat>>>, slot: nat, r: Request, x: nat)
    requires s.Valid() && slot < D.BATCH_COUNT && r.Valid(s, slot) && |inputs| == D.BATCH_COUNT
  {
    && ProcessQueries(s, inputs).Some? && ProcessQueries(s, inputs).value[slot].Some?
    && |r.first.s| == s.N > x && s.base.t > 0 && s.shape.t > 0
    && var m := ProcessReply(s, r.first.s, ProcessQueries(s, inputs).value[slot].value);
    && m.Some? && |m.value| == s.N && |s.fleets| > slot && r.secondaryIdx < |s.fleets[slot]|
    && var shards := s.fleets[slot][r.secondaryIdx];
    && |shards| == SIMD_COUNT
    && var entries := shards[r.primaryIdx % SIMD_COUNT].entries;
    && r.I() < |entries| && |entries[r.I()]| == s.N
    && m.value[x] == entries[r.I()][x] % s.shape.t
  }

  /** Retrieval over the wire: where the second level is undisturbed, coefficient x that the client reads is that of
   *  the entry it asked for if and only if the first level's reply is undisturbed there. */
  lemma ExchangeRetrieves(s: Server, inputs: seq<Option<seq<nat>>>, slot: nat, r: Request, x: nat)
    requires s.Valid() && slot < D.BATCH_COUNT && r.Valid(s, slot) && |inputs| == D.BATCH_COUNT && x < s.N
    requires inputs[slot] == Some(PrepareQuery(s, slot, r))
    requires forall i :: 0 <= i < D.BATCH_COUNT && i != slot && inputs[i].Some? ==> s.Unpack(inputs[i].value).Some?
    ensures UnpackAll(s, inputs).Some? && Asks(s, UnpackAll(s, inputs).value, slot, r)
    ensures var b := AsBatch(s, UnpackAll(s, inputs).value, slot, r);
            b.Valid() && (b.SecondLevelUndisturbed() ==>
              (Answered(s, inputs, slot, r, x) <==> D.FirstLevelUndisturbed(b, x)))
  {
    hide *;
    Exchange(s, inputs, slot, r);
    var queries := UnpackAll(s, inputs).value;
    BatchFields(s, queries, slot, r);
    var b := AsBatch(s, queries, slot, r);
    if b.SecondLevelUndisturbed() {
      D.DoubleRetrieval(b, x);
      CorrectIs(s, inputs, slot, r, x);
    }
  }

  lemma CorrectIs(s: Server, inputs: seq<Option<seq<nat>>>, slot: nat, r: Request, x: nat)
    requires s.Valid() && slot < D.BATCH_COUNT && r.Valid(s, slot) && |inputs| == D.BATCH_COUNT && x < s.N
    requires UnpackAll(s, inputs).Some? && Asks(s, UnpackAll(s, inputs).value, slot, r)
    requires ProcessQueries(s, inputs).Some? && ProcessQueries(s, inputs).value[slot].Some?
    requires AsBatch(s, UnpackAll(s, inputs).value, slot, r).Valid()
    requires |r.first.s| == s.N > 0 && s.base.t > 0 && s.shape.t > 0
    requires ProcessReply(s, r.first.s, ProcessQueries(s, inputs).value[slot].value)
             == D.ClientResult(AsBatch(s, UnpackAll(s, inputs).value, slot, r))
    ensures Answered(s, inputs, slot, r, x) <==> D.Correct(AsBatch(s, UnpackAll(s, inputs).value, slot, r), x)
  {
    var queries := UnpackAll(s, inputs).value;
    BatchFields(s, queries, slot, r);
    hide *;
    CorrectMeans(s, AsBatch(s, queries, slot, r), D.ClientResult(AsBatch(s, queries, slot, r)), x);
    AnsweredMeans(s, inputs, slot, r, x);
  }

  /** What the batch takes over from the server and the request. */
  lemma BatchFields(s: Server, queries: seq<Option<Query>>, slot: nat, r: Request)
    requires Asks(s, queries, slot, r)
    ensures |s.fleets| > slot && r.secondaryIdx < |s.fleets[slot]| && |s.fleets[slot][r.secondaryIdx]| == SIMD_COUNT
    ensures var b := AsBatch(s, queries, slot, r);
            && b.N == s.N && b.primaryIdx == r.primaryIdx && b.first.s == r.first.s
            && b.Target() == s.fleets[slot][r.secondaryIdx][r.primaryIdx % SIMD_COUNT]
            && b.Target().t == s.shape.t && b.Target().qInv == s.shape.qInv
  {
    assert s.ValidSlot(slot);
    assert s.Like(s.fleets[slot][r.secondaryIdx][r.primaryIdx % SIMD_COUNT]);
    hide Results, Encrypted, FirstArrived, SecondArrived, Shard.Valid, Server.Valid, Arrived;
  }

  /** Coefficient x of an answer m is that of entry i of the shard. */
  predicate Fits(N: nat, m: Option<Elem>, shard: Shard, i: nat, x: nat) {
    && m.Some? && |m.value| == N > x && i < |shard.entries| && |shard.entries[i]| == N && shard.t > 0
    && m.value[x] == shard.entries[i][x] % shard.t
  }

  lemma CorrectMeans(s: Server, b: D.Batch, m: Option<Elem>, x: nat)
    requires b.Valid() && b.N == s.N && m == D.ClientResult(b)
    ensures D.Correct(b, x) <==> Fits(s.N, m, b.Target(), D.PrimaryIndex(b.primaryIdx), x)
  {
    hide D.ClientResult, D.Batch.Valid, D.Batch.Target;
  }

  lemma AnsweredMeans(s: Server, inputs: seq<Option<seq<nat>>>, slot: nat, r: Request, x: nat)
    requires s.Valid() && slot < D.BATCH_COUNT && r.Valid(s, slot) && |inputs| == D.BATCH_COUNT && x < s.N
    requires ProcessQueries(s, inputs).Some? && ProcessQueries(s, inputs).value[slot].Some?
    requires |r.first.s| == s.N > 0 && s.base.t > 0 && s.shape.t > 0
    requires |s.fleets| > slot && r.secondaryIdx < |s.fleets[slot]| && |s.fleets[slot][r.secondaryIdx]| == SIMD_COUNT
    requires s.fleets[slot][r.secondaryIdx][r.primaryIdx % SIMD_COUNT].t == s.shape.t
    ensures Answered(s, inputs, slot, r, x)
            <==> Fits(s.N, ProcessReply(s, r.first.s, ProcessQueries(s, inputs).value[slot].value),
                      s.fleets[slot][r.secondaryIdx][r.primaryIdx % SIMD_COUNT], r.I(), x)
  {
    hide ProcessQueries, ProcessReply, Server.Valid, Request.Valid;
  }
}
