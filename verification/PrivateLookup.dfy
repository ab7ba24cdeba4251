/** The whole system: the buckets of an index are the entries of the server's shards, the client asks for the bucket
 *  of a name over the wire, and reads the records of that name out of the reply.
 */
module PrivateLookup {
  import opened Arith
  import opened Options
  import opened Addresses
  import opened Parameters
  import opened Negacyclic
  import opened Zones
  import opened Bucket
  import opened BucketIndex
  import opened EndToEnd
  import S = Shape
  import D = DoublePir
  import P = Protocol
  import ReceivedQuery

  /** The shards hold the packed buckets, in the shape that the number of entries determines. */
  ghost predicate Published(s: P.Server, slot: nat, n: nat, coeffs: seq<seq<seq<nat>>>)
    requires 1 <= n <= N * N
  {
    && s.Valid() && slot < D.BATCH_COUNT && s.N == N && s.shape.t == PLAIN_MODULUS
    && (s.shape.g, s.base.g) == S.DatabaseShape(n)
    && |s.fleets[slot]| == |coeffs| == S.NumDatabases(n)
    && forall sh: nat :: sh < |coeffs| ==> |coeffs[sh]| == S.EntriesPerShard(n) && InLanes(s.fleets[slot][sh], coeffs[sh])
  }

  /** Entry i goes to lane i mod 8. */
  predicate InLanes(shards: seq<Shard>, entries: seq<Elem>) {
    |shards| == SIMD_COUNT && forall k :: 0 <= k < SIMD_COUNT ==> shards[k].entries == D.LaneEntries(entries, k)
  }

  /** The client's request for a name: the position of its slot, under the server's masks and one key. */
  ghost predicate RequestFor(s: P.Server, r: P.Request, position: (nat, nat)) {
    && (r.secondaryIdx, r.primaryIdx) == position
    && r.first.Size(s.N) && r.second.Size(s.N)
    && r.first.s == r.second.s && r.first.keyA == r.second.keyA == s.keyA && r.first.keyE == r.second.keyE
    && ReceivedQuery.Masks(r.first.qryA, r.first.conjA) == s.first
    && ReceivedQuery.Masks(r.second.qryA, r.second.conjA) == s.second
  }

  /** Every slot is a position that the server has. */
  lemma RequestFits(h: Hashes, n: nat, g: nat, name: string, s: P.Server, slot: nat, coeffs: seq<seq<seq<nat>>>, r: P.Request)
    requires 1 <= n <= N * N && Published(s, slot, n, coeffs) && RequestFor(s, r, h.Slot(name, n, g))
    ensures r.Valid(s, slot)
  {
    SlotInRange(h, name, n, g);
    hide P.Server.Valid, Hashes.Slot, InLanes, S.NumDatabases, S.ChooseSecondary, S.PrimaryGroup;
  }

  /** The end of the client's query: the decrypted coefficients as a bucket, read for the name; None if the reply
   *  cannot be read. */
  function RecordsFrom(h: Hashes, g: nat, m: Option<Elem>, name: string): Option<seq<Record>> {
    if m.Some? && |m.value| == N && (forall x :: 0 <= x < N ==> m.value[x] >= 0)
    then Some(ReadFor(h, g, UnpackAll(m.value), name))
    else None
  }

  /** If every coefficient arrives, the client holds the packed bucket of the slot. */
  lemma BucketArrives(n: nat, position: (nat, nat), s: P.Server, slot: nat, coeffs: seq<seq<seq<nat>>>,
                      r: P.Request, inputs: seq<Option<seq<nat>>>)
    requires 1 <= n <= N * N && Published(s, slot, n, coeffs) && RequestFor(s, r, position) && r.Valid(s, slot)
    requires |inputs| == D.BATCH_COUNT && position.0 < |coeffs| && position.1 < |coeffs[position.0]|
    requires |coeffs[position.0][position.1]| == N
    requires forall x :: 0 <= x < N ==> coeffs[position.0][position.1][x] < PLAIN_MODULUS
    requires forall x: nat :: x < N ==> P.Answered(s, inputs, slot, r, x)
    ensures P.ProcessQueries(s, inputs).Some? && P.ProcessQueries(s, inputs).value[slot].Some?
    ensures |r.first.s| == s.N > 0 && s.base.t > 0 && s.shape.t > 0
    ensures P.ProcessReply(s, r.first.s, P.ProcessQueries(s, inputs).value[slot].value)
            == Some(coeffs[position.0][position.1])
  {
    hide *;
    var bucket := coeffs[position.0][position.1];
    EntryIsBucket(n, position, s, slot, coeffs, r);
    RankIs(s, slot, n, coeffs);
    assert forall x: nat :: x < N ==> Arrives(s, inputs, slot, r, bucket, x) by {
      forall x: nat | x < N
        ensures Arrives(s, inputs, slot, r, bucket, x)
      {
        assert P.Answered(s, inputs, slot, r, x);
        CoefficientArrives(s, inputs, slot, r, bucket, x);
      }
    }
    AllArrive(s, inputs, slot, r, bucket);
  }

  /** Coefficient x of the reply is that of the bucket. */
  ghost predicate Arrives(s: P.Server, inputs: seq<Option<seq<nat>>>, slot: nat, r: P.Request, bucket: seq<nat>, x: nat)
    requires s.Valid() && slot < D.BATCH_COUNT && |inputs| == D.BATCH_COUNT
  {
    && P.ProcessQueries(s, inputs).Some? && P.ProcessQueries(s, inputs).value[slot].Some?
    && |r.first.s| == s.N > 0 && s.base.t > 0 && s.shape.t > 0
    && var m := P.ProcessReply(s, r.first.s, P.ProcessQueries(s, inputs).value[slot].value);
    && m.Some? && |m.value| == s.N > x && x < |bucket| && m.value[x] == bucket[x]
  }

  lemma CoefficientArrives(s: P.Server, inputs: seq<Option<seq<nat>>>, slot: nat, r: P.Request, bucket: seq<nat>, x: nat)
    requires s.Valid() && slot < D.BATCH_COUNT && r.Valid(s, slot) && |inputs| == D.BATCH_COUNT
    requires P.Answered(s, inputs, slot, r, x) && |bucket| > x && bucket[x] < PLAIN_MODULUS == s.shape.t
    requires EntryOf(s, slot, r) == Some(bucket)
    ensures Arrives(s, inputs, slot, r, bucket, x)
  {
    hide P.ProcessQueries, P.ProcessReply, P.Server.Valid, P.Request.Valid;
    DivModUnique(bucket[x], PLAIN_MODULUS, 0, bucket[x]);
  }

  lemma AllArrive(s: P.Server, inputs: seq<Option<seq<nat>>>, slot: nat, r: P.Request, bucket: seq<nat>)
    requires s.Valid() && slot < D.BATCH_COUNT && |inputs| == D.BATCH_COUNT && s.N == N == |bucket|
    requires forall x: nat :: x < N ==> Arrives(s, inputs, slot, r, bucket, x)
    ensures P.ProcessQueries(s, inputs).Some? && P.ProcessQueries(s, inputs).value[slot].Some?
    ensures |r.first.s| == s.N > 0 && s.base.t > 0 && s.shape.t > 0
    ensures P.ProcessReply(s, r.first.s, P.ProcessQueries(s, inputs).value[slot].value) == Some(bucket)
  {
    hide P.ProcessQueries, P.ProcessReply, P.Server.Valid;
    assert Arrives(s, inputs, slot, r, bucket, 0);
    var m := P.ProcessReply(s, r.first.s, P.ProcessQueries(s, inputs).value[slot].value);
    forall x: nat | x < N
      ensures m.value[x] == bucket[x]
    {
      assert Arrives(s, inputs, slot, r, bucket, x);
    }
    assert m.value == bucket;
  }

  /** The entry that a request is for. */
  function EntryOf(s: P.Server, slot: nat, r: P.Request): Option<Elem> {
    if slot < |s.fleets| && r.secondaryIdx < |s.fleets[slot]| && |s.fleets[slot][r.secondaryIdx]| == SIMD_COUNT
       && r.I() < |s.fleets[slot][r.secondaryIdx][r.primaryIdx % SIMD_COUNT].entries|
    then Some(s.fleets[slot][r.secondaryIdx][r.primaryIdx % SIMD_COUNT].entries[r.I()])
    else None
  }

  lemma EntryIsBucket(n: nat, position: (nat, nat), s: P.Server, slot: nat, coeffs: seq<seq<seq<nat>>>, r: P.Request)
    requires 1 <= n <= N * N && Published(s, slot, n, coeffs) && RequestFor(s, r, position)
    requires position.0 < |coeffs| && position.1 < |coeffs[position.0]|
    ensures EntryOf(s, slot, r) == Some(coeffs[position.0][position.1]) && s.shape.t == PLAIN_MODULUS
  {
    var (sh, pri) := position;
    hide P.Server.ValidSlot, Shard.Valid, S.DatabaseShape, S.NumDatabases;
    assert InLanes(s.fleets[slot][sh], coeffs[sh]);
    assert SIMD_COUNT * (pri / SIMD_COUNT) + pri % SIMD_COUNT == pri;
    assert s.fleets[slot][sh][pri % SIMD_COUNT].entries == D.LaneEntries(coeffs[sh], pri % SIMD_COUNT);
  }

  /** A name in the zone is answered like in the plain lookup, whenever neither level's reply is disturbed: for every
   *  zone, hash functions, keys and masks, and whatever the other slot of the batch holds. */
  lemma PrivateLookup(h: Hashes, zone: Zone, keys: seq<string>, n: nat, g: nat, out: Shards, coeffs: seq<seq<seq<nat>>>,
                      name: string, s: P.Server, inputs: seq<Option<seq<nat>>>, slot: nat, r: P.Request)
    requires Enumerates(keys, zone) && 1 <= n <= N * N && Index(h, zone, keys, n, g, out)
    requires Stored(out, coeffs) && name in zone.records
    requires Published(s, slot, n, coeffs) && RequestFor(s, r, h.Slot(name, n, g)) && r.Valid(s, slot)
    requires |inputs| == D.BATCH_COUNT && inputs[slot] == Some(P.PrepareQuery(s, slot, r))
    requires forall i :: 0 <= i < D.BATCH_COUNT && i != slot && inputs[i].Some? ==> s.Unpack(inputs[i].value).Some?
    ensures P.UnpackAll(s, inputs).Some? && P.Asks(s, P.UnpackAll(s, inputs).value, slot, r)
    ensures P.ProcessQueries(s, inputs).Some? && P.ProcessQueries(s, inputs).value[slot].Some?
    ensures |r.first.s| == s.N > 0 && s.base.t > 0 && s.shape.t > 0
    ensures var b := P.AsBatch(s, P.UnpackAll(s, inputs).value, slot, r);
            var reply := P.ProcessQueries(s, inputs).value[slot].value;
            && b.Valid() && b.N == N
            && (b.SecondLevelUndisturbed() && (forall x: nat :: x < N ==> D.FirstLevelUndisturbed(b, x)) ==>
                  RecordsFrom(h, g, P.ProcessReply(s, r.first.s, reply), name) == Some(Lookup(zone, name)))
  {
    hide *;
    RankIs(s, slot, n, coeffs);
    P.Exchange(s, inputs, slot, r);
    P.BatchFields(s, P.UnpackAll(s, inputs).value, slot, r);
    var b := P.AsBatch(s, P.UnpackAll(s, inputs).value, slot, r);
    if b.SecondLevelUndisturbed() && (forall x: nat :: x < N ==> D.FirstLevelUndisturbed(b, x)) {
      forall x: nat | x < N
        ensures P.Answered(s, inputs, slot, r, x)
      {
        P.ExchangeRetrieves(s, inputs, slot, r, x);
      }
      IndexAgrees(h, zone, keys, n, g, out, coeffs, name);
      var position := h.Slot(name, n, g);
      SlotStored(h, zone, keys, n, g, out, coeffs, name, position);
      BucketArrives(n, position, s, slot, coeffs, r, inputs);
      AnswerRead(h, n, g, coeffs, name, Lookup(zone, name), position);
    }
  }

  lemma RankIs(s: P.Server, slot: nat, n: nat, coeffs: seq<seq<seq<nat>>>)
    requires 1 <= n <= N * N && Published(s, slot, n, coeffs)
    ensures s.Valid() && slot < D.BATCH_COUNT && s.N == N
  {
    hide P.Server.Valid, S.DatabaseShape, S.NumDatabases, S.EntriesPerShard;
  }

  /** The bucket of the slot is stored, as canonical coefficients. */
  lemma SlotStored(h: Hashes, zone: Zone, keys: seq<string>, n: nat, g: nat, out: Shards, coeffs: seq<seq<seq<nat>>>,
                   name: string, position: (nat, nat))
    requires 1 <= n <= N * N && Index(h, zone, keys, n, g, out) && Stored(out, coeffs) && position == h.Slot(name, n, g)
    ensures position.0 < |coeffs| && position.1 < |coeffs[position.0]| && |coeffs[position.0][position.1]| == N
    ensures forall x :: 0 <= x < N ==> coeffs[position.0][position.1][x] < PLAIN_MODULUS
  {
    hide Hashes.Slot, PackAll, Serves, NamesAt, S.NumDatabases, S.EntriesPerShard;
    SlotInRange(h, name, n, g);
    var bucket := out[position.0][position.1];
    assert |bucket| == BUCKET_BYTES;
    PackedSmall(bucket);
  }

  lemma PackedSmall(bucket: Bytes)
    requires |bucket| == BUCKET_BYTES
    ensures |PackAll(bucket)| == N && forall x :: 0 <= x < N ==> PackAll(bucket)[x] < PLAIN_MODULUS
  {
    hide PackAll;
  }

  lemma AnswerRead(h: Hashes, n: nat, g: nat, coeffs: seq<seq<seq<nat>>>, name: string, answer: seq<Record>,
                   position: (nat, nat))
    requires n > 0 && AnswersFrom(h, n, g, coeffs, name, answer) && position == h.Slot(name, n, g)
    ensures position.0 < |coeffs| && position.1 < |coeffs[position.0]|
    ensures RecordsFrom(h, g, Some(coeffs[position.0][position.1]), name) == Some(answer)
  {
    hide Hashes.Slot, ReadFor, UnpackAll;
  }
}
