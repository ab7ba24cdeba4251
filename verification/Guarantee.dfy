/** A condition on sizes alone under which the answer is right: small errors, a small secret, short loops. */
module Guarantee {
  import opened Arith
  import opened Options
  import opened Negacyclic
  import opened GaloisGroup
  import opened Parameters
  import opened PhaseSplit
  import opened EndToEnd
  import opened Noise
  import opened QueryFormat
  import opened ReceivedQuery
  import opened Protocol
  import G = Gadget
  import D = DoublePir

  const MOVED_A := 8588362176
  const MOVED_B := 274827589632

  /** The most that mod-switching a ciphertext adds to its phase, for a secret bounded by w. */
  function WireNoise(n: int, w: int): int {
    ProductBound(n, MOVED_A, w) + MOVED_B
  }

  lemma SwitchBounded(s: Elem, a: Elem, b: Elem, w: int)
    requires |s| == |a| == |b| > 0 && Bounded(s, w)
    ensures Bounded(D.SwitchError(s, a, b), WireNoise(|s|, w))
  {
    Pow2Values();
    hide Bounded, D.Moved, Mul, Pow2, ProductBound;
    MovedBounded(D.PRIMARY_A_LOG2_RESPONSE_Q, a, MOVED_A);
    MovedBounded(D.PRIMARY_B_LOG2_RESPONSE_Q, b, MOVED_B);
    var moved := D.Moved(D.PRIMARY_A_LOG2_RESPONSE_Q, a);
    MulBounded(moved, s, MOVED_A, w);
    AddBounded(Mul(moved, s), D.Moved(D.PRIMARY_B_LOG2_RESPONSE_Q, b), ProductBound(|s|, MOVED_A, w), MOVED_B);
  }

  /** The shard tolerates query errors up to b, key errors up to k and a secret bounded by w. */
  predicate Tolerates(g: IndexGroup, t: int, b: int, k: int, w: int) {
    2 * (WorstDisturbance(g, t, b, k) + t * WireNoise(g.N, w)) < G.Q
  }

  lemma SmallIsUndisturbed(d: Shard, c: Client, idx: nat, x: nat, b: int, k: int, w: int)
    requires d.Valid() && c.Size(d.g.N) && idx < d.g.l && x < d.g.N
    requires SmallErrors(c, b, k) && Bounded(c.s, w) && Tolerates(d.g, d.t, b, k, w)
    ensures D.Undisturbed(d, c, idx, x)
  {
    hide *;
    ShardBasics(d);
    SecretSize(c, d.g.N);
    var a, r := ReplyA(d, c), ReplyTo(d, c, idx);
    DisturbanceBounded(d, c, b, k, idx, x);
    SwitchBounded(c.s, a, r, w);
    BoundedAt(D.SwitchError(c.s, a, r), WireNoise(d.g.N, w), x);
    CombineNoise(d.t, Disturbance(d, c, idx, x), WorstDisturbance(d.g, d.t, b, k), D.SwitchError(c.s, a, r)[x], WireNoise(d.g.N, w));
    ToleratesMeans(d.g, d.t, b, k, w);
    SwitchedIs(d, c, idx, x);
    D.ReceivedEntry(d, c, idx, x);
  }

  lemma SecretSize(c: Client, n: nat)
    requires c.Size(n)
    ensures |c.s| == n > 0
  {
  }

  lemma BoundedAt(a: Elem, b: int, x: nat)
    requires Bounded(a, b) && x < |a|
    ensures -b <= a[x] <= b
  {
  }

  lemma CombineNoise(t: int, x: int, a: int, e: int, m: int)
    requires t > 0 && Abs(x) <= a && -m <= e <= m
    ensures Abs(x + t * e) <= a + t * m
  {
    MulMonotone(e, m, t);
    MulMonotone(-m, e, t);
  }

  lemma ToleratesMeans(g: IndexGroup, t: int, b: int, k: int, w: int)
    requires Tolerates(g, t, b, k, w)
    ensures 2 * (WorstDisturbance(g, t, b, k) + t * WireNoise(g.N, w)) < G.Q
  {
  }

  lemma SwitchedIs(d: Shard, c: Client, idx: nat, x: nat)
    requires d.Valid() && c.Size(d.g.N) && x < d.g.N
    ensures D.SwitchedDisturbance(d, c, idx, x)
            == Disturbance(d, c, idx, x) + d.t * D.SwitchError(c.s, ReplyA(d, c), ReplyTo(d, c, idx))[x]
  {
    hide Disturbance, D.SwitchError, ReplyA, ReplyTo, Shard.Valid;
  }

  /** Both levels of a server tolerate the errors, with what the wire adds to them. */
  predicate ServerTolerates(s: Server, b: int, k: int, w: int) {
    && Tolerates(s.shape.g, s.shape.t, b + 65525, k + 1, w)
    && Tolerates(s.base.g, s.base.t, b + 65525, k + 1, w)
  }

  /** The errors and the secret of a request are small. */
  ghost predicate Small(r: Request, b: int, k: int, w: int) {
    SmallErrors(r.first, b, k) && SmallErrors(r.second, b, k) && Bounded(r.first.s, w)
  }

  /** If the sizes fit, every coefficient of every entry arrives, for every key, all masks, and whatever the other
   *  slot holds. */
  lemma SmallErrorsExchange(s: Server, inputs: seq<Option<seq<nat>>>, slot: nat, r: Request, x: nat, b: int, k: int, w: int)
    requires s.Valid() && slot < D.BATCH_COUNT && r.Valid(s, slot) && |inputs| == D.BATCH_COUNT && x < s.N
    requires inputs[slot] == Some(PrepareQuery(s, slot, r))
    requires forall i :: 0 <= i < D.BATCH_COUNT && i != slot && inputs[i].Some? ==> s.Unpack(inputs[i].value).Some?
    requires ServerTolerates(s, b, k, w) && Small(r, b, k, w)
    ensures Answered(s, inputs, slot, r, x)
  {
    hide *;
    ExchangeRetrieves(s, inputs, slot, r, x);
    var queries := UnpackAll(s, inputs).value;
    SmallBatch(s, queries, slot, r, x, b, k, w);
  }

  lemma SmallBatch(s: Server, queries: seq<Option<Query>>, slot: nat, r: Request, x: nat, b: int, k: int, w: int)
    requires Asks(s, queries, slot, r) && AsBatch(s, queries, slot, r).Valid() && x < s.N
    requires ServerTolerates(s, b, k, w) && Small(r, b, k, w)
    ensures AsBatch(s, queries, slot, r).SecondLevelUndisturbed()
    ensures AsBatch(s, queries, slot, r).N == s.N && D.FirstLevelUndisturbed(AsBatch(s, queries, slot, r), x)
  {
    hide *;
    SmallArrived(s, queries, slot, r, b, k, w);
    BatchFields(s, queries, slot, r);
    BatchShapes(s, queries, slot, r);
    BothTolerate(s, b, k, w);
    SmallLevels(AsBatch(s, queries, slot, r), x, s.shape, s.base, b + 65525, k + 1, w);
  }

  lemma BothTolerate(s: Server, b: int, k: int, w: int)
    requires ServerTolerates(s, b, k, w)
    ensures Tolerates(s.shape.g, s.shape.t, b + 65525, k + 1, w) && Tolerates(s.base.g, s.base.t, b + 65525, k + 1, w)
  {
    hide Tolerates;
  }

  lemma BatchShapes(s: Server, queries: seq<Option<Query>>, slot: nat, r: Request)
    requires Asks(s, queries, slot, r)
    ensures var b := AsBatch(s, queries, slot, r);
            b.Target() == s.shape.(entries := b.Target().entries) && b.base == s.base
  {
    BatchIsValid(s, queries, slot, r);
    hide Results, Encrypted, FirstArrived, SecondArrived, Server.Valid, D.Batch.Target;
  }

  lemma SmallArrived(s: Server, queries: seq<Option<Query>>, slot: nat, r: Request, b: int, k: int, w: int)
    requires Asks(s, queries, slot, r) && Small(r, b, k, w)
    ensures var q := AsBatch(s, queries, slot, r);
            && SmallErrors(q.first, b + 65525, k + 1) && SmallErrors(q.second, b + 65525, k + 1)
            && Bounded(q.first.s, w) && Bounded(q.second.s, w)
  {
    ServerFacts(s);
    hide Results, Encrypted, Server.Valid, Arrived, SmallErrors, Bounded, Inverse, IndexGroup.LoopLen;
    ArrivedErrors(s.shape, r.first, r.I(), b, k);
    ArrivedErrors(s.base, r.second, r.J(), b, k);
  }

  lemma SmallLevels(q: D.Batch, x: nat, shape: Shard, base: Shard, b: int, k: int, w: int)
    requires q.Valid() && x < q.N && q.base == base && q.Target() == shape.(entries := q.Target().entries)
    requires Tolerates(shape.g, shape.t, b, k, w) && Tolerates(base.g, base.t, b, k, w)
    requires SmallErrors(q.first, b, k) && SmallErrors(q.second, b, k) && Bounded(q.first.s, w) && Bounded(q.second.s, w)
    ensures q.SecondLevelUndisturbed() && D.FirstLevelUndisturbed(q, x)
  {
    hide D.Batch.Valid, D.Batch.Target, D.Batch.Lane, D.Undisturbed, Tolerates, SmallErrors, Bounded, Shard.Valid;
    D.BatchSizes(q);
    D.TargetValid(q);
    SmallIsUndisturbed(q.Target(), q.first, D.PrimaryIndex(q.primaryIdx), x, b, k, w);
    forall p: nat, y: nat | p < D.CTXT_PARTS && y < q.N && q.Lane(p).Valid()
      ensures q.Lane(p).g.N == q.N && D.Undisturbed(q.Lane(p), q.second, q.Position(), y)
    {
      D.LanesValid(q, p);
      LaneRank(q, p);
      SmallIsUndisturbed(q.Lane(p), q.second, q.Position(), y, b, k, w);
    }
    LaneRanks(q);
  }

  lemma LaneRanks(q: D.Batch)
    requires q.Valid()
    ensures |q.results| == |q.lens| == D.BATCH_COUNT
    ensures forall p: nat :: q.Lane(p).g.N == q.N
  {
    D.BatchSizes(q);
    hide D.Batch.Valid, D.Batch.Lane;
    forall p: nat
      ensures q.Lane(p).g.N == q.N
    {
      D.LanesValid(q, p);
      LaneRank(q, p);
    }
  }

  lemma LaneRank(q: D.Batch, p: nat)
    requires q.Valid()
    ensures q.Lane(p).g == q.base.g && q.base.g.N == q.N && q.base.t == PLAIN_MODULUS
  {
    D.LanesValid(q, p);
    hide D.ValidFleet, D.ResultSizes, Shard.Valid, D.PartResults;
  }
}
