/** The shape of a database: the rule from which client and server derive the layout independently, and
 *  where a name's slot lies in it.
 */
module Shape {
  import opened Arith
  import opened GaloisGroup
  import opened Parameters

  const HALF_SIZE_PRIMARY_MAX_ENTRIES := N * N / 16

  function DivCeil(x: nat, m: nat): (r: nat)
    requires m > 0
    ensures r * m >= x && (r > 0 ==> (r - 1) * m < x)
  {
    CeilBounds(x, m);
    (x + m - 1) / m
  }

  lemma CeilBounds(x: nat, m: nat)
    requires m > 0
    ensures var r := (x + m - 1) / m; r >= 0 && r * m >= x && (r > 0 ==> (r - 1) * m < x)
  {
    var f, q := Split(x + m - 1, m);
    assert (q - 1) * m == q * m - m;
    if q < 0 {
      MulMonotone(q, -1, m);
    }
  }

  lemma DivCeilUnique(x: nat, m: nat, r: nat)
    requires m > 0 && r * m >= x && (r > 0 ==> (r - 1) * m < x)
    ensures DivCeil(x, m) == r
  {
    var c := DivCeil(x, m);
    if c < r {
      MulMonotone(c, r - 1, m);
    } else if r < c {
      MulMonotone(r, c - 1, m);
    }
  }

  /** The logarithm to base 2, rounded up. */
  function Log2Ceil(x: nat): (k: nat)
    requires x > 0
    ensures Pow2(k) >= x && (k > 0 ==> Pow2(k - 1) < x)
  {
    if x == 1 then 0 else Log2Ceil((x + 1) / 2) + 1
  }

  /** choose_index_group_secondary. */
  function ChooseSecondary(numShards: nat): (g: IndexGroup)
    requires 0 < numShards <= N / SIMD_COUNT
  {
    var l := SIMD_COUNT * Pow2(Log2Ceil(numShards));
    if l == N then FullGroup(N) else IndexGroup(N, l)
  }

  function PrimaryGroup(numEntries: nat): IndexGroup {
    if numEntries <= HALF_SIZE_PRIMARY_MAX_ENTRIES then IndexGroup(N, N / 2) else FullGroup(N)
  }

  function EntriesPerShard(numEntries: nat): (s: nat)
    ensures s == 8192 || s == 16384
  {
    SIMD_COUNT * PrimaryGroup(numEntries).l
  }

  /** The number of shards that get_database_shape and num_databases compute. */
  function NumDatabases(numEntries: nat): nat {
    DivCeil(numEntries, EntriesPerShard(numEntries))
  }

  /** get_database_shape; the requires are its assertions. */
  function DatabaseShape(numEntries: nat): (r: (IndexGroup, IndexGroup))
    requires 1 <= numEntries <= N * N
  {
    ShardBound(numEntries);
    (PrimaryGroup(numEntries), ChooseSecondary(NumDatabases(numEntries)))
  }

  /** The assertion inside choose_index_group_secondary never fires. */
  lemma ShardBound(numEntries: nat)
    requires 1 <= numEntries <= N * N
    ensures 1 <= NumDatabases(numEntries) <= N / SIMD_COUNT
    ensures numEntries <= HALF_SIZE_PRIMARY_MAX_ENTRIES ==> NumDatabases(numEntries) <= 32
    ensures numEntries > HALF_SIZE_PRIMARY_MAX_ENTRIES ==> NumDatabases(numEntries) > 16
  {
  }

  lemma LargePowers(k: nat)
    ensures k > 8 ==> Pow2(k) > 256
  {
    PowersUpTo8();
    if k > 8 {
      Pow2Mono(9, k);
    }
  }

  lemma LogBound(n: nat)
    requires 0 < n <= 256
    ensures Log2Ceil(n) <= 8
    ensures Log2Ceil(n) > 0 ==> Pow2(Log2Ceil(n)) < 2 * n
  {
    hide Log2Ceil, Pow2;
    var k := Log2Ceil(n);
    PowersUpTo8();
    if k > 0 {
      LargePowers(k - 1);
      NextPower(k);
    }
  }

  lemma NextPower(k: nat)
    requires k > 0
    ensures Pow2(k) == 2 * Pow2(k - 1)
  {
  }

  lemma PowerCases(k: nat)
    requires k <= 8
    ensures var x := Pow2(k); x == 1 || x == 2 || x == 4 || x == 8 || x == 16 || x == 32 || x == 64 || x == 128 || x == 256
  {
    PowersUpTo8();
    hide Pow2;
    assert k == 0 || k == 1 || k == 2 || k == 3 || k == 4 || k == 5 || k == 6 || k == 7 || k == 8;
  }

  lemma SecondaryOrder(numShards: nat)
    requires 0 < numShards <= N / SIMD_COUNT
    ensures var l := SIMD_COUNT * Pow2(Log2Ceil(numShards));
            && (l == 8 || l == 16 || l == 32 || l == 64 || l == 128 || l == 256 || l == 512 || l == 1024 || l == 2048)
            && SIMD_COUNT * numShards <= l < 2 * (SIMD_COUNT * numShards)
  {
    LogBound(numShards);
    PowerCases(Log2Ceil(numShards));
    PowersUpTo8();
    hide Log2Ceil, Pow2;
  }

  lemma ValidOrder(l: nat)
    requires l == 8 || l == 16 || l == 32 || l == 64 || l == 128 || l == 256 || l == 512 || l == 1024
    ensures N % l == 0 && 2 * l <= N
  {
  }

  /** Whatever the number of shards, the secondary group is one the constructors accept, its loop length is even,
   *  and it has room for all the shards but not for twice as many. */
  lemma SecondaryFits(numShards: nat) returns (m: nat)
    requires 0 < numShards <= N / SIMD_COUNT
    ensures var g := ChooseSecondary(numShards);
            && g.Valid(LOG2_N) && g.Layout(m) && m > 0 && g.LoopLen() % 2 == 0
            && SIMD_COUNT * numShards <= g.l < 2 * (SIMD_COUNT * numShards)
            && (g.RequiresConj() <==> numShards > N / 2 / SIMD_COUNT)
  {
    PowersUpTo8();
    SecondaryOrder(numShards);
    hide Pow2, Log2Ceil, IndexGroup.Layout;
    var g := ChooseSecondary(numShards);
    if g.l != N {
      ValidOrder(g.l);
    }
    m := ValidLayout(g, LOG2_N);
    LoopOf(g, m);
    PositiveExponent(m, g.LoopLen());
  }

  lemma LoopOf(g: IndexGroup, m: nat)
    requires g.Layout(m)
    ensures g.LoopLen() == Pow2(m)
  {
  }

  lemma PowersUpTo8()
    ensures Pow2(0) == 1 && Pow2(1) == 2 && Pow2(2) == 4 && Pow2(3) == 8 && Pow2(4) == 16 && Pow2(5) == 32
    ensures Pow2(6) == 64 && Pow2(7) == 128 && Pow2(8) == 256 && Pow2(9) == 512 && Pow2(11) == 2048
  {
    Pow2Add(4, 4);
    assert Pow2(9) == 2 * Pow2(8);
    assert Pow2(11) == 4 * Pow2(9);
  }

  lemma PositiveExponent(m: nat, x: nat)
    requires x == Pow2(m) && x > 1
    ensures m > 0 && x % 2 == 0
  {
  }

  /** Primary groups are accepted too, with an even loop length. */
  lemma PrimaryFits(numEntries: nat) returns (m: nat)
    ensures var g := PrimaryGroup(numEntries);
            && g.Valid(LOG2_N) && g.Layout(m) && m > 0 && g.LoopLen() % 2 == 0
            && (g.RequiresConj() <==> numEntries > HALF_SIZE_PRIMARY_MAX_ENTRIES)
  {
    PowersUpTo8();
    var g := PrimaryGroup(numEntries);
    m := ValidLayout(g, LOG2_N);
    PositiveExponent(m, g.LoopLen());
  }

  // ------------------------------------------------------------------------ agreement

  /** process_queries: the server takes the primary group from its databases and the secondary from their number. */
  function ServerShape(databases: seq<IndexGroup>): (r: (IndexGroup, IndexGroup))
    requires 0 < |databases| <= N / SIMD_COUNT
  {
    (databases[0], ChooseSecondary(|databases|))
  }

  /** The fleet that a server builds for numEntries. */
  function Fleet(numEntries: nat): (f: seq<IndexGroup>)
    requires 1 <= numEntries <= N * N
    ensures |f| == NumDatabases(numEntries)
  {
    seq(NumDatabases(numEntries), i => PrimaryGroup(numEntries))
  }

  /** Client and server use the same groups, so they agree on which sections a query has. The secondary group
   *  has room for all shards, and only shapes above N^2 / 16 and N^2 / 2 entries send conjugates. */
  lemma ShapesAgree(numEntries: nat)
    requires 1 <= numEntries <= N * N
    ensures 1 <= |Fleet(numEntries)| <= N / SIMD_COUNT
    ensures ServerShape(Fleet(numEntries)) == DatabaseShape(numEntries)
    ensures var (p, s) := DatabaseShape(numEntries);
            && SIMD_COUNT * |Fleet(numEntries)| <= s.l < 2 * (SIMD_COUNT * |Fleet(numEntries)|)
            && (p.RequiresConj() <==> numEntries > N * N / 16)
            && (s.RequiresConj() <==> numEntries > N * N / 2)
  {
    hide IndexGroup.Valid, IndexGroup.Layout, IndexGroup.LoopLen, ChooseSecondary, NumDatabases;
    ShardBound(numEntries);
    var m := SecondaryFits(NumDatabases(numEntries));
    var n := PrimaryFits(numEntries);
    ManyShards(numEntries);
  }

  /** The secondary group is the full one for more than N^2 / 2 entries. */
  lemma ManyShards(numEntries: nat)
    requires 1 <= numEntries <= N * N
    ensures NumDatabases(numEntries) > N / 2 / SIMD_COUNT <==> numEntries > N * N / 2
  {
    hide DivCeil;
    var c := NumDatabases(numEntries);
    ShardBound(numEntries);
    if numEntries > HALF_SIZE_PRIMARY_MAX_ENTRIES {
      assert c == DivCeil(numEntries, 16384);
    }
  }

  /** slot, after the hash: the position s of a name as (secondary_idx, primary_idx). */
  function SlotOf(hash: nat, numEntries: nat): (nat, nat)
    requires numEntries > 0
  {
    var s := hash % numEntries;
    (s / EntriesPerShard(numEntries), s % EntriesPerShard(numEntries))
  }

  /** Every slot meets the assertions of enc_double_pir, lies in an existing shard, and determines its position. */
  lemma SlotInShape(hash: nat, numEntries: nat)
    requires 1 <= numEntries <= N * N
    ensures var (secondary, primary) := SlotOf(hash, numEntries);
            var (p, s) := DatabaseShape(numEntries);
            && primary < p.l * SIMD_COUNT
            && secondary < NumDatabases(numEntries) <= s.l / SIMD_COUNT
            && secondary * EntriesPerShard(numEntries) + primary == hash % numEntries
  {
    ShapesAgree(numEntries);
    ShardBound(numEntries);
    var per := EntriesPerShard(numEntries);
    var position := hash % numEntries;
    var f, q := Split(position, per);
    var c := NumDatabases(numEntries);
    if q >= c {
      MulMonotone(c, q, per);
    }
  }

  // ------------------------------------------------------------------------ candidates

  /** The sizes pick_num_entries tries: whole fleets of half-size shards, then of full-size ones. */
  function Candidate(i: nat): nat {
    if i < 32 then (i + 1) * 8192 else (i - 32 + 17) * 16384
  }

  const CANDIDATES: nat := 32 + 240

  /** The sizes increase strictly, end at N^2, and each one completely fills its shards. */
  lemma CandidatesFillShards(i: nat)
    requires i < CANDIDATES
    ensures 1 <= Candidate(i) <= N * N
    ensures NumDatabases(Candidate(i)) * EntriesPerShard(Candidate(i)) == Candidate(i)
    ensures i + 1 < CANDIDATES ==> Candidate(i) < Candidate(i + 1)
    ensures i + 1 == CANDIDATES ==> Candidate(i) == N * N
    ensures Candidate(0) == 8192
    ensures i + 1 < CANDIDATES ==> Candidate(i + 1) - Candidate(i) == EntriesPerShard(Candidate(i + 1))
  {
    var c := Candidate(i);
    if i < 32 {
      DivCeilUnique(c, 8192, i + 1);
    } else {
      DivCeilUnique(c, 16384, i - 32 + 17);
    }
  }

  /** A size whose shards are all full. */
  predicate Full(c: nat) {
    1 <= c <= 2048 * 2048 && c % (if c <= 2048 * 2048 / 16 then 8192 else 16384) == 0
  }

  /** No such size is skipped, and no other is tried. */
  lemma CandidatesAreFull(c: nat)
    ensures Full(c) <==> exists i: nat :: i < CANDIDATES && Candidate(i) == c
  {
    if Full(c) {
      var i: nat := if c <= 2048 * 2048 / 16 then c / 8192 - 1 else c / 16384 + 15;
      assert i < CANDIDATES && Candidate(i) == c;
    }
  }

  /** The sizes increase. */
  lemma {:induction false} CandidatesIncrease(i: nat, j: nat)
    requires i < j < CANDIDATES
    ensures Candidate(i) < Candidate(j)
    decreases j
  {
    CandidatesFillShards(j - 1);
    if i < j - 1 {
      CandidatesIncrease(i, j - 1);
    }
  }

  /** The first candidate that passes is the smallest full size that does. */
  lemma FirstIsSmallest(fits: nat -> bool, i: nat)
    requires i < CANDIDATES && forall j: nat :: j < i ==> !fits(Candidate(j))
    ensures Full(Candidate(i)) && forall c: nat :: Full(c) && c < Candidate(i) ==> !fits(c)
  {
    hide Candidate, Full;
    CandidatesAreFull(Candidate(i));
    forall c: nat | Full(c) && c < Candidate(i)
      ensures !fits(c)
    {
      CandidatesAreFull(c);
      var k: nat :| k < CANDIDATES && Candidate(k) == c;
      if i < k {
        CandidatesIncrease(i, k);
      }
    }
  }

  /** pick_num_entries, with its floating-point load estimate as an arbitrary test: the smallest full size that passes
   *  or else the largest. */
  method PickNumEntries(fits: nat -> bool) returns (numEntries: nat)
    ensures Full(numEntries) && (fits(numEntries) || numEntries == 2048 * 2048)
    ensures forall c: nat :: Full(c) && c < numEntries ==> !fits(c)
  {
    hide Candidate, Full;
    var halfShard, fullShard := SIMD_COUNT * N / 2, SIMD_COUNT * N;
    var maxHalfShards := HALF_SIZE_PRIMARY_MAX_ENTRIES / halfShard;
    numEntries := 0;
    ghost var tried: nat := 0;
    for k := 1 to maxHalfShards + 1
      invariant tried == k - 1
      invariant forall j: nat :: j < tried ==> !fits(Candidate(j))
    {
      numEntries := k * halfShard;
      HalfFleet(k);
      if fits(numEntries) {
        FirstIsSmallest(fits, tried);
        return;
      }
      tried := tried + 1;
    }
    for k := HALF_SIZE_PRIMARY_MAX_ENTRIES / fullShard + 1 to N / SIMD_COUNT + 1
      invariant tried == 32 + (k - 17)
      invariant forall j: nat :: j < tried ==> !fits(Candidate(j))
      invariant k > 17 ==> numEntries == Candidate(tried - 1)
    {
      numEntries := k * fullShard;
      FullFleet(k);
      if fits(numEntries) {
        FirstIsSmallest(fits, tried);
        return;
      }
      tried := tried + 1;
    }
    FirstIsSmallest(fits, tried - 1);
    CandidatesFillShards(tried - 1);
  }

  lemma HalfFleet(k: nat)
    requires 1 <= k <= 32
    ensures k * 8192 == Candidate(k - 1)
  {
  }

  lemma FullFleet(k: nat)
    requires 17 <= k <= 256
    ensures k * 16384 == Candidate(32 + (k - 17))
  {
  }
}
