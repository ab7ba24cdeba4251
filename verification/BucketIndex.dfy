/** The bucket index of a zone: building it, and looking names up in it. The hash functions are arbitrary. */
module BucketIndex {
  import opened Arith
  import opened Options
  import opened Sums
  import opened Addresses
  import opened Parameters
  import opened Utf8
  import opened Zones
  import opened Bucket
  import S = Shape

  // -------------------------------------------------------------------------------- zone

  function As(a: seq<Ip4>): (r: seq<Record>)
    ensures |r| == |a|
  {
    seq(|a|, i requires 0 <= i < |a| => A(a[i]))
  }

  function Aaaas(aaaa: seq<Ip6>): (r: seq<Record>)
    ensures |r| == |aaaa|
  {
    seq(|aaaa|, i requires 0 <= i < |aaaa| => Aaaa(aaaa[i]))
  }

  function Servers(zone: Zone, ns: seq<nat>): (r: seq<Record>)
    ensures |r| == |ns|
  {
    seq(|ns|, i requires 0 <= i < |ns| => Ns(zone.NsAddress(ns[i])))
  }

  /** All records of a name, in the order in which both servers list them. */
  function RecordsOf(zone: Zone, rec: NameRecords): seq<Record> {
    As(rec.a) + Aaaas(rec.aaaa) + Servers(zone, rec.ns)
  }

  /** LocalZoneServer: the plain lookup. */
  function Lookup(zone: Zone, name: string): seq<Record> {
    if name in zone.records then RecordsOf(zone, zone.records[name]) else []
  }

  /** The address listed for a host: its first IPv4 address in the zone, else its first IPv6 address, else one in
   *  192.0.2.0/24 that ends in the number which the bytes of the host are to the base 31, modulo 256. */
  ghost predicate ListedAs(zone: Zone, host: string, ip: Ip) {
    var known := host in zone.records;
    if known && zone.records[host].a != [] then ip == V4(zone.records[host].a[0])
    else if known && zone.records[host].aaaa != [] then ip == V6(zone.records[host].aaaa[0])
    else ip == V4(Ip4([192, 0, 2, Sum(|Encode(host)|, DigitTerm(Encode(host))) % 256]))
  }

  /** The answer to a name: its IPv4 addresses, its IPv6 addresses and the addresses of its name servers, in the
   *  zone's order; nothing for a name without a record. */
  ghost predicate PlainAnswer(zone: Zone, name: string, out: seq<Record>) {
    if name !in zone.records then out == []
    else
      var (a, aaaa, ns) := (zone.records[name].a, zone.records[name].aaaa, zone.records[name].ns);
      && |out| == |a| + |aaaa| + |ns|
      && (forall i :: 0 <= i < |a| ==> out[i] == A(a[i]))
      && (forall i :: 0 <= i < |aaaa| ==> out[|a| + i] == Aaaa(aaaa[i]))
      && (forall i :: 0 <= i < |ns| && ns[i] < |zone.nsPool| ==>
            out[|a| + |aaaa| + i].Ns? && ListedAs(zone, zone.nsPool[ns[i]], out[|a| + |aaaa| + i].ip))
  }

  lemma AddressListed(zone: Zone, idx: nat)
    requires idx < |zone.nsPool|
    ensures ListedAs(zone, zone.nsPool[idx], zone.NsAddress(idx))
  {
    hide HostHash, DigitTerm, Encode, Cong;
    var b := Encode(zone.nsPool[idx]);
    HostHashIs(b);
    CongMod(HostHash(b), Sum(|b|, DigitTerm(b)), 256);
  }

  lemma LookupIsPlain(zone: Zone, name: string)
    ensures PlainAnswer(zone, name, Lookup(zone, name))
  {
    hide ListedAs, Zone.NsAddress;
    if name in zone.records {
      var rec := zone.records[name];
      forall i | 0 <= i < |rec.ns| && rec.ns[i] < |zone.nsPool|
        ensures ListedAs(zone, zone.nsPool[rec.ns[i]], zone.NsAddress(rec.ns[i]))
      {
        AddressListed(zone, rec.ns[i]);
      }
    }
  }

  /** In a zone whose name servers are all in its pool there is but one such answer. */
  lemma PlainAnswerUnique(zone: Zone, name: string, x: seq<Record>, y: seq<Record>)
    requires zone.Valid() && PlainAnswer(zone, name, x) && PlainAnswer(zone, name, y)
    ensures x == y
  {
    hide Sum, DigitTerm, Encode;
    if name in zone.records {
      var rec := zone.records[name];
      var n := |rec.a| + |rec.aaaa|;
      assert rec.InPool(zone.nsPool);
      forall i | 0 <= i < |x|
        ensures x[i] == y[i]
      {
        if |rec.a| <= i < n {
          assert x[|rec.a| + (i - |rec.a|)] == Aaaa(rec.aaaa[i - |rec.a|]);
        } else if n <= i {
          assert ListedAs(zone, zone.nsPool[rec.ns[i - n]], x[n + (i - n)].ip);
          assert ListedAs(zone, zone.nsPool[rec.ns[i - n]], y[n + (i - n)].ip);
        }
      }
    }
  }

  /** LocalZoneServer::query. */
  method LocalQuery(zone: Zone, name: string) returns (out: seq<Record>)
    ensures out == Lookup(zone, name)
    ensures PlainAnswer(zone, name, out)
  {
    hide PlainAnswer, Zone.NsAddress, As, Aaaas, Servers;
    LookupIsPlain(zone, name);
    out := [];
    if name in zone.records {
      var rec := zone.records[name];
      Nothing(zone);
      for i := 0 to |rec.a|
        invariant out == As(rec.a[..i])
      {
        NextA(rec.a, i);
        out := out + [A(rec.a[i])];
      }
      assert rec.a[..|rec.a|] == rec.a;
      for i := 0 to |rec.aaaa|
        invariant out == As(rec.a) + Aaaas(rec.aaaa[..i])
      {
        NextAaaa(rec.aaaa, i);
        out := out + [Aaaa(rec.aaaa[i])];
      }
      assert rec.aaaa[..|rec.aaaa|] == rec.aaaa;
      for i := 0 to |rec.ns|
        invariant out == As(rec.a) + Aaaas(rec.aaaa) + Servers(zone, rec.ns[..i])
      {
        NextServer(zone, rec.ns, i);
        out := out + [Ns(zone.NsAddress(rec.ns[i]))];
      }
      assert rec.ns[..|rec.ns|] == rec.ns;
    }
  }

  lemma Nothing(zone: Zone)
    ensures As([]) == [] && Aaaas([]) == [] && Servers(zone, []) == []
  {
  }

  lemma NextA(a: seq<Ip4>, i: nat)
    requires i < |a|
    ensures As(a[..i + 1]) == As(a[..i]) + [A(a[i])]
  {
  }

  lemma NextAaaa(aaaa: seq<Ip6>, i: nat)
    requires i < |aaaa|
    ensures Aaaas(aaaa[..i + 1]) == Aaaas(aaaa[..i]) + [Aaaa(aaaa[i])]
  {
  }

  lemma NextServer(zone: Zone, ns: seq<nat>, i: nat)
    requires i < |ns|
    ensures Servers(zone, ns[..i + 1]) == Servers(zone, ns[..i]) + [Ns(zone.NsAddress(ns[i]))]
  {
    hide Zone.NsAddress;
  }

  lemma RecordsValid(zone: Zone, name: string)
    requires zone.Addresses() && name in zone.records
    ensures forall i :: 0 <= i < |Lookup(zone, name)| ==> Lookup(zone, name)[i].Valid()
  {
    var rec := zone.records[name];
    assert rec.Addresses();
    forall idx: nat
      ensures Ns(zone.NsAddress(idx)).Valid()
    {
      GlueValid(zone, if idx < |zone.nsPool| then zone.nsPool[idx] else "");
    }
  }

  lemma GlueValid(zone: Zone, host: string)
    requires zone.Addresses()
    ensures Ns(if zone.GlueFor(host).Some? then zone.GlueFor(host).value else DummyIp(host)).Valid()
  {
    if host in zone.records {
      assert zone.records[host].Addresses();
    }
  }

  // ------------------------------------------------------------------------------ hashing

  /** Arbitrary hash functions for slots and for discriminators. */
  datatype Hashes = Hashes(slot: (string, nat) -> nat, disc: (string, nat, nat) -> nat) {
    /** The 14-bit discriminator of a name under the global and a bucket's salt. */
    function Disc(name: string, g: nat, salt: nat): (d: nat)
      ensures d < DISC_LIMIT
    {
      disc(name, g, salt) % DISC_LIMIT
    }

    function Slot(name: string, numEntries: nat, g: nat): (nat, nat)
      requires numEntries > 0
    {
      S.SlotOf(slot(name, g), numEntries)
    }
  }

  const MAX_BUCKET_SALT_ATTEMPTS := 65536

  /** No two of the names share a discriminator of 14 bits. */
  ghost predicate Injective(h: Hashes, names: seq<string>, g: nat, salt: nat) {
    forall i, j :: 0 <= i < j < |names| ==> h.disc(names[i], g, salt) % 0x4000 != h.disc(names[j], g, salt) % 0x4000
  }

  /** The first of the 2^16 salts that separates the names. */
  ghost predicate FirstSalt(h: Hashes, names: seq<string>, g: nat, salt: nat) {
    salt < 0x1_0000 && Injective(h, names, g, salt) && forall s: nat :: s < salt ==> !Injective(h, names, g, s)
  }

  /** find_bucket_salt: the first salt without a collision, and how many salts that took. */
  method FindBucketSalt(h: Hashes, names: seq<string>, g: nat) returns (r: Option<(nat, nat)>)
    ensures r.Some? <==> exists s: nat :: s < 0x1_0000 && Injective(h, names, g, s)
    ensures r.Some? ==> FirstSalt(h, names, g, r.value.0) && r.value.1 == r.value.0 + 1
  {
    for salt := 0 to MAX_BUCKET_SALT_ATTEMPTS
      invariant forall s: nat :: s < salt ==> !Injective(h, names, g, s)
    {
      var discSeen: set<nat> := {};
      var ok := true;
      for i := 0 to |names|
        invariant ok && discSeen == set x | 0 <= x < i :: h.Disc(names[x], g, salt)
        invariant Injective(h, names[..i], g, salt)
      {
        var d := h.Disc(names[i], g, salt);
        if d in discSeen {
          assert !Injective(h, names, g, salt);
          ok := false;
          break;
        }
        discSeen := discSeen + {d};
      }
      if ok {
        assert names[..|names|] == names;
        return Some((salt, salt + 1));
      }
    }
    r := None;
  }

  // ------------------------------------------------------------------------------ entries

  function Tagged(disc: nat, records: seq<Record>): (e: seq<Entry>)
    ensures |e| == |records|
  {
    seq(|records|, i requires 0 <= i < |records| => Entry(disc, records[i]))
  }

  /** All entries of the names of one bucket, in order. */
  function EntriesOf(h: Hashes, zone: Zone, names: seq<string>, g: nat, salt: nat): seq<Entry> {
    if names == [] then []
    else
      var n := |names| - 1;
      EntriesOf(h, zone, names[..n], g, salt) + Tagged(h.Disc(names[n], g, salt), Lookup(zone, names[n]))
  }

  function RecordsSize(records: seq<Record>): nat {
    if records == [] then 0 else RecordsSize(records[..|records| - 1]) + EntrySize(records[|records| - 1])
  }

  /** The bytes that the names of one bucket take; no salt plays a part in it. */
  function NamesSize(zone: Zone, names: seq<string>): nat {
    if names == [] then 0 else NamesSize(zone, names[..|names| - 1]) + RecordsSize(Lookup(zone, names[|names| - 1]))
  }

  lemma {:induction false} EncodedAppend(x: seq<Entry>, disc: nat, records: seq<Record>)
    requires forall i :: 0 <= i < |records| ==> records[i].Valid()
    ensures |Encoded(x + Tagged(disc, records))| == |Encoded(x)| + RecordsSize(records)
  {
    hide Entry.Bytes, Record.Valid;
    if records == [] {
      assert x + Tagged(disc, records) == x;
    } else {
      var n := |records| - 1;
      EncodedAppend(x, disc, records[..n]);
      EntryLength(disc, records[n]);
      var all := x + Tagged(disc, records);
      assert all[..|all| - 1] == x + Tagged(disc, records[..n]);
    }
  }

  lemma EntryLength(disc: nat, rec: Record)
    requires rec.Valid()
    ensures |Entry(disc, rec).Bytes()| == EntrySize(rec)
  {
  }

  lemma {:induction false} EncodedSize(h: Hashes, zone: Zone, names: seq<string>, g: nat, salt: nat)
    requires zone.Addresses() && forall i :: 0 <= i < |names| ==> names[i] in zone.records
    ensures |Encoded(EntriesOf(h, zone, names, g, salt))| == NamesSize(zone, names)
  {
    hide Lookup, Zone.Addresses, Encoded, Record.Valid;
    if names == [] {
      NothingEncoded();
    } else {
      var n := |names| - 1;
      EncodedSize(h, zone, names[..n], g, salt);
      RecordsValid(zone, names[n]);
      EncodedAppend(EntriesOf(h, zone, names[..n], g, salt), h.Disc(names[n], g, salt), Lookup(zone, names[n]));
    }
  }

  lemma NothingEncoded()
    ensures |Encoded([])| == 0
  {
  }

  // ------------------------------------------------------------------- filling one bucket

  /** Appends the records of one name; stops at the first that does not fit. */
  method AppendRecords(bucket: array<nat>, pos: nat, disc: nat, records: seq<Record>, ghost salt: nat, ghost entries: seq<Entry>)
    returns (r: AppendResult)
    requires bucket.Length == BUCKET_BYTES && Holds(bucket[..], salt, entries, pos) && disc < DISC_LIMIT
    requires forall i :: 0 <= i < |records| ==> records[i].Valid()
    modifies bucket
    ensures r.Ok? <==> pos + RecordsSize(records) <= BUCKET_BYTES
    ensures r.Ok? ==> r.pos == pos + RecordsSize(records)
                      && Holds(bucket[..], salt, entries + Tagged(disc, records), r.pos)
    ensures r.Ok? && ZerosFrom(old(bucket[..]), pos) ==> ZerosFrom(bucket[..], r.pos)
  {
    hide Holds, Record.Valid, EntrySize, ZerosFrom;
    var current := pos;
    assert entries + [] == entries;
    for i := 0 to |records|
      invariant current == pos + RecordsSize(records[..i])
      invariant Holds(bucket[..], salt, entries + Tagged(disc, records[..i]), current)
      invariant ZerosFrom(old(bucket[..]), pos) ==> ZerosFrom(bucket[..], current)
    {
      assert records[..i + 1][..i] == records[..i];
      SizeGrows(records, i + 1);
      DiscValid(disc, records[i]);
      var step := AppendEntry(bucket, current, disc, records[i], salt, entries + Tagged(disc, records[..i]));
      if step.Err? {
        return step;
      }
      current := step.pos;
      assert entries + Tagged(disc, records[..i]) + [Entry(disc, records[i])] == entries + Tagged(disc, records[..i + 1]);
    }
    assert records[..|records|] == records;
    HoldsFits(bucket[..], salt, entries + Tagged(disc, records), current);
    r := Ok(current);
  }

  lemma HoldsFits(bucket: Bytes, salt: nat, entries: seq<Entry>, pos: nat)
    requires Holds(bucket, salt, entries, pos)
    ensures pos <= BUCKET_BYTES && pos == FIRST_ENTRY_OFFSET + |Encoded(entries)|
  {
  }

  lemma DiscValid(disc: nat, rec: Record)
    requires disc < DISC_LIMIT && rec.Valid()
    ensures Entry(disc, rec).Valid()
  {
  }

  lemma {:induction false} SizeGrows(records: seq<Record>, k: nat)
    requires k <= |records|
    ensures RecordsSize(records[..k]) <= RecordsSize(records)
    decreases |records|
  {
    if k < |records| {
      SizeGrows(records[..|records| - 1], k);
      assert records[..|records| - 1][..k] == records[..k];
    } else {
      assert records[..k] == records;
    }
  }

  lemma {:induction false} NamesSizeGrows(zone: Zone, names: seq<string>, k: nat)
    requires k <= |names|
    ensures NamesSize(zone, names[..k]) <= NamesSize(zone, names)
    decreases |names|
  {
    if k < |names| {
      NamesSizeGrows(zone, names[..|names| - 1], k);
      assert names[..|names| - 1][..k] == names[..k];
    } else {
      assert names[..k] == names;
    }
  }

  /** A bucket that serves the given names: it holds their entries under the first salt that separates them, and
   *  nothing else. */
  ghost predicate Serves(h: Hashes, zone: Zone, names: seq<string>, g: nat, bucket: Bytes) {
    exists salt: nat, pos: nat :: ServesUnder(h, zone, names, g, bucket, salt, pos)
  }

  ghost predicate ServesUnder(h: Hashes, zone: Zone, names: seq<string>, g: nat, bucket: Bytes, salt: nat, pos: nat) {
    && FirstSalt(h, names, g, salt)
    && Holds(bucket, salt, EntriesOf(h, zone, names, g, salt), pos) && ZerosFrom(bucket, pos)
  }

  /** The names can be put into one bucket: one of 2^16 salts separates them, and with the six bytes of the header
   *  their entries fit. */
  ghost predicate Placeable(h: Hashes, zone: Zone, names: seq<string>, g: nat) {
    && (exists s: nat :: s < 0x1_0000 && Injective(h, names, g, s))
    && 6 + NamesSize(zone, names) <= 2560
  }

  /** One bucket of the second pass: finds the salt, writes it, then all entries; None if either is impossible. */
  method FillBucket(h: Hashes, zone: Zone, names: seq<string>, g: nat) returns (r: Option<Bytes>)
    requires zone.Addresses() && forall i :: 0 <= i < |names| ==> names[i] in zone.records
    ensures r.Some? <==> Placeable(h, zone, names, g)
    ensures r.Some? ==> |r.value| == BUCKET_BYTES && Serves(h, zone, names, g, r.value)
  {
    hide Holds, LittleEndian, FromLittleEndian, Zone.Addresses, Lookup, Pow256, Injective, Record.Valid, ZerosFrom;
    var found := FindBucketSalt(h, names, g);
    if found.None? {
      return None;
    }
    var salt := found.value.0;
    var bucket := new nat[BUCKET_BYTES](i => 0);
    CopyInto(bucket, 0, LittleEndian(salt, 4));
    FivePowers();
    EmptyBucket(bucket[..], salt);
    HeaderZeros(bucket[..]);
    var pos: nat := FIRST_ENTRY_OFFSET;
    for i := 0 to |names|
      invariant Holds(bucket[..], salt, EntriesOf(h, zone, names[..i], g, salt), pos)
      invariant pos == FIRST_ENTRY_OFFSET + NamesSize(zone, names[..i])
      invariant ZerosFrom(bucket[..], pos)
    {
      assert names[..i + 1][..i] == names[..i];
      RecordsValid(zone, names[i]);
      NamesSizeGrows(zone, names, i + 1);
      var disc := h.Disc(names[i], g, salt);
      var step := AppendRecords(bucket, pos, disc, Lookup(zone, names[i]), salt, EntriesOf(h, zone, names[..i], g, salt));
      if step.Err? {
        return None;
      }
      pos := step.pos;
    }
    assert names[..|names|] == names;
    HoldsFits(bucket[..], salt, EntriesOf(h, zone, names, g, salt), pos);
    assert ServesUnder(h, zone, names, g, bucket[..], salt, pos);
    r := Some(bucket[..]);
  }

  lemma HeaderZeros(bucket: Bytes)
    requires |bucket| >= 4 && bucket[4..] == seq(|bucket| - 4, i => 0)
    ensures ZerosFrom(bucket, FIRST_ENTRY_OFFSET)
  {
    forall i | FIRST_ENTRY_OFFSET <= i < |bucket|
      ensures bucket[i] == 0
    {
      assert bucket[i] == bucket[4..][i - 4];
    }
  }

  /** Two names that collide under salt 0 but not under salt 1 are served under salt 1. */
  lemma SecondSalt(h: Hashes, zone: Zone, x: string, y: string, g: nat, bucket: Bytes)
    requires h.disc(x, g, 0) % 0x4000 == h.disc(y, g, 0) % 0x4000 && h.disc(x, g, 1) % 0x4000 != h.disc(y, g, 1) % 0x4000
    requires 6 + NamesSize(zone, [x, y]) <= 2560
    ensures Placeable(h, zone, [x, y], g)
    ensures Serves(h, zone, [x, y], g, bucket) ==>
              |bucket| == BUCKET_BYTES && FromLittleEndian(bucket[..4]) == 1
  {
    hide Holds, NamesSize, EntriesOf, FromLittleEndian, ZerosFrom;
    var names := [x, y];
    assert names[0] == x && names[1] == y;
    assert !Injective(h, names, g, 0) && Injective(h, names, g, 1);
    if Serves(h, zone, names, g, bucket) {
      var salt: nat, pos: nat :| ServesUnder(h, zone, names, g, bucket, salt, pos);
      assert salt == 1;
      CountRead(bucket, salt, EntriesOf(h, zone, names, g, salt), pos);
    }
  }

  // ------------------------------------------------------------------------ build_buckets

  /** An enumeration of the names of a zone, in any order. */
  ghost predicate Enumerates(keys: seq<string>, zone: Zone) {
    && (forall i :: 0 <= i < |keys| ==> keys[i] in zone.records)
    && (forall i, j :: 0 <= i < j < |keys| ==> keys[i] != keys[j])
    && (forall name :: name in zone.records ==> name in keys)
  }

  /** The names that belong to one bucket, in enumeration order. */
  function NamesAt(h: Hashes, keys: seq<string>, n: nat, g: nat, at: (nat, nat)): (names: seq<string>)
    requires n > 0
    ensures forall name :: name in names <==> name in keys && h.Slot(name, n, g) == at
  {
    if keys == [] then []
    else
      var k := |keys| - 1;
      NamesAt(h, keys[..k], n, g, at) + if h.Slot(keys[k], n, g) == at then [keys[k]] else []
  }

  lemma {:induction false} NamesDistinct(h: Hashes, keys: seq<string>, n: nat, g: nat, at: (nat, nat))
    requires n > 0 && forall i, j :: 0 <= i < j < |keys| ==> keys[i] != keys[j]
    ensures forall i, j :: 0 <= i < j < |NamesAt(h, keys, n, g, at)| ==>
              NamesAt(h, keys, n, g, at)[i] != NamesAt(h, keys, n, g, at)[j]
  {
    hide Hashes.Slot;
    if keys != [] {
      var k := |keys| - 1;
      NamesDistinct(h, keys[..k], n, g, at);
    }
  }

  /** The names of a bucket keep the order of the enumeration. */
  lemma {:induction false} NamesInOrder(h: Hashes, keys: seq<string>, n: nat, g: nat, at: (nat, nat), i: nat, j: nat)
    returns (a: nat, b: nat)
    requires n > 0 && i < j < |NamesAt(h, keys, n, g, at)|
    ensures a < b < |keys| && keys[a] == NamesAt(h, keys, n, g, at)[i] && keys[b] == NamesAt(h, keys, n, g, at)[j]
    decreases |keys|
  {
    hide Hashes.Slot;
    var k := |keys| - 1;
    var init := NamesAt(h, keys[..k], n, g, at);
    if j < |init| {
      a, b := NamesInOrder(h, keys[..k], n, g, at, i, j);
    } else {
      assert init[i] in init;
      a :| 0 <= a < k && keys[..k][a] == init[i];
      b := k;
    }
  }

  type Groups = seq<seq<seq<string>>>

  /** Pass 1: every name goes to the list of its slot. */
  method GroupNames(h: Hashes, keys: seq<string>, n: nat, g: nat) returns (groups: Groups)
    requires 1 <= n <= N * N
    ensures |groups| == S.NumDatabases(n)
    ensures forall sh :: 0 <= sh < |groups| ==> |groups[sh]| == S.EntriesPerShard(n)
    ensures forall sh: nat, pri: nat :: sh < S.NumDatabases(n) && pri < S.EntriesPerShard(n) ==>
              groups[sh][pri] == NamesAt(h, keys, n, g, (sh, pri))
  {
    hide Hashes.Slot, S.EntriesPerShard, S.NumDatabases;
    var per, shards := S.EntriesPerShard(n), S.NumDatabases(n);
    groups := seq(shards, sh => seq(per, pri => []));
    for i := 0 to |keys|
      invariant |groups| == shards && forall sh :: 0 <= sh < shards ==> |groups[sh]| == per
      invariant forall sh: nat, pri: nat :: sh < shards && pri < per ==>
                  groups[sh][pri] == NamesAt(h, keys[..i], n, g, (sh, pri))
    {
      SlotInRange(h, keys[i], n, g);
      var (sh, pri) := h.Slot(keys[i], n, g);
      assert keys[..i + 1][..i] == keys[..i];
      groups := groups[sh := groups[sh][pri := groups[sh][pri] + [keys[i]]]];
    }
    assert keys[..|keys|] == keys;
  }

  lemma SlotInRange(h: Hashes, name: string, n: nat, g: nat)
    requires 1 <= n <= N * N
    ensures var (sh, pri) := h.Slot(name, n, g); sh < S.NumDatabases(n) && pri < S.EntriesPerShard(n)
  {
    S.SlotInShape(h.slot(name, g), n);
  }

  type Shards = seq<seq<Bytes>>

  /** Every bucket of the index serves the names that hash to it. */
  ghost predicate Index(h: Hashes, zone: Zone, keys: seq<string>, n: nat, g: nat, out: Shards)
    requires n > 0
  {
    && |out| == S.NumDatabases(n)
    && (forall sh :: 0 <= sh < |out| ==> |out[sh]| == S.EntriesPerShard(n))
    && forall sh: nat, pri: nat :: sh < |out| && pri < S.EntriesPerShard(n) ==>
         |out[sh][pri]| == BUCKET_BYTES && Serves(h, zone, NamesAt(h, keys, n, g, (sh, pri)), g, out[sh][pri])
  }

  /** Every bucket's names can be placed. */
  ghost predicate Buildable(h: Hashes, zone: Zone, keys: seq<string>, n: nat, g: nat)
    requires n > 0
  {
    forall sh: nat, pri: nat :: sh < S.NumDatabases(n) && pri < S.EntriesPerShard(n) ==>
      Placeable(h, zone, NamesAt(h, keys, n, g, (sh, pri)), g)
  }

  /** The buckets built so far in one shard. */
  ghost predicate RowServes(h: Hashes, zone: Zone, keys: seq<string>, n: nat, g: nat, sh: nat, row: seq<Bytes>)
    requires n > 0
  {
    forall pri: nat :: pri < |row| ==>
      |row[pri]| == BUCKET_BYTES && Serves(h, zone, NamesAt(h, keys, n, g, (sh, pri)), g, row[pri])
      && Placeable(h, zone, NamesAt(h, keys, n, g, (sh, pri)), g)
  }

  /** An empty list of names is served by the all-zero bucket that the program leaves in place. */
  lemma EmptyServed(h: Hashes, zone: Zone, g: nat)
    ensures Serves(h, zone, [], g, seq(BUCKET_BYTES, i => 0)) && Placeable(h, zone, [], g)
  {
    var zeros: Bytes := seq(BUCKET_BYTES, i => 0);
    assert LittleEndian(0, 4) == [0, 0, 0, 0] by {
      assert LittleEndian(0, 1) == [0];
      assert LittleEndian(0, 2) == [0, 0];
      assert LittleEndian(0, 3) == [0, 0, 0];
    }
    assert zeros[..4] == [0, 0, 0, 0];
    FivePowers();
    EmptyBucket(zeros, 0);
    assert FirstSalt(h, [], g, 0);
    assert EntriesOf(h, zone, [], g, 0) == [];
    assert ServesUnder(h, zone, [], g, zeros, 0, FIRST_ENTRY_OFFSET);
  }

  lemma NamesInZone(h: Hashes, zone: Zone, keys: seq<string>, n: nat, g: nat, at: (nat, nat))
    requires n > 0 && Enumerates(keys, zone)
    ensures forall i :: 0 <= i < |NamesAt(h, keys, n, g, at)| ==> NamesAt(h, keys, n, g, at)[i] in zone.records
  {
    hide Hashes.Slot;
    var names := NamesAt(h, keys, n, g, at);
    forall i | 0 <= i < |names|
      ensures names[i] in zone.records
    {
      assert names[i] in names;
    }
  }

  /** The second pass over one shard; None at the first bucket whose names cannot be placed. */
  method BuildRow(h: Hashes, zone: Zone, ghost keys: seq<string>, n: nat, g: nat, ghost sh: nat, lists: seq<seq<string>>)
    returns (r: Option<seq<Bytes>>)
    requires n > 0 && zone.Addresses() && Enumerates(keys, zone)
    requires forall pri: nat :: pri < |lists| ==> lists[pri] == NamesAt(h, keys, n, g, (sh, pri))
    ensures r.Some? ==> |r.value| == |lists| && RowServes(h, zone, keys, n, g, sh, r.value)
    ensures r.None? ==> exists pri: nat :: pri < |lists| && !Placeable(h, zone, NamesAt(h, keys, n, g, (sh, pri)), g)
  {
    hide Hashes.Slot, Zone.Addresses, Placeable, Serves, Enumerates, NamesAt, RowServes;
    EmptyServed(h, zone, g);
    var row: seq<Bytes> := [];
    RowStart(h, zone, keys, n, g, sh);
    for pri := 0 to |lists|
      invariant |row| == pri && RowServes(h, zone, keys, n, g, sh, row)
    {
      var names := lists[pri];
      var bucket: Bytes := seq(BUCKET_BYTES, i => 0);
      if names != [] {
        NamesInZone(h, zone, keys, n, g, (sh, pri));
        var filled := FillBucket(h, zone, names, g);
        if filled.None? {
          return None;
        }
        bucket := filled.value;
      }
      RowMore(h, zone, keys, n, g, sh, row, bucket);
      row := row + [bucket];
    }
    r := Some(row);
  }

  lemma RowStart(h: Hashes, zone: Zone, keys: seq<string>, n: nat, g: nat, sh: nat)
    requires n > 0
    ensures RowServes(h, zone, keys, n, g, sh, [])
  {
  }

  lemma RowMore(h: Hashes, zone: Zone, keys: seq<string>, n: nat, g: nat, sh: nat, row: seq<Bytes>, bucket: Bytes)
    requires n > 0 && RowServes(h, zone, keys, n, g, sh, row) && |bucket| == BUCKET_BYTES
    requires Serves(h, zone, NamesAt(h, keys, n, g, (sh, |row|)), g, bucket)
    requires Placeable(h, zone, NamesAt(h, keys, n, g, (sh, |row|)), g)
    ensures RowServes(h, zone, keys, n, g, sh, row + [bucket])
  {
    hide Serves, Placeable, NamesAt;
  }

  /** build_buckets: succeeds exactly when every bucket's names can be placed, and then every bucket serves
   *  its names, whatever the hash functions and the enumeration order are. */
  method BuildBuckets(h: Hashes, zone: Zone, keys: seq<string>, n: nat, g: nat) returns (r: Option<Shards>)
    requires zone.Addresses() && Enumerates(keys, zone) && 1 <= n <= N * N
    ensures r.Some? <==> Buildable(h, zone, keys, n, g)
    ensures r.Some? ==> Index(h, zone, keys, n, g, r.value)
  {
    hide Hashes.Slot, S.EntriesPerShard, S.NumDatabases, Zone.Addresses, Placeable, Serves, Enumerates, NamesAt, RowServes;
    var groups := GroupNames(h, keys, n, g);
    var out: Shards := [];
    for sh := 0 to |groups|
      invariant |out| == sh
      invariant forall s: nat :: s < sh ==> |out[s]| == S.EntriesPerShard(n)
      invariant forall s: nat :: s < sh ==> RowServes(h, zone, keys, n, g, s, out[s])
    {
      var row := BuildRow(h, zone, keys, n, g, sh, groups[sh]);
      if row.None? {
        return None;
      }
      out := out + [row.value];
    }
    r := Some(out);
    AllServe(h, zone, keys, n, g, out);
  }

  lemma AllServe(h: Hashes, zone: Zone, keys: seq<string>, n: nat, g: nat, out: Shards)
    requires n > 0 && |out| == S.NumDatabases(n)
    requires forall sh: nat :: sh < |out| ==> |out[sh]| == S.EntriesPerShard(n) && RowServes(h, zone, keys, n, g, sh, out[sh])
    ensures Buildable(h, zone, keys, n, g) && Index(h, zone, keys, n, g, out)
  {
    hide S.EntriesPerShard, S.NumDatabases, Placeable, Serves, NamesAt;
    forall sh: nat, pri: nat | sh < S.NumDatabases(n) && pri < S.EntriesPerShard(n)
      ensures |out[sh][pri]| == BUCKET_BYTES && Serves(h, zone, NamesAt(h, keys, n, g, (sh, pri)), g, out[sh][pri])
      ensures Placeable(h, zone, NamesAt(h, keys, n, g, (sh, pri)), g)
    {
      assert RowServes(h, zone, keys, n, g, sh, out[sh]);
    }
  }

  // --------------------------------------------------------------------------- the lookup

  /** What the PIR server stores for every bucket. */
  ghost predicate Stored(out: Shards, coeffs: seq<seq<seq<nat>>>) {
    && |coeffs| == |out|
    && (forall sh: nat :: sh < |out| ==> |coeffs[sh]| == |out[sh]|)
    && forall sh: nat, pri: nat :: sh < |out| && pri < |out[sh]| ==>
         |out[sh][pri]| == BUCKET_BYTES && coeffs[sh][pri] == PackAll(out[sh][pri])
  }

  /** The client's steps: slot, retrieved coefficients, bytes, salt, discriminator, matching entries. */
  method ClientQuery(h: Hashes, n: nat, g: nat, coeffs: seq<seq<seq<nat>>>, name: string) returns (out: seq<Record>)
    requires 1 <= n <= N * N && |coeffs| == S.NumDatabases(n)
    requires forall sh: nat :: sh < |coeffs| ==> |coeffs[sh]| == S.EntriesPerShard(n)
    requires forall sh: nat, pri: nat :: sh < |coeffs| && pri < |coeffs[sh]| ==> |coeffs[sh][pri]| == N
    ensures AnswersFrom(h, n, g, coeffs, name, out)
  {
    hide Hashes.Slot, S.EntriesPerShard, S.NumDatabases, UnpackAll, DecodeFrom, FromLittleEndian;
    SlotInRange(h, name, n, g);
    var (sh, pri) := h.Slot(name, n, g);
    var bucket := UnpackCoeffsIntoBytes(coeffs[sh][pri]);
    assert bucket[..4] == bucket[..][..4];
    var salt := FromLittleEndian(bucket[..4]);
    var disc := h.Disc(name, g, salt);
    out := DecodeBucketMatching(bucket[..], disc);
  }

  /** Reading a bucket for a name: its salt gives the discriminator to look for. */
  function ReadFor(h: Hashes, g: nat, bucket: Bytes, name: string): seq<Record>
    requires |bucket| == BUCKET_BYTES
  {
    var disc := h.Disc(name, g, FromLittleEndian(bucket[..4]));
    DecodeFrom(bucket, FIRST_ENTRY_OFFSET, FromLittleEndian(bucket[4..6]), disc)
  }

  lemma {:induction false} MatchingAppend(x: seq<Entry>, y: seq<Entry>, want: nat)
    ensures Matching(x + y, want) == Matching(x, want) + Matching(y, want)
  {
    if x == [] {
      assert x + y == y;
    } else {
      MatchingHead(x, want);
      MatchingHead(x + y, want);
      hide Matching;
      assert (x + y)[1..] == x[1..] + y && (x + y)[0] == x[0];
      MatchingAppend(x[1..], y, want);
    }
  }

  lemma MatchingHead(x: seq<Entry>, want: nat)
    requires x != []
    ensures Matching(x, want) == (if x[0].disc == want then [x[0].rec] else []) + Matching(x[1..], want)
  {
  }

  lemma {:induction false} MatchingTagged(disc: nat, records: seq<Record>, want: nat)
    ensures Matching(Tagged(disc, records), want) == if disc == want then records else []
  {
    if records != [] {
      MatchingTagged(disc, records[1..], want);
      assert Tagged(disc, records)[1..] == Tagged(disc, records[1..]);
    }
  }

  /** No entry of other names has the discriminator of name. */
  lemma {:induction false} MatchingOthers(h: Hashes, zone: Zone, names: seq<string>, g: nat, salt: nat, want: nat)
    requires forall i :: 0 <= i < |names| ==> h.Disc(names[i], g, salt) != want
    ensures Matching(EntriesOf(h, zone, names, g, salt), want) == []
  {
    hide Lookup, Hashes.Disc;
    if names != [] {
      var k := |names| - 1;
      MatchingOthers(h, zone, names[..k], g, salt, want);
      var tagged := Tagged(h.Disc(names[k], g, salt), Lookup(zone, names[k]));
      MatchingAppend(EntriesOf(h, zone, names[..k], g, salt), tagged, want);
      MatchingTagged(h.Disc(names[k], g, salt), Lookup(zone, names[k]), want);
    }
  }

  /** If the salt separates the names, the entries under a name's discriminator are its records. */
  lemma {:induction false} MatchingName(h: Hashes, zone: Zone, names: seq<string>, g: nat, salt: nat, p: nat)
    requires Injective(h, names, g, salt) && p < |names|
    ensures Matching(EntriesOf(h, zone, names, g, salt), h.Disc(names[p], g, salt)) == Lookup(zone, names[p])
  {
    hide Lookup, Hashes.Disc, Matching, Tagged, Injective, EntriesOf;
    var k := |names| - 1;
    var init := names[..k];
    var want := h.Disc(names[p], g, salt);
    var last := h.Disc(names[k], g, salt);
    EntriesLast(h, zone, names, g, salt);
    MatchingAppend(EntriesOf(h, zone, init, g, salt), Tagged(last, Lookup(zone, names[k])), want);
    MatchingTagged(last, Lookup(zone, names[k]), want);
    InjectiveInit(h, names, g, salt);
    if p == k {
      MatchingOthers(h, zone, init, g, salt, want);
    } else {
      assert init[p] == names[p];
      MatchingName(h, zone, init, g, salt, p);
    }
  }

  lemma EntriesLast(h: Hashes, zone: Zone, names: seq<string>, g: nat, salt: nat)
    requires names != []
    ensures var k := |names| - 1;
            EntriesOf(h, zone, names, g, salt)
            == EntriesOf(h, zone, names[..k], g, salt) + Tagged(h.Disc(names[k], g, salt), Lookup(zone, names[k]))
  {
    hide Lookup, Hashes.Disc, Tagged;
  }

  lemma InjectiveInit(h: Hashes, names: seq<string>, g: nat, salt: nat)
    requires names != [] && Injective(h, names, g, salt)
    ensures var k := |names| - 1;
            && Injective(h, names[..k], g, salt)
            && forall i :: 0 <= i < k ==> h.Disc(names[..k][i], g, salt) != h.Disc(names[k], g, salt)
  {
  }

  /** A bucket that serves some names answers each of them with exactly its records, in the zone's order. */
  lemma ServedNames(h: Hashes, zone: Zone, names: seq<string>, g: nat, bucket: Bytes, p: nat)
    requires Serves(h, zone, names, g, bucket) && p < |names|
    ensures |bucket| == BUCKET_BYTES && AreBytes(bucket)
    ensures ReadFor(h, g, bucket, names[p]) == Lookup(zone, names[p])
  {
    hide Lookup, Hashes.Disc, EntriesOf, Injective, DecodeFrom, FromLittleEndian;
    var salt: nat, pos: nat :| ServesUnder(h, zone, names, g, bucket, salt, pos);
    ReadBucket(bucket, salt, EntriesOf(h, zone, names, g, salt), pos, h.Disc(names[p], g, salt));
    MatchingName(h, zone, names, g, salt, p);
  }

  /** The index agrees with the plain zone: for every name in the zone, what the client reads from the bucket it
   *  selects is the list that the plain lookup returns. */
  lemma IndexAgrees(h: Hashes, zone: Zone, keys: seq<string>, n: nat, g: nat, out: Shards, coeffs: seq<seq<seq<nat>>>, name: string)
    requires Enumerates(keys, zone) && 1 <= n <= N * N && Index(h, zone, keys, n, g, out)
    requires Stored(out, coeffs) && name in zone.records
    ensures AnswersFrom(h, n, g, coeffs, name, Lookup(zone, name))
  {
    hide Hashes.Slot, S.EntriesPerShard, S.NumDatabases, UnpackAll, PackAll, DecodeFrom, FromLittleEndian, Lookup, ReadFor, Serves;
    SlotInRange(h, name, n, g);
    var (sh, pri) := h.Slot(name, n, g);
    var names := NamesAt(h, keys, n, g, (sh, pri));
    assert name in names;
    var p :| 0 <= p < |names| && names[p] == name;
    ServedNames(h, zone, names, g, out[sh][pri], p);
    PackRoundTrip(out[sh][pri]);
  }

  /** The bucket that the client selects for a name exists, and reading it gives the answer. */
  ghost predicate AnswersFrom(h: Hashes, n: nat, g: nat, coeffs: seq<seq<seq<nat>>>, name: string, answer: seq<Record>)
    requires n > 0
  {
    var (sh, pri) := h.Slot(name, n, g);
    && sh < |coeffs| && pri < |coeffs[sh]| && |coeffs[sh][pri]| == N
    && ReadFor(h, g, UnpackAll(coeffs[sh][pri]), name) == answer
  }

  // ---------------------------------------------------------------------------- try_salts

  const SALT_STEP := 0x9E37_79B9_7F4A_7C15

  function SaltForAttempt(attempt: nat): nat {
    if attempt == 0 then 0 else attempt * SALT_STEP % TWO_64
  }

  /** The attempts use different salts: the multiplier is a unit modulo 2^64. */
  lemma SaltsDiffer(a: nat, b: nat)
    requires a < TWO_64 && b < TWO_64 && SaltForAttempt(a) == SaltForAttempt(b)
    ensures a == b
  {
    hide Cong, SaltForAttempt;
    var inverse := 0xF1DE_83E1_9937_733D;
    SaltResidue(a);
    SaltResidue(b);
    UnitStep(inverse);
    CongMod(a * SALT_STEP, b * SALT_STEP, TWO_64);
    CongScale(inverse, a * SALT_STEP, b * SALT_STEP, TWO_64);
    Undo(a, inverse);
    Undo(b, inverse);
    CongSym(a * SALT_STEP * inverse, a, TWO_64);
    CongTrans(a, a * SALT_STEP * inverse, b * SALT_STEP * inverse, TWO_64);
    CongTrans(a, b * SALT_STEP * inverse, b, TWO_64);
    CongClose(a, b, TWO_64);
  }

  lemma UnitStep(inverse: nat)
    requires inverse == 0xF1DE_83E1_9937_733D
    ensures (SALT_STEP * inverse) % TWO_64 == 1
  {
  }

  lemma SaltResidue(a: nat)
    ensures SaltForAttempt(a) == a * SALT_STEP % TWO_64
  {
  }

  lemma Undo(a: nat, inverse: nat)
    requires (SALT_STEP * inverse) % TWO_64 == 1
    ensures Cong(a * SALT_STEP * inverse, a, TWO_64)
  {
    CongMod(SALT_STEP * inverse, 1, TWO_64);
    CongScale(a, SALT_STEP * inverse, 1, TWO_64);
    assert a * (SALT_STEP * inverse) == a * SALT_STEP * inverse;
  }

  /** try_salts around build_buckets: the index under the first global salt that works, with that salt. */
  method TrySalts(h: Hashes, zone: Zone, keys: seq<string>, n: nat, maxAttempts: nat) returns (r: Option<(Shards, nat)>)
    requires zone.Addresses() && Enumerates(keys, zone) && 1 <= n <= N * N
    ensures r.None? <==> forall a: nat :: a < maxAttempts ==> !Buildable(h, zone, keys, n, SaltForAttempt(a))
    ensures r.Some? ==> Index(h, zone, keys, n, r.value.1, r.value.0)
    ensures r.Some? ==> exists a: nat :: a < maxAttempts && r.value.1 == SaltForAttempt(a)
                          && forall b: nat :: b < a ==> !Buildable(h, zone, keys, n, SaltForAttempt(b))
  {
    hide Index, Buildable, SaltForAttempt, Zone.Addresses, Enumerates;
    for attempt := 0 to maxAttempts
      invariant forall a: nat :: a < attempt ==> !Buildable(h, zone, keys, n, SaltForAttempt(a))
    {
      var salt := SaltForAttempt(attempt);
      var built := BuildBuckets(h, zone, keys, n, salt);
      if built.Some? {
        return Some((built.value, salt));
      }
    }
    r := None;
  }
}
