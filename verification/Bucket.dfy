/** The byte layout of a bucket: salt, entry count, tagged entries; and its packing into 10-bit coefficients. */
module Bucket {
  import opened Arith
  import opened Addresses
  import opened Parameters

  const BUCKET_BYTES := 2560
  const FIRST_ENTRY_OFFSET := 6
  const DISC_LIMIT := 0x4000
  const MAX_ENTRIES_PER_BUCKET := 65535

  datatype Record = A(v4: Ip4) | Aaaa(v6: Ip6) | Ns(ip: Ip) {
    function Kind(): (k: nat)
      ensures k < 4
    {
      match this
      case A(_) => 0
      case Aaaa(_) => 1
      case Ns(V4(_)) => 2
      case Ns(V6(_)) => 3
    }

    function Octets(): Bytes {
      match this
      case A(ip) => ip.octets
      case Aaaa(ip) => ip.octets
      case Ns(ip) => ip.Octets()
    }

    predicate Valid() {
      |Octets()| == RdataBytes(Kind()) && AreBytes(Octets())
    }
  }

  function RdataBytes(kind: nat): (n: nat)
    requires kind < 4
    ensures n == 4 || n == 16
  {
    if kind % 2 == 0 then 4 else 16
  }

  /** The record of a kind with the given address bytes. */
  function RecordOf(kind: nat, octets: Bytes): Record
    requires kind < 4
  {
    if kind == 0 then A(Ip4(octets)) else if kind == 1 then Aaaa(Ip6(octets))
    else if kind == 2 then Ns(V4(Ip4(octets))) else Ns(V6(Ip6(octets)))
  }

  lemma RecordRebuilt(rec: Record)
    ensures RecordOf(rec.Kind(), rec.Octets()) == rec
  {
  }

  // ------------------------------------------------------------------------------ fields

  /** v in n little-endian bytes. */
  function LittleEndian(v: nat, n: nat): (b: Bytes)
    ensures |b| == n && AreBytes(b)
  {
    if n == 0 then [] else [v % 256] + LittleEndian(v / 256, n - 1)
  }

  function FromLittleEndian(b: Bytes): nat {
    if b == [] then 0 else b[0] + 256 * FromLittleEndian(b[1..])
  }

  function Pow256(n: nat): (p: nat)
    ensures p > 0
  {
    if n == 0 then 1 else 256 * Pow256(n - 1)
  }

  lemma {:induction false} LittleEndianRoundTrip(v: nat, n: nat)
    requires v < Pow256(n)
    ensures FromLittleEndian(LittleEndian(v, n)) == v
  {
    if n > 0 {
      LittleEndianRoundTrip(v / 256, n - 1);
      assert LittleEndian(v, n)[1..] == LittleEndian(v / 256, n - 1);
    }
  }

  lemma {:induction false} FromLittleEndianRoundTrip(b: Bytes)
    requires AreBytes(b)
    ensures FromLittleEndian(b) < Pow256(|b|)
    ensures LittleEndian(FromLittleEndian(b), |b|) == b
  {
    if b != [] {
      FromLittleEndianRoundTrip(b[1..]);
      var v := FromLittleEndian(b[1..]);
      DivModUnique(b[0] + 256 * v, 256, v, b[0]);
      assert [b[0]] + b[1..] == b;
    }
  }

  /** The tag holds the discriminator in its low 14 bits and the kind in the top two. */
  function PackTag(disc: nat, kind: nat): (b: Bytes)
    ensures |b| == 2 && AreBytes(b)
  {
    LittleEndian(disc % DISC_LIMIT + kind * DISC_LIMIT, 2)
  }

  function ParseTag(b: Bytes): (nat, nat) {
    var v := FromLittleEndian(b);
    (v % DISC_LIMIT, v / DISC_LIMIT)
  }

  lemma TagRoundTrip(disc: nat, kind: nat)
    requires disc < DISC_LIMIT && kind < 4
    ensures ParseTag(PackTag(disc, kind)) == (disc, kind)
  {
    hide LittleEndian, FromLittleEndian, Pow256;
    TwoBytesRange();
    LittleEndianRoundTrip(disc + kind * DISC_LIMIT, 2);
    DivModUnique(disc + kind * DISC_LIMIT, DISC_LIMIT, kind, disc);
  }

  lemma TwoBytesRange()
    ensures Pow256(2) == 65536
  {
    assert Pow256(1) == 256;
  }

  // ------------------------------------------------------------------------------ layout

  datatype Entry = Entry(disc: nat, rec: Record) {
    predicate Valid() {
      disc < DISC_LIMIT && rec.Valid()
    }

    function Bytes(): Bytes {
      PackTag(disc, rec.Kind()) + rec.Octets()
    }
  }

  function Encoded(entries: seq<Entry>): Bytes {
    if entries == [] then [] else Encoded(entries[..|entries| - 1]) + entries[|entries| - 1].Bytes()
  }

  /** The bucket consists of the salt, the number of entries and the entries, up to pos. */
  ghost predicate Holds(bucket: Bytes, salt: nat, entries: seq<Entry>, pos: nat) {
    && |bucket| == BUCKET_BYTES && AreBytes(bucket) && salt < Pow256(4) && |entries| <= MAX_ENTRIES_PER_BUCKET
    && (forall i :: 0 <= i < |entries| ==> entries[i].Valid())
    && pos == FIRST_ENTRY_OFFSET + |Encoded(entries)| <= BUCKET_BYTES
    && bucket[..4] == LittleEndian(salt, 4)
    && bucket[4..6] == LittleEndian(|entries|, 2)
    && bucket[6..pos] == Encoded(entries)
  }

  function EntrySize(rec: Record): (n: nat)
    ensures n == if rec.A? || (rec.Ns? && rec.ip.V4?) then 6 else 18
  {
    2 + RdataBytes(rec.Kind())
  }

  /** Nothing is written from pos on. */
  ghost predicate ZerosFrom(bucket: Bytes, pos: nat) {
    forall i :: pos <= i < |bucket| ==> bucket[i] == 0
  }

  lemma AppendedZeros(bucket: Bytes, pos: nat, count: nat, entry: Entry)
    requires |bucket| == BUCKET_BYTES && 6 <= pos && pos + |entry.Bytes()| <= BUCKET_BYTES
    ensures ZerosFrom(bucket, pos) ==> ZerosFrom(Appended(bucket, pos, count, entry), pos + |entry.Bytes()|)
  {
    hide LittleEndian, Entry.Bytes;
    var after, next := Appended(bucket, pos, count, entry), pos + |entry.Bytes()|;
    assert after[next..] == bucket[next..];
    forall i | next <= i < |after|
      ensures after[i] == bucket[i]
    {
      assert after[i] == after[next..][i - next];
    }
  }

  /** What the bucket becomes by appending one entry. */
  function Appended(bucket: Bytes, pos: nat, count: nat, entry: Entry): Bytes
    requires |bucket| == BUCKET_BYTES && 6 <= pos && pos + |entry.Bytes()| <= BUCKET_BYTES
  {
    bucket[..4] + LittleEndian(count, 2) + bucket[6..pos] + entry.Bytes() + bucket[pos + |entry.Bytes()|..]
  }

  lemma SizeOfEntry(entry: Entry)
    requires entry.Valid()
    ensures |entry.Bytes()| == EntrySize(entry.rec)
  {
  }

  /** A bucket with n entries has at least 6n bytes of entries, so the count field cannot overflow. */
  lemma {:induction false} EntriesNeedSpace(entries: seq<Entry>)
    requires forall i :: 0 <= i < |entries| ==> entries[i].Valid()
    ensures |Encoded(entries)| >= 6 * |entries|
  {
    if entries != [] {
      EntriesNeedSpace(entries[..|entries| - 1]);
      SizeOfEntry(entries[|entries| - 1]);
    }
  }

  lemma EntryAreBytes(entry: Entry)
    requires entry.Valid()
    ensures AreBytes(entry.Bytes())
  {
  }

  /** Appending keeps the layout. */
  lemma AppendKeepsLayout(bucket: Bytes, salt: nat, entries: seq<Entry>, pos: nat, entry: Entry)
    requires Holds(bucket, salt, entries, pos) && entry.Valid()
    requires pos + |entry.Bytes()| <= BUCKET_BYTES
    ensures Holds(Appended(bucket, pos, |entries| + 1, entry), salt, entries + [entry], pos + |entry.Bytes()|)
  {
    hide LittleEndian, Entry.Bytes, Pow256, AreBytes, Entry.Valid;
    var after := Appended(bucket, pos, |entries| + 1, entry);
    var more := entries + [entry];
    EntriesNeedSpace(entries);
    assert more[..|more| - 1] == entries;
    assert Encoded(more) == Encoded(entries) + entry.Bytes();
    var size := |entry.Bytes()|;
    var head, count, body := bucket[..4], LittleEndian(|more|, 2), bucket[6..pos];
    assert after[..4] == head;
    assert after[4..6] == count;
    assert after[6..pos + size] == body + entry.Bytes();
    EntryAreBytes(entry);
    SlicesAreBytes(bucket, 0, 4);
    SlicesAreBytes(bucket, 6, pos);
    SlicesAreBytes(bucket, pos + size, |bucket|);
    assert bucket[0..4] == head && bucket[pos + size..|bucket|] == bucket[pos + size..];
    JoinedAreBytes(head, count);
    JoinedAreBytes(head + count, body);
    JoinedAreBytes(head + count + body, entry.Bytes());
    JoinedAreBytes(head + count + body + entry.Bytes(), bucket[pos + size..]);
  }

  lemma SlicesAreBytes(s: Bytes, i: nat, j: nat)
    requires i <= j <= |s| && AreBytes(s)
    ensures AreBytes(s[i..j])
  {
  }

  lemma JoinedAreBytes(x: Bytes, y: Bytes)
    requires AreBytes(x) && AreBytes(y)
    ensures AreBytes(x + y)
  {
  }

  datatype BucketError = TooManyEntries | Overflow

  datatype AppendResult = Ok(pos: nat) | Err(error: BucketError)

  /** append_entry: refuses what does not fit and leaves the bucket alone, else extends the layout by the entry. */
  method AppendEntry(bucket: array<nat>, pos: nat, disc: nat, rec: Record, ghost salt: nat, ghost entries: seq<Entry>)
    returns (r: AppendResult)
    requires bucket.Length == BUCKET_BYTES && Holds(bucket[..], salt, entries, pos)
    requires Entry(disc, rec).Valid()
    modifies bucket
    ensures r.Ok? <==> pos + EntrySize(rec) <= BUCKET_BYTES
    ensures r.Ok? ==> r.pos == pos + EntrySize(rec)
                      && Holds(bucket[..], salt, entries + [Entry(disc, rec)], r.pos)
    ensures r.Ok? && ZerosFrom(old(bucket[..]), pos) ==> ZerosFrom(bucket[..], r.pos)
    ensures r.Err? ==> bucket[..] == old(bucket[..]) && r.error == Overflow
  {
    hide Holds, LittleEndian, FromLittleEndian, Entry.Bytes, Entry.Valid, PackTag, Pow256, Appended, ZerosFrom;
    var entry := Entry(disc, rec);
    SizeOfEntry(entry);
    CountRead(bucket[..], salt, entries, pos);
    var count := FromLittleEndian(bucket[4..6]);
    assert bucket[4..6] == bucket[..][4..6];
    if count >= MAX_ENTRIES_PER_BUCKET {
      assert false;
      return Err(TooManyEntries);
    }
    var size := EntrySize(rec);
    if pos + size > BUCKET_BYTES {
      return Err(Overflow);
    }
    AppendKeepsLayout(bucket[..], salt, entries, pos, entry);
    AppendedZeros(bucket[..], pos, count + 1, entry);
    WriteEntry(bucket, pos, count + 1, entry);
    r := Ok(pos + size);
  }

  /** The two writes: tag and rdata at pos, then the count. */
  method WriteEntry(bucket: array<nat>, pos: nat, count: nat, entry: Entry)
    requires bucket.Length == BUCKET_BYTES && 6 <= pos && pos + |entry.Bytes()| <= BUCKET_BYTES
    modifies bucket
    ensures bucket[..] == Appended(old(bucket[..]), pos, count, entry)
  {
    hide LittleEndian, Entry.Bytes;
    ghost var was := bucket[..];
    var bytes := entry.Bytes();
    CopyInto(bucket, pos, bytes);
    ghost var middle := bucket[..];
    CopyInto(bucket, 4, LittleEndian(count, 2));
    assert middle[..4] == was[..4];
    assert middle[6..] == was[6..pos] + bytes + was[pos + |bytes|..];
  }

  lemma CountRead(bucket: Bytes, salt: nat, entries: seq<Entry>, pos: nat)
    requires Holds(bucket, salt, entries, pos)
    ensures |bucket| == BUCKET_BYTES && 6 <= pos && |entries| < MAX_ENTRIES_PER_BUCKET
    ensures FromLittleEndian(bucket[4..6]) == |entries|
    ensures FromLittleEndian(bucket[..4]) == salt
  {
    assert Pow256(2) == 65536 by {
      assert Pow256(1) == 256;
    }
    EntriesNeedSpace(entries);
    LittleEndianRoundTrip(|entries|, 2);
    LittleEndianRoundTrip(salt, 4);
  }

  /** copy_from_slice. */
  method CopyInto(a: array<nat>, start: nat, s: Bytes)
    requires start + |s| <= a.Length
    modifies a
    ensures a[..] == old(a[..start]) + s + old(a[start + |s|..])
  {
    ghost var was := a[..];
    for i := 0 to |s|
      invariant forall x :: 0 <= x < i ==> a[start + x] == s[x]
      invariant forall x :: 0 <= x < start || start + i <= x < a.Length ==> a[x] == was[x]
    {
      a[start + i] := s[i];
    }
    assert a[start..start + |s|] == s;
    assert a[..start] == was[..start] && a[start + |s|..] == was[start + |s|..];
    assert a[..] == a[..start] + a[start..start + |s|] + a[start + |s|..];
  }

  // ---------------------------------------------------------------------------- decoding

  /** decode_bucket_matching from one position on: unknown kinds and truncated entries end the list. */
  function DecodeFrom(bucket: Bytes, pos: nat, count: nat, want: nat): (out: seq<Record>)
    requires |bucket| == BUCKET_BYTES
    decreases count
  {
    if count == 0 || pos + 2 > BUCKET_BYTES then []
    else
      var (disc, kind) := ParseTag(bucket[pos..pos + 2]);
      if kind >= 4 || pos + 2 + RdataBytes(kind) > BUCKET_BYTES then []
      else
        var next := pos + 2 + RdataBytes(kind);
        (if disc == want then [RecordOf(kind, bucket[pos + 2..next])] else []) + DecodeFrom(bucket, next, count - 1, want)
  }

  method DecodeBucketMatching(bucket: Bytes, want: nat) returns (out: seq<Record>)
    requires |bucket| == BUCKET_BYTES
    ensures out == DecodeFrom(bucket, FIRST_ENTRY_OFFSET, FromLittleEndian(bucket[4..6]), want)
  {
    hide FromLittleEndian, ParseTag, DecodeFrom, RecordOf, RdataBytes;
    var count := FromLittleEndian(bucket[4..6]);
    out := [];
    var pos: nat := FIRST_ENTRY_OFFSET;
    var i := 0;
    while i < count
      invariant 0 <= i <= count
      invariant out + DecodeFrom(bucket, pos, count - i, want) == DecodeFrom(bucket, FIRST_ENTRY_OFFSET, count, want)
    {
      DecodeStep(bucket, pos, count - i, want);
      if pos + 2 > BUCKET_BYTES {
        return;
      }
      var (disc, kind) := ParseTag(bucket[pos..pos + 2]);
      if kind >= 4 {
        return;
      }
      var body := RdataBytes(kind);
      if pos + 2 + body > BUCKET_BYTES {
        return;
      }
      if disc == want {
        out := out + [RecordOf(kind, bucket[pos + 2..pos + 2 + body])];
      }
      pos := pos + 2 + body;
      i := i + 1;
    }
    assert DecodeFrom(bucket, pos, 0, want) == [] by {
      DecodeNothing(bucket, pos, want);
    }
  }

  lemma DecodeNothing(bucket: Bytes, pos: nat, want: nat)
    requires |bucket| == BUCKET_BYTES
    ensures DecodeFrom(bucket, pos, 0, want) == []
  {
  }

  lemma DecodeStep(bucket: Bytes, pos: nat, n: nat, want: nat)
    requires |bucket| == BUCKET_BYTES && n > 0
    ensures pos + 2 > BUCKET_BYTES ==> DecodeFrom(bucket, pos, n, want) == []
    ensures pos + 2 <= BUCKET_BYTES ==>
              var (disc, kind) := ParseTag(bucket[pos..pos + 2]);
              if kind >= 4 || pos + 2 + RdataBytes(kind) > BUCKET_BYTES then DecodeFrom(bucket, pos, n, want) == []
              else var next := pos + 2 + RdataBytes(kind);
                   DecodeFrom(bucket, pos, n, want)
                   == (if disc == want then [RecordOf(kind, bucket[pos + 2..next])] else [])
                      + DecodeFrom(bucket, next, n - 1, want)
  {
    hide ParseTag, RecordOf;
  }

  /** The records stored under one discriminator, in order. */
  function Matching(entries: seq<Entry>, want: nat): seq<Record> {
    if entries == [] then []
    else (if entries[0].disc == want then [entries[0].rec] else []) + Matching(entries[1..], want)
  }

  /** The encoding of the first k entries is a prefix, followed by entry k. */
  lemma {:induction false} EncodedPrefix(entries: seq<Entry>, k: nat)
    requires k < |entries|
    ensures |Encoded(entries[..k])| + |entries[k].Bytes()| <= |Encoded(entries)|
    ensures Encoded(entries)[|Encoded(entries[..k])|..|Encoded(entries[..k])| + |entries[k].Bytes()|] == entries[k].Bytes()
    ensures |Encoded(entries[..k + 1])| == |Encoded(entries[..k])| + |entries[k].Bytes()|
    decreases |entries|
  {
    hide Entry.Bytes;
    var n := |entries| - 1;
    assert entries[..k + 1][..k] == entries[..k];
    if k < n {
      EncodedPrefix(entries[..n], k);
      assert entries[..n][..k] == entries[..k];
    }
  }

  lemma SliceOfSlice<T>(s: seq<T>, i: nat, j: nat, a: nat, b: nat)
    requires i <= j <= |s| && a <= b <= j - i
    ensures s[i..j][a..b] == s[i + a..i + b]
  {
    var x, y := s[i..j][a..b], s[i + a..i + b];
    assert forall k :: 0 <= k < b - a ==> x[k] == s[i + a + k] && y[k] == s[i + a + k];
  }

  lemma OneEntry(bucket: Bytes, salt: nat, entries: seq<Entry>, pos: nat, k: nat)
    requires Holds(bucket, salt, entries, pos) && k < |entries|
    ensures var at := FIRST_ENTRY_OFFSET + |Encoded(entries[..k])|;
            var next := FIRST_ENTRY_OFFSET + |Encoded(entries[..k + 1])|;
            && next == at + EntrySize(entries[k].rec) <= BUCKET_BYTES
            && ParseTag(bucket[at..at + 2]) == (entries[k].disc, entries[k].rec.Kind())
            && bucket[at + 2..next] == entries[k].rec.Octets()
  {
    hide PackTag, ParseTag, LittleEndian, Pow256, Encoded, FromLittleEndian, Entry.Bytes, Holds, Entry.Valid;
    var e := entries[k];
    var from := |Encoded(entries[..k])|;
    var size := |e.Bytes()|;
    EntryInside(bucket, salt, entries, pos, k);
    SizeOfEntry(e);
    BytesOf(e);
    TagRoundTrip(e.disc, e.rec.Kind());
    SliceOfSlice(bucket, 6 + from, 6 + from + size, 0, 2);
    SliceOfSlice(bucket, 6 + from, 6 + from + size, 2, size);
    assert bucket[6 + from..6 + from + size] == e.Bytes();
  }

  lemma EntryInside(bucket: Bytes, salt: nat, entries: seq<Entry>, pos: nat, k: nat)
    requires Holds(bucket, salt, entries, pos) && k < |entries|
    ensures var from, size := |Encoded(entries[..k])|, |entries[k].Bytes()|;
            && entries[k].Valid() && 6 + from + size <= |bucket| == BUCKET_BYTES
            && bucket[6 + from..6 + from + size] == entries[k].Bytes()
            && |Encoded(entries[..k + 1])| == from + size
  {
    hide LittleEndian, Pow256, Encoded, Entry.Bytes, Entry.Valid;
    EncodedPrefix(entries, k);
    SliceOfSlice(bucket, 6, pos, |Encoded(entries[..k])|, |Encoded(entries[..k])| + |entries[k].Bytes()|);
  }

  lemma BytesOf(e: Entry)
    requires e.Valid()
    ensures e.Bytes()[0..2] == PackTag(e.disc, e.rec.Kind())
    ensures e.Bytes()[2..|e.Bytes()|] == e.rec.Octets()
    ensures e.disc < DISC_LIMIT
  {
    hide PackTag;
  }

  lemma {:induction false} DecodeSuffix(bucket: Bytes, salt: nat, entries: seq<Entry>, pos: nat, k: nat, want: nat)
    requires Holds(bucket, salt, entries, pos) && k <= |entries|
    ensures DecodeFrom(bucket, FIRST_ENTRY_OFFSET + |Encoded(entries[..k])|, |entries| - k, want)
            == Matching(entries[k..], want)
    decreases |entries| - k
  {
    hide Holds, ParseTag, Encoded, Entry.Bytes;
    if k < |entries| {
      BucketSize(bucket, salt, entries, pos);
      OneEntry(bucket, salt, entries, pos, k);
      RecordRebuilt(entries[k].rec);
      DecodeSuffix(bucket, salt, entries, pos, k + 1, want);
      assert entries[k..][1..] == entries[k + 1..];
    }
  }

  lemma BucketSize(bucket: Bytes, salt: nat, entries: seq<Entry>, pos: nat)
    requires Holds(bucket, salt, entries, pos)
    ensures |bucket| == BUCKET_BYTES
  {
  }

  /** A reader of a bucket gets its salt back, and under each discriminator exactly the records stored with it. */
  lemma ReadBucket(bucket: Bytes, salt: nat, entries: seq<Entry>, pos: nat, want: nat)
    requires Holds(bucket, salt, entries, pos)
    ensures |bucket| == BUCKET_BYTES && FromLittleEndian(bucket[..4]) == salt
    ensures DecodeFrom(bucket, FIRST_ENTRY_OFFSET, FromLittleEndian(bucket[4..6]), want) == Matching(entries, want)
  {
    CountRead(bucket, salt, entries, pos);
    DecodeSuffix(bucket, salt, entries, pos, 0, want);
    assert entries[..0] == [] && entries[0..] == entries;
  }

  /** write_bucket_salt on an empty bucket. */
  lemma EmptyBucket(bucket: Bytes, salt: nat)
    requires |bucket| == BUCKET_BYTES && salt < Pow256(4)
    requires bucket[..4] == LittleEndian(salt, 4) && forall i :: 4 <= i < BUCKET_BYTES ==> bucket[i] == 0
    ensures Holds(bucket, salt, [], FIRST_ENTRY_OFFSET)
  {
    assert LittleEndian(0, 2) == [0, 0] by {
      assert LittleEndian(0, 1) == [0];
    }
    assert bucket[6..6] == [];
    assert bucket == bucket[..4] + bucket[4..];
  }

  // ------------------------------------------------------------------------ coefficients

  /** Five bytes as four 10-bit values and back, through one 40-bit number. */
  function GroupCoeffs(b: Bytes): (c: seq<nat>)
    ensures |c| == 4 && forall i :: 0 <= i < 4 ==> c[i] < 1024
  {
    var v := FromLittleEndian(b);
    [v % 1024, v / 1024 % 1024, v / 0x10_0000 % 1024, v / 0x4000_0000 % 1024]
  }

  function GroupBytes(c: seq<nat>): (b: Bytes)
    requires |c| == 4
    ensures |b| == 5 && AreBytes(b)
  {
    LittleEndian(c[0] % 1024 + 1024 * (c[1] % 1024) + 0x10_0000 * (c[2] % 1024) + 0x4000_0000 * (c[3] % 1024), 5)
  }

  lemma FourParts(v: nat)
    requires v < 0x100_0000_0000
    ensures v % 1024 + 1024 * (v / 1024 % 1024) + 0x10_0000 * (v / 0x10_0000 % 1024) + 0x4000_0000 * (v / 0x4000_0000 % 1024) == v
  {
    var a, x := Split(v, 1024);
    var b, y := Split(x, 1024);
    var c, z := Split(y, 1024);
    DivModUnique(v, 0x10_0000, y, a + 1024 * b);
    DivModUnique(v, 0x4000_0000, z, a + 1024 * b + 0x10_0000 * c);
    DivModUnique(z, 1024, 0, z);
  }

  lemma PartsOfFour(a: nat, b: nat, c: nat, d: nat)
    requires a < 1024 && b < 1024 && c < 1024 && d < 1024
    ensures var v := a + 1024 * b + 0x10_0000 * c + 0x4000_0000 * d;
            && v < 0x100_0000_0000 && v % 1024 == a && v / 1024 % 1024 == b
            && v / 0x10_0000 % 1024 == c && v / 0x4000_0000 % 1024 == d
  {
    var v := a + 1024 * b + 0x10_0000 * c + 0x4000_0000 * d;
    DivModUnique(v, 1024, b + 1024 * c + 0x10_0000 * d, a);
    DivModUnique(b + 1024 * c + 0x10_0000 * d, 1024, c + 1024 * d, b);
    DivModUnique(v, 0x10_0000, c + 1024 * d, a + 1024 * b);
    DivModUnique(c + 1024 * d, 1024, d, c);
    DivModUnique(v, 0x4000_0000, d, a + 1024 * b + 0x10_0000 * c);
    DivModUnique(d, 1024, 0, d);
  }

  lemma FivePowers()
    ensures Pow256(5) == 0x100_0000_0000 && Pow256(4) == 0x1_0000_0000
  {
    assert Pow256(1) == 256;
    assert Pow256(2) == 65536;
    assert Pow256(3) == 0x100_0000;
  }

  /** Five bytes survive the packing into four coefficients. */
  lemma GroupBytesRoundTrip(b: Bytes)
    requires |b| == 5 && AreBytes(b)
    ensures GroupBytes(GroupCoeffs(b)) == b
  {
    FivePowers();
    FromLittleEndianRoundTrip(b);
    var v := FromLittleEndian(b);
    FourParts(v);
    var c := GroupCoeffs(b);
    hide Pow256, LittleEndian, FromLittleEndian;
    SmallResidues(c);
  }

  lemma SmallResidues(c: seq<nat>)
    requires forall i :: 0 <= i < |c| ==> c[i] < 1024
    ensures forall i :: 0 <= i < |c| ==> c[i] % 1024 == c[i]
  {
  }

  lemma GroupCoeffsRoundTrip(c: seq<nat>)
    requires |c| == 4 && forall i :: 0 <= i < 4 ==> c[i] < 1024
    ensures GroupCoeffs(GroupBytes(c)) == c
  {
    FivePowers();
    PartsOfFour(c[0], c[1], c[2], c[3]);
    SmallResidues(c);
    LittleEndianRoundTrip(c[0] + 1024 * c[1] + 0x10_0000 * c[2] + 0x4000_0000 * c[3], 5);
    hide Pow256, LittleEndian, FromLittleEndian;
  }

  function PackAll(b: Bytes): (c: seq<nat>)
    requires |b| % 5 == 0
    ensures |c| == |b| / 5 * 4 && forall i :: 0 <= i < |c| ==> c[i] < 1024
    decreases |b|
  {
    if b == [] then [] else
      assert |b| >= 5;
      PackAll(b[..|b| - 5]) + GroupCoeffs(b[|b| - 5..])
  }

  function UnpackAll(c: seq<nat>): (b: Bytes)
    requires |c| % 4 == 0
    ensures |b| == |c| / 4 * 5 && AreBytes(b)
    decreases |c|
  {
    if c == [] then [] else
      assert |c| >= 4;
      UnpackAll(c[..|c| - 4]) + GroupBytes(c[|c| - 4..])
  }

  /** Whatever bytes a bucket holds, the client gets them back from the coefficients. */
  lemma {:induction false} PackRoundTrip(b: Bytes)
    requires |b| % 5 == 0 && AreBytes(b)
    ensures UnpackAll(PackAll(b)) == b
    decreases |b|
  {
    hide GroupCoeffs, GroupBytes;
    if b != [] {
      var n := |b| - 5;
      PackRoundTrip(b[..n]);
      GroupBytesRoundTrip(b[n..]);
      var c := PackAll(b);
      assert c[..|c| - 4] == PackAll(b[..n]) && c[|c| - 4..] == GroupCoeffs(b[n..]);
    }
  }

  lemma {:induction false} UnpackRoundTrip(c: seq<nat>)
    requires |c| % 4 == 0 && forall i :: 0 <= i < |c| ==> c[i] < 1024
    ensures PackAll(UnpackAll(c)) == c
    decreases |c|
  {
    hide GroupCoeffs, GroupBytes;
    if c != [] {
      var n := |c| - 4;
      UnpackRoundTrip(c[..n]);
      GroupCoeffsRoundTrip(c[n..]);
      var b := UnpackAll(c);
      assert b[..|b| - 5] == UnpackAll(c[..n]) && b[|b| - 5..] == GroupBytes(c[n..]);
    }
  }

  /** pack_bytes_into_coeffs. */
  method PackBytesIntoCoeffs(bucket: Bytes) returns (out: array<nat>)
    requires |bucket| == BUCKET_BYTES && AreBytes(bucket)
    ensures fresh(out) && out[..] == PackAll(bucket)
  {
    hide GroupCoeffs, PackAll, AreBytes;
    out := new nat[N](i => 0);
    NoGroups();
    assert bucket[..0] == [] && out[..0] == [];
    for g := 0 to N / 4
      invariant out[..g * 4] == PackAll(bucket[..g * 5])
    {
      var group := bucket[g * 5..g * 5 + 5];
      ghost var done := out[..g * 4];
      CopyInto(out, g * 4, GroupCoeffs(group));
      assert bucket[..g * 5 + 5] == bucket[..g * 5] + group;
      PackGroup(bucket[..g * 5], group);
      assert out[..g * 4 + 4] == done + GroupCoeffs(group);
    }
    assert bucket[..BUCKET_BYTES] == bucket;
    assert out[..N] == out[..];
  }

  lemma NoGroups()
    ensures PackAll([]) == [] && UnpackAll([]) == []
  {
  }

  lemma PackGroup(b: Bytes, group: Bytes)
    requires |b| % 5 == 0 && |group| == 5
    ensures PackAll(b + group) == PackAll(b) + GroupCoeffs(group)
  {
    hide GroupCoeffs;
    var all := b + group;
    assert all[..|all| - 5] == b && all[|all| - 5..] == group;
  }

  lemma UnpackGroup(c: seq<nat>, group: seq<nat>)
    requires |c| % 4 == 0 && |group| == 4
    ensures UnpackAll(c + group) == UnpackAll(c) + GroupBytes(group)
  {
    hide GroupBytes;
    var all := c + group;
    assert all[..|all| - 4] == c && all[|all| - 4..] == group;
  }

  /** unpack_coeffs_into_bytes. */
  method UnpackCoeffsIntoBytes(coeffs: seq<nat>) returns (out: array<nat>)
    requires |coeffs| == N
    ensures fresh(out) && out[..] == UnpackAll(coeffs)
  {
    hide GroupBytes, UnpackAll, AreBytes;
    out := new nat[BUCKET_BYTES](i => 0);
    NoGroups();
    assert coeffs[..0] == [] && out[..0] == [];
    for g := 0 to N / 4
      invariant out[..g * 5] == UnpackAll(coeffs[..g * 4])
    {
      var group := coeffs[g * 4..g * 4 + 4];
      ghost var done := out[..g * 5];
      CopyInto(out, g * 5, GroupBytes(group));
      assert coeffs[..g * 4 + 4] == coeffs[..g * 4] + group;
      UnpackGroup(coeffs[..g * 4], group);
      assert out[..g * 5 + 5] == done + GroupBytes(group);
    }
    assert coeffs[..N] == coeffs;
    assert out[..BUCKET_BYTES] == out[..];
  }
}
