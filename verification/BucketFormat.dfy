/** The bytes of a bucket at their offsets, reading of arbitrary buckets, and the bits of the packed coefficients. */
module BucketFormat {
  import opened Arith
  import opened Addresses
  import opened Parameters
  import opened Bucket

  // ---------------------------------------------------------------------------- the fields

  lemma TwoBytes(v: nat)
    ensures LittleEndian(v, 2) == [v % 256, v / 256 % 256]
  {
    assert LittleEndian(v / 256 / 256, 0) == [];
    assert LittleEndian(v / 256, 1) == [v / 256 % 256];
  }

  lemma FourBytes(b: Bytes)
    requires |b| == 4
    ensures FromLittleEndian(b) == b[0] + 0x100 * b[1] + 0x1_0000 * b[2] + 0x100_0000 * b[3]
  {
    var x, y, z := b[1..], b[2..], b[3..];
    assert x[1..] == y && y[1..] == z && z[1..] == [];
    assert FromLittleEndian(z) == b[3];
    assert FromLittleEndian(y) == b[2] + 0x100 * b[3];
    assert FromLittleEndian(x) == b[1] + 0x100 * (b[2] + 0x100 * b[3]);
  }

  lemma FiveBytes(b: Bytes)
    requires |b| == 5
    ensures FromLittleEndian(b) == b[0] + 0x100 * b[1] + 0x1_0000 * b[2] + 0x100_0000 * b[3] + 0x1_0000_0000 * b[4]
  {
    FourBytes(b[1..]);
  }

  lemma TwoBytesValue(b: Bytes)
    requires |b| == 2
    ensures FromLittleEndian(b) == b[0] + 0x100 * b[1]
  {
    assert b[1..][1..] == [];
    assert FromLittleEndian(b[1..]) == b[1];
  }

  /** The number of a kind of record on the wire. */
  function KindNumber(rec: Record): nat {
    match rec
    case A(_) => 0
    case Aaaa(_) => 1
    case Ns(V4(_)) => 2
    case Ns(V6(_)) => 3
  }

  function AddressBytes(rec: Record): Bytes {
    match rec
    case A(ip) => ip.octets
    case Aaaa(ip) => ip.octets
    case Ns(V4(ip)) => ip.octets
    case Ns(V6(ip)) => ip.octets
  }

  /** Where entry k starts: behind the six bytes of the header and the entries before it. */
  function EntryStart(entries: seq<Entry>, k: nat): nat
    requires k <= |entries|
  {
    if k == 0 then 6
    else EntryStart(entries, k - 1) + 2 + |AddressBytes(entries[k - 1].rec)|
  }

  /** An entry: its discriminator in the low 14 bits of two bytes, low byte first, and its kind in the top two; then
   *  the address. */
  ghost predicate EntryBytes(bucket: Bytes, at: nat, e: Entry) {
    var size := |AddressBytes(e.rec)|;
    && at + 2 + size <= |bucket| && e.disc < 0x4000 && KindNumber(e.rec) < 4
    && bucket[at] + 0x100 * bucket[at + 1] == e.disc + 0x4000 * KindNumber(e.rec)
    && bucket[at + 2..at + 2 + size] == AddressBytes(e.rec)
  }

  /** A bucket that holds a salt and some entries: the salt in bytes 0 to 3 and the count in bytes 4 and 5, low byte
   *  first, and the entries one after the other. */
  lemma BucketLayout(bucket: Bytes, salt: nat, entries: seq<Entry>, pos: nat)
    requires Holds(bucket, salt, entries, pos)
    ensures |bucket| == 2560
    ensures bucket[0] + 0x100 * bucket[1] + 0x1_0000 * bucket[2] + 0x100_0000 * bucket[3] == salt
    ensures bucket[4] + 0x100 * bucket[5] == |entries|
    ensures forall k :: 0 <= k < |entries| ==> EntryBytes(bucket, EntryStart(entries, k), entries[k])
    ensures EntryStart(entries, |entries|) == pos
  {
    hide Encoded, Entry.Bytes, Pow256, LittleEndian, FromLittleEndian, EntryBytes, EntryStart;
    BucketSize(bucket, salt, entries, pos);
    CountRead(bucket, salt, entries, pos);
    FourBytes(bucket[..4]);
    TwoBytesValue(bucket[4..6]);
    forall k | 0 <= k < |entries|
      ensures EntryBytes(bucket, EntryStart(entries, k), entries[k])
    {
      EntryAt(bucket, salt, entries, pos, k);
    }
    StartIs(entries, |entries|);
    assert entries[..|entries|] == entries;
  }

  lemma {:induction false} StartIs(entries: seq<Entry>, k: nat)
    requires k <= |entries| && forall i :: 0 <= i < |entries| ==> entries[i].Valid()
    ensures EntryStart(entries, k) == 6 + |Encoded(entries[..k])|
  {
    hide Entry.Bytes;
    if k > 0 {
      StartIs(entries, k - 1);
      assert entries[..k][..k - 1] == entries[..k - 1];
      SizeOfEntry(entries[k - 1]);
      SameKind(entries[k - 1]);
    }
  }

  lemma SameKind(e: Entry)
    requires e.Valid()
    ensures KindNumber(e.rec) == e.rec.Kind() && AddressBytes(e.rec) == e.rec.Octets()
    ensures 2 + |AddressBytes(e.rec)| == EntrySize(e.rec) && e.disc < 0x4000
  {
  }

  lemma EntryAt(bucket: Bytes, salt: nat, entries: seq<Entry>, pos: nat, k: nat)
    requires Holds(bucket, salt, entries, pos) && k < |entries|
    ensures EntryBytes(bucket, EntryStart(entries, k), entries[k])
  {
    hide Encoded, Pow256, LittleEndian, FromLittleEndian, EntryStart, Holds, PackTag, ParseTag, Entry.Bytes;
    EntriesValid(bucket, salt, entries, pos);
    var e := entries[k];
    OneEntry(bucket, salt, entries, pos, k);
    EntryInside(bucket, salt, entries, pos, k);
    StartIs(entries, k);
    SameKind(e);
    var at := EntryStart(entries, k);
    TagBytes(bucket[at..at + 2], e.disc, e.rec.Kind());
  }

  lemma EntriesValid(bucket: Bytes, salt: nat, entries: seq<Entry>, pos: nat)
    requires Holds(bucket, salt, entries, pos)
    ensures |bucket| == 2560 && forall i :: 0 <= i < |entries| ==> entries[i].Valid()
  {
  }

  /** The number in a tag. */
  lemma TagBytes(b: Bytes, disc: nat, kind: nat)
    requires |b| == 2 && ParseTag(b) == (disc, kind)
    ensures b[0] + 0x100 * b[1] == disc + 0x4000 * kind
  {
    TwoBytesValue(b);
    hide FromLittleEndian;
    var r, q := Split(FromLittleEndian(b), 0x4000);
  }

  // --------------------------------------------------------------------- arbitrary buckets

  /** The number at a position, and the address length that its kind announces. */
  function TagAt(bucket: Bytes, at: nat): nat
    requires at + 2 <= |bucket|
  {
    bucket[at] + 0x100 * bucket[at + 1]
  }

  function Announced(tag: nat): nat {
    if tag / 0x4000 % 2 == 0 then 4 else 16
  }

  /** The entries of any bucket, whatever its bytes: as many as its count says, or up to the first that would not fit. */
  ghost predicate Contains(bucket: Bytes, count: nat, entries: seq<Entry>) {
    && |bucket| == 2560 && |entries| <= count
    && (forall k :: 0 <= k < |entries| ==>
          entries[k].Valid() && EntryBytes(bucket, EntryStart(entries, k), entries[k]))
    && (|entries| == count || Cut(bucket, EntryStart(entries, |entries|)))
  }

  /** No entry fits at a position. */
  predicate Cut(bucket: Bytes, at: nat)
    requires |bucket| == 2560
  {
    at + 2 > 2560 || at + 2 + Announced(TagAt(bucket, at)) > 2560
  }

  lemma TagParts(bucket: Bytes, at: nat)
    requires |bucket| == 2560 && at + 2 <= 2560 && AreBytes(bucket)
    ensures var (disc, kind) := ParseTag(bucket[at..at + 2]);
            && disc < 0x4000 && kind < 4 && TagAt(bucket, at) == disc + 0x4000 * kind
            && Announced(TagAt(bucket, at)) == RdataBytes(kind)
  {
    TwoBytesValue(bucket[at..at + 2]);
    hide FromLittleEndian;
    var r, q := Split(TagAt(bucket, at), 0x4000);
  }

  lemma {:induction false} DecodeContained(bucket: Bytes, count: nat, entries: seq<Entry>, k: nat, want: nat)
    requires AreBytes(bucket) && Contains(bucket, count, entries) && k <= |entries|
    ensures DecodeFrom(bucket, EntryStart(entries, k), count - k, want) == Matching(entries[k..], want)
    decreases |entries| - k
  {
    hide ParseTag, Entry.Valid, AreBytes, Announced, TagAt, EntryStart, EntryBytes;
    var at := EntryStart(entries, k);
    if k < |entries| {
      var e := entries[k];
      EntryFits(bucket, at, e);
      NextStart(entries, k);
      DecodeContained(bucket, count, entries, k + 1, want);
      assert entries[k..][1..] == entries[k + 1..];
      RecordRebuilt(e.rec);
      SameKind(e);
      DecodeStep(bucket, at, count - k, want);
    } else if k < count {
      if at + 2 <= 2560 {
        TagParts(bucket, at);
      }
      DecodeStep(bucket, at, count - k, want);
    } else {
      DecodeNothing(bucket, at, want);
    }
  }

  lemma NextStart(entries: seq<Entry>, k: nat)
    requires k < |entries|
    ensures EntryStart(entries, k + 1) == EntryStart(entries, k) + 2 + |AddressBytes(entries[k].rec)|
  {
  }

  lemma EntryFits(bucket: Bytes, at: nat, e: Entry)
    requires |bucket| == 2560 && AreBytes(bucket) && e.Valid() && EntryBytes(bucket, at, e)
    ensures at + 2 + RdataBytes(e.rec.Kind()) <= 2560 && ParseTag(bucket[at..at + 2]) == (e.disc, e.rec.Kind())
    ensures bucket[at + 2..at + 2 + RdataBytes(e.rec.Kind())] == e.rec.Octets()
  {
    SameKind(e);
    TagParts(bucket, at);
    var (disc, kind) := ParseTag(bucket[at..at + 2]);
    hide ParseTag, AreBytes, Entry.Valid;
    DivModUnique(TagAt(bucket, at), 0x4000, kind, disc);
    DivModUnique(TagAt(bucket, at), 0x4000, e.rec.Kind(), e.disc);
  }

  /** What a reader takes from any bucket: the records of its entries under one discriminator, in order. */
  lemma ReadAny(bucket: Bytes, entries: seq<Entry>, want: nat)
    requires |bucket| == 2560 && AreBytes(bucket) && Contains(bucket, bucket[4] + 0x100 * bucket[5], entries)
    ensures DecodeFrom(bucket, FIRST_ENTRY_OFFSET, FromLittleEndian(bucket[4..6]), want) == Matching(entries, want)
  {
    hide *;
    TwoBytesValue(bucket[4..6]);
    FirstStart(entries);
    DecodeContained(bucket, bucket[4] + 0x100 * bucket[5], entries, 0, want);
    assert entries[0..] == entries;
  }

  lemma FirstStart(entries: seq<Entry>)
    ensures EntryStart(entries, 0) == FIRST_ENTRY_OFFSET
  {
  }

  /** The records under one discriminator are picked out of the entries in order. */
  lemma {:induction false} MatchingPicks(entries: seq<Entry>, want: nat)
    ensures Matching(entries, want) == PickedFrom(entries, want, |entries|)
  {
    MatchingFrom(entries, want, |entries|);
    assert entries[|entries|..] == [];
  }

  function PickedFrom(entries: seq<Entry>, want: nat, k: nat): seq<Record>
    requires k <= |entries|
  {
    if k == 0 then [] else PickedFrom(entries, want, k - 1) + if entries[k - 1].disc == want then [entries[k - 1].rec] else []
  }

  lemma {:induction false} MatchingFrom(entries: seq<Entry>, want: nat, k: nat)
    requires k <= |entries|
    ensures Matching(entries, want) == PickedFrom(entries, want, k) + Matching(entries[k..], want)
    decreases k
  {
    if k == 0 {
      assert entries[0..] == entries;
    } else {
      MatchingFrom(entries, want, k - 1);
      assert entries[k - 1..][1..] == entries[k..];
    }
  }

  /** Every bucket has such entries. */
  lemma EntriesExist(bucket: Bytes, count: nat) returns (entries: seq<Entry>)
    requires |bucket| == 2560 && AreBytes(bucket)
    ensures Contains(bucket, count, entries)
  {
    entries := [];
    while |entries| < count && !Cut(bucket, EntryStart(entries, |entries|))
      invariant |entries| <= count && Listed(bucket, entries)
      decreases count - |entries|
    {
      hide Entry.Valid, EntryBytes, EntryStart, ParseTag, AreBytes, Announced, TagAt, Listed, RecordOf;
      var at := EntryStart(entries, |entries|);
      TagParts(bucket, at);
      var (disc, kind) := ParseTag(bucket[at..at + 2]);
      var e := Entry(disc, RecordOf(kind, bucket[at + 2..at + 2 + RdataBytes(kind)]));
      EntryMade(bucket, at, disc, kind, e);
      ListedMore(bucket, entries, e);
      entries := entries + [e];
    }
  }

  ghost predicate Listed(bucket: Bytes, entries: seq<Entry>) {
    forall k :: 0 <= k < |entries| ==> entries[k].Valid() && EntryBytes(bucket, EntryStart(entries, k), entries[k])
  }

  lemma ListedMore(bucket: Bytes, entries: seq<Entry>, e: Entry)
    requires Listed(bucket, entries) && e.Valid() && EntryBytes(bucket, EntryStart(entries, |entries|), e)
    ensures Listed(bucket, entries + [e])
  {
    hide Entry.Valid, EntryBytes, EntryStart;
    forall k | 0 <= k < |entries| + 1
      ensures EntryStart(entries + [e], k) == EntryStart(entries, k)
    {
      SameStart(entries, e, k);
    }
  }

  lemma {:induction false} SameStart(entries: seq<Entry>, e: Entry, k: nat)
    requires k <= |entries|
    ensures EntryStart(entries + [e], k) == EntryStart(entries, k)
  {
    if k > 0 {
      SameStart(entries, e, k - 1);
    }
  }

  lemma EntryMade(bucket: Bytes, at: nat, disc: nat, kind: nat, e: Entry)
    requires |bucket| == 2560 && AreBytes(bucket) && kind < 4 && disc < 0x4000
    requires at + 2 + RdataBytes(kind) <= 2560 && TagAt(bucket, at) == disc + 0x4000 * kind
    requires e == Entry(disc, RecordOf(kind, bucket[at + 2..at + 2 + RdataBytes(kind)]))
    ensures e.Valid() && EntryBytes(bucket, at, e)
  {
    SlicesAreBytes(bucket, at + 2, at + 2 + RdataBytes(kind));
  }

  // -------------------------------------------------------------------------- coefficients

  /** Five bytes and four coefficients that stand for the same number of 40 bits, low parts first. */
  predicate SameBits(b: Bytes, c: seq<nat>) {
    && |b| == 5 && |c| == 4
    && b[0] + 0x100 * b[1] + 0x1_0000 * b[2] + 0x100_0000 * b[3] + 0x1_0000_0000 * b[4]
       == c[0] + 0x400 * c[1] + 0x10_0000 * c[2] + 0x4000_0000 * c[3]
  }

  lemma GroupPacks(b: Bytes)
    requires |b| == 5 && AreBytes(b)
    ensures SameBits(b, GroupCoeffs(b))
  {
    FivePowers();
    FromLittleEndianRoundTrip(b);
    FiveBytes(b);
    FourParts(FromLittleEndian(b));
    hide Pow256, FromLittleEndian, LittleEndian;
  }

  /** Only the low ten bits of a coefficient count. */
  lemma GroupUnpacks(c: seq<nat>)
    requires |c| == 4
    ensures SameBits(GroupBytes(c), [c[0] % 1024, c[1] % 1024, c[2] % 1024, c[3] % 1024])
  {
    FivePowers();
    PartsOfFour(c[0] % 1024, c[1] % 1024, c[2] % 1024, c[3] % 1024);
    LittleEndianRoundTrip(c[0] % 1024 + 1024 * (c[1] % 1024) + 0x10_0000 * (c[2] % 1024) + 0x4000_0000 * (c[3] % 1024), 5);
    FiveBytes(GroupBytes(c));
    hide Pow256, FromLittleEndian, LittleEndian;
  }

  /** Group g of a packed bucket has the bits of its group g of bytes. */
  lemma {:induction false} PackLayout(b: Bytes, g: nat)
    requires |b| % 5 == 0 && AreBytes(b) && 5 * g + 5 <= |b|
    ensures SameBits(b[5 * g..5 * g + 5], PackAll(b)[4 * g..4 * g + 4])
    decreases |b|
  {
    hide GroupCoeffs, SameBits, AreBytes;
    var n := |b| - 5;
    SlicesAreBytes(b, n, |b|);
    SlicesAreBytes(b, 0, n);
    assert b[0..n] == b[..n] && b[n..|b|] == b[n..];
    var head, last := PackAll(b[..n]), GroupCoeffs(b[n..]);
    assert PackAll(b) == head + last;
    if 5 * g == n {
      GroupPacks(b[n..]);
      SliceBehind(head, last);
    } else {
      PackLayout(b[..n], g);
      SliceBefore(head, last, 4 * g, 4 * g + 4);
      SliceBefore(b[..n], b[n..], 5 * g, 5 * g + 5);
      assert b[..n] + b[n..] == b;
    }
  }

  /** The same for unpacking any coefficients. */
  lemma {:induction false} UnpackLayout(c: seq<nat>, g: nat)
    requires |c| % 4 == 0 && 4 * g + 4 <= |c|
    ensures SameBits(UnpackAll(c)[5 * g..5 * g + 5],
                     [c[4 * g] % 1024, c[4 * g + 1] % 1024, c[4 * g + 2] % 1024, c[4 * g + 3] % 1024])
    decreases |c|
  {
    hide GroupBytes, SameBits, AreBytes;
    var n := |c| - 4;
    var head, last := UnpackAll(c[..n]), GroupBytes(c[n..]);
    assert UnpackAll(c) == head + last;
    if 4 * g == n {
      GroupUnpacks(c[n..]);
      SliceBehind(head, last);
    } else {
      UnpackLayout(c[..n], g);
      SliceBefore(head, last, 5 * g, 5 * g + 5);
    }
  }

  lemma SliceBehind(x: seq<nat>, y: seq<nat>)
    ensures (x + y)[|x|..|x| + |y|] == y
  {
  }

  lemma SliceBefore(x: seq<nat>, y: seq<nat>, i: nat, j: nat)
    requires i <= j <= |x|
    ensures (x + y)[i..j] == x[i..j]
  {
  }
}
