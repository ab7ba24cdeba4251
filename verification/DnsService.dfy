/** From the text of a zone to an answered query: parse, build the index, look a name up in it. */
module DnsService {
  import opened Options
  import opened Addresses
  import opened Parameters
  import opened Zones
  import opened Bucket
  import opened BucketIndex
  import S = Shape
  import ZT = ZoneText
  import ZF = ZoneFile

  /** The keys of the zone's map, in an order of which nothing is known. */
  method KeysOf(zone: Zone) returns (keys: seq<string>)
    ensures Enumerates(keys, zone)
  {
    var rest := zone.records.Keys;
    keys := [];
    while rest != {}
      invariant rest <= zone.records.Keys
      invariant forall i :: 0 <= i < |keys| ==> keys[i] in zone.records && keys[i] !in rest
      invariant forall i, j :: 0 <= i < j < |keys| ==> keys[i] != keys[j]
      invariant forall name :: name in zone.records ==> name in keys || name in rest
      decreases |rest|
    {
      var name :| name in rest;
      keys := keys + [name];
      rest := rest - {name};
    }
  }

  /** The plaintext coefficients that the server hands to set_db, bucket by bucket. */
  method PackShards(n: nat, out: Shards) returns (coeffs: seq<seq<seq<nat>>>)
    requires |out| == S.NumDatabases(n)
    requires forall sh: nat :: sh < |out| ==> |out[sh]| == S.EntriesPerShard(n)
    requires forall sh: nat, pri: nat :: sh < |out| && pri < |out[sh]| ==> |out[sh][pri]| == BUCKET_BYTES && AreBytes(out[sh][pri])
    ensures Stored(out, coeffs)
    ensures forall sh: nat :: sh < |coeffs| ==> |coeffs[sh]| == S.EntriesPerShard(n)
    ensures forall sh: nat, pri: nat :: sh < |coeffs| && pri < |coeffs[sh]| ==> |coeffs[sh][pri]| == N
  {
    hide PackAll, S.EntriesPerShard, S.NumDatabases, AreBytes;
    coeffs := [];
    for sh := 0 to |out|
      invariant |coeffs| == sh
      invariant forall s: nat :: s < sh ==> |coeffs[s]| == |out[s]|
      invariant forall s: nat, pri: nat :: s < sh && pri < |out[s]| ==> coeffs[s][pri] == PackAll(out[s][pri])
    {
      var row: seq<seq<nat>> := [];
      for pri := 0 to |out[sh]|
        invariant |row| == pri
        invariant forall p: nat :: p < pri ==> row[p] == PackAll(out[sh][p])
      {
        var packed := PackBytesIntoCoeffs(out[sh][pri]);
        row := row + [packed[..]];
      }
      coeffs := coeffs + [row];
    }
  }

  /** Every bucket of an index consists of bytes. */
  lemma IndexIsBytes(h: Hashes, zone: Zone, keys: seq<string>, n: nat, g: nat, out: Shards)
    requires n > 0 && Index(h, zone, keys, n, g, out)
    ensures forall sh: nat, pri: nat :: sh < |out| && pri < |out[sh]| ==>
              |out[sh][pri]| == BUCKET_BYTES && AreBytes(out[sh][pri])
  {
    hide NamesAt, EntriesOf, Injective, AreBytes;
    forall sh: nat, pri: nat | sh < |out| && pri < |out[sh]|
      ensures |out[sh][pri]| == BUCKET_BYTES && AreBytes(out[sh][pri])
    {
      assert Serves(h, zone, NamesAt(h, keys, n, g, (sh, pri)), g, out[sh][pri]);
    }
  }

  /** A zone file served through the index: whenever some attempt to build the index works, every name in the zone
   *  is answered like in the plain lookup. */
  method Serve(codec: ZT.Codec, text: string, h: Hashes, n: nat, maxAttempts: nat, name: string)
    returns (zone: Zone, answer: Option<seq<Record>>, ghost keys: seq<string>)
    requires codec.Valid() && 1 <= n <= N * N
    ensures zone.Valid() && ZF.Resolved(zone) == ZT.ViewOf(codec, ZT.SplitLines(text))
    ensures Enumerates(keys, zone)
    ensures answer.None? <==> forall a: nat :: a < maxAttempts ==> !Buildable(h, zone, keys, n, SaltForAttempt(a))
    ensures answer.Some? && name in zone.records ==> answer.value == Lookup(zone, name) && PlainAnswer(zone, name, answer.value)
  {
    hide *;
    zone := ZF.Parse(codec, text);
    var order := KeysOf(zone);
    keys := order;
    var built := TrySalts(h, zone, order, n, maxAttempts);
    if built.None? {
      return zone, None, keys;
    }
    var (out, salt) := built.value;
    IndexShape(h, zone, order, n, salt, out);
    IndexIsBytes(h, zone, order, n, salt, out);
    var coeffs := PackShards(n, out);
    StoredShape(n, out, coeffs);
    var records := ClientQuery(h, n, salt, coeffs, name);
    if name in zone.records {
      IndexAgrees(h, zone, order, n, salt, out, coeffs, name);
      SameAnswer(h, n, salt, coeffs, name, records, Lookup(zone, name));
      LookupIsPlain(zone, name);
    }
    answer := Some(records);
  }

  lemma IndexShape(h: Hashes, zone: Zone, keys: seq<string>, n: nat, g: nat, out: Shards)
    requires n > 0 && Index(h, zone, keys, n, g, out)
    ensures |out| == S.NumDatabases(n) && forall sh: nat :: sh < |out| ==> |out[sh]| == S.EntriesPerShard(n)
  {
  }

  lemma StoredShape(n: nat, out: Shards, coeffs: seq<seq<seq<nat>>>)
    requires Stored(out, coeffs)
    ensures |coeffs| == |out|
  {
  }

  lemma SameAnswer(h: Hashes, n: nat, g: nat, coeffs: seq<seq<seq<nat>>>, name: string, x: seq<Record>, y: seq<Record>)
    requires n > 0 && AnswersFrom(h, n, g, coeffs, name, x) && AnswersFrom(h, n, g, coeffs, name, y)
    ensures x == y
  {
  }
}
