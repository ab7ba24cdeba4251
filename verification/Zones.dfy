/** A parsed zone and the lookups in it. */
module Zones {
  import opened Arith
  import opened Options
  import opened Sums
  import opened Addresses
  import opened Utf8

  /** The records of one name; name servers are indices into the zone's pool of host names. */
  datatype NameRecords = NameRecords(a: seq<Ip4>, aaaa: seq<Ip6>, ns: seq<nat>) {
    predicate InPool(pool: seq<string>) {
      forall i :: 0 <= i < |ns| ==> ns[i] < |pool|
    }

    predicate Addresses() {
      && (forall i :: 0 <= i < |a| ==> a[i].Valid())
      && (forall i :: 0 <= i < |aaaa| ==> aaaa[i].Valid())
    }
  }

  datatype Zone = Zone(records: map<string, NameRecords>, zoneName: string, nsPool: seq<string>) {
    /** Every name server is in the pool. */
    ghost predicate Valid() {
      forall n :: n in records ==> records[n].InPool(nsPool)
    }

    /** Every address has its proper number of bytes. */
    ghost predicate Addresses() {
      forall n :: n in records ==> records[n].Addresses()
    }

    /** The first address the zone itself has for a host. */
    function GlueFor(host: string): Option<Ip> {
      if host !in records then None
      else if records[host].a != [] then Some(V4(records[host].a[0]))
      else if records[host].aaaa != [] then Some(V6(records[host].aaaa[0]))
      else None
    }

    /** The address listed for a name server: its glue, or else a placeholder. */
    function NsAddress(idx: nat): Ip {
      var host := if idx < |nsPool| then nsPool[idx] else "";
      var glue := GlueFor(host);
      if glue.Some? then glue.value else DummyIp(host)
    }
  }

  /** Every byte in turn, in 32 bits. */
  function HostHash(b: Bytes): (h: nat) {
    if b == [] then 0 else (HostHash(b[..|b| - 1]) * 31 + b[|b| - 1]) % 0x1_0000_0000
  }

  /** The placeholder address in 192.0.2.0/24. */
  function DummyIp(host: string): Ip {
    V4(Ip4([192, 0, 2, HostHash(Encode(host)) % 256]))
  }

  /** The bytes as the digits of a number to the base 31, highest first. */
  function DigitTerm(b: Bytes): int -> int {
    j => if 0 <= j < |b| then b[j] * Pow(31, |b| - 1 - j) else 0
  }

  /** The hash is that number, as far as its last byte is concerned. */
  lemma {:induction false} HostHashIs(b: Bytes)
    ensures Cong(HostHash(b), Sum(|b|, DigitTerm(b)), 256)
  {
    hide Cong, Pow;
    if b == [] {
      CongRefl(0, 256);
    } else {
      var n := |b| - 1;
      var init, last := b[..n], b[n];
      HostHashIs(init);
      forall j | 0 <= j < n
        ensures DigitTerm(b)(j) == 31 * DigitTerm(init)(j)
      {
        NextDigit(init[j], n - 1 - j);
      }
      SumScale(n, 31, DigitTerm(init), DigitTerm(b));
      LastDigit(last);
      var x, y := HostHash(init), Sum(n, DigitTerm(init));
      CongScale(31, x, y, 256);
      CongRefl(last, 256);
      CongAdd(31 * x, 31 * y, last, last, 256);
      Wrapped(x * 31 + last);
      CongTrans(HostHash(b), 31 * x + last, 31 * y + last, 256);
    }
  }

  lemma NextDigit(d: nat, e: nat)
    ensures d * Pow(31, e + 1) == 31 * (d * Pow(31, e))
  {
    SwapInner(31, d, Pow(31, e));
    TripleProduct(31, d, Pow(31, e));
  }

  lemma LastDigit(d: nat)
    ensures d * Pow(31, 0) == d
  {
  }

  lemma Wrapped(x: nat)
    ensures Cong(x % 0x1_0000_0000, x, 256)
  {
    CongIntro(x % 0x1_0000_0000, x, -(x / 0x1_0000_0000) * 0x100_0000, 256);
  }
}
