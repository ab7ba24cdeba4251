/** IPv4 and IPv6 addresses as their bytes. */
module Addresses {
  type Bytes = seq<nat>

  predicate AreBytes(s: Bytes) {
    forall i :: 0 <= i < |s| ==> s[i] < 256
  }

  datatype Ip4 = Ip4(octets: Bytes) {
    predicate Valid() {
      |octets| == 4 && AreBytes(octets)
    }
  }

  datatype Ip6 = Ip6(octets: Bytes) {
    predicate Valid() {
      |octets| == 16 && AreBytes(octets)
    }
  }

  datatype Ip = V4(ip4: Ip4) | V6(ip6: Ip6) {
    function Octets(): Bytes {
      match this
      case V4(ip) => ip.octets
      case V6(ip) => ip.octets
    }
  }
}
