/** The bytes of queries and replies: mod-switched, condensed sections one after the other. */
module QueryFormat {
  import opened Arith
  import opened Options
  import opened Wire
  import opened WireLayout
  import opened Negacyclic
  import G = Gadget
  import Bfv

  const GALOIS_KEY_LOG2_MODULUS := 50
  const PRIMARY_QUERY_LOG2_MODULUS := 34
  const SECONDARY_QUERY_LOG2_MODULUS := 34
  const SECONDARY_A_LOG2_RESPONSE_Q := 17
  const SECONDARY_B_LOG2_RESPONSE_Q := 12

  // ---------------------------------------------------------------------------- sections

  /** A ring element as it goes on the wire. */
  function Section(bits: nat, a: Elem): (bytes: seq<nat>) {
    CondenseOf(bits, Switched(bits, a))
  }

  function Switched(bits: nat, a: Elem): (v: seq<nat>)
    ensures |v| == |a|
    ensures Below(v, bits)
  {
    SwitchedBelow(bits, a);
    seq(|a|, i requires 0 <= i < |a| => SwitchedAt(bits, a[i]))
  }

  function SwitchedAt(bits: nat, x: int): (v: nat)
    ensures v < Pow2(bits)
  {
    Bfv.EncodeNonNegative(bits, G.Q, x);
    Bfv.ModSwitchEncode(bits, G.Q, x)
  }

  lemma SwitchedBelow(bits: nat, a: Elem)
    ensures forall i :: 0 <= i < |a| ==> SwitchedAt(bits, a[i]) < Pow2(bits)
  {
  }

  /** Reads one section and lifts its values back to residues modulo q. */
  function ReadSection(bits: nat, N: nat, bytes: seq<nat>): (r: Option<(Elem, seq<nat>)>)
    ensures r.Some? ==> |r.value.0| == N
  {
    var v := UncondenseOf(bits, N, bytes);
    if v.None? then None
    else
      var values := v.value.0;
      Some((seq(N, i requires 0 <= i < N => Bfv.ModSwitchDecode(bits, G.Q, values[i])), v.value.1))
  }

  /** What a ring element becomes by going over the wire. */
  function Rounded(bits: nat, a: Elem): (r: Elem)
    ensures |r| == |a|
  {
    seq(|a|, i requires 0 <= i < |a| => Bfv.ModSwitchDecode(bits, G.Q, SwitchedAt(bits, a[i])))
  }

  /** One section comes back as the rounded element, and the rest of the stream is left for the next one. */
  lemma SectionRoundTrip(bits: nat, a: Elem, rest: seq<nat>)
    requires |a| % 8 == 0
    ensures ReadSection(bits, |a|, Section(bits, a) + rest) == Some((Rounded(bits, a), rest))
  {
    hide CondenseOf, UncondenseOf, Bfv.ModSwitchDecode, SwitchedAt;
    CondenseRoundTrip(bits, Switched(bits, a), rest);
    var got := ReadSection(bits, |a|, Section(bits, a) + rest).value.0;
    assert got == Rounded(bits, a);
  }

  /** The rounding of a section moves no coefficient by more than q / 2^(bits+1) + 1. */
  lemma SectionError(bits: nat, a: Elem, i: nat)
    requires i < |a|
    ensures 2 * (Abs(Centered(Rounded(bits, a)[i] - a[i], G.Q)) * Pow2(bits)) <= G.Q + 2 * Pow2(bits)
  {
    Bfv.ModSwitchError(bits, G.Q, a[i]);
  }

  // ----------------------------------------------------------------------------- queries

  /** The ciphertext halves of a query; a conjugate is present exactly when its index group needs one. */
  datatype Query = Query(gk0: Elem, gk1: Elem, primary: Elem, primaryConj: Option<Elem>,
                         secondary: Elem, secondaryConj: Option<Elem>)
  {
    predicate Size(N: nat) {
      && |gk0| == |gk1| == |primary| == |secondary| == N
      && (primaryConj.Some? ==> |primaryConj.value| == N)
      && (secondaryConj.Some? ==> |secondaryConj.value| == N)
    }

    /** Every element as the other side sees it. */
    function Received(): Query {
      Query(Rounded(GALOIS_KEY_LOG2_MODULUS, gk0), Rounded(GALOIS_KEY_LOG2_MODULUS, gk1),
            Rounded(PRIMARY_QUERY_LOG2_MODULUS, primary),
            if primaryConj.Some? then Some(Rounded(PRIMARY_QUERY_LOG2_MODULUS, primaryConj.value)) else None,
            Rounded(SECONDARY_QUERY_LOG2_MODULUS, secondary),
            if secondaryConj.Some? then Some(Rounded(SECONDARY_QUERY_LOG2_MODULUS, secondaryConj.value)) else None)
    }
  }

  function OptionalSection(bits: nat, a: Option<Elem>): seq<nat> {
    if a.Some? then Section(bits, a.value) else []
  }

  /** The end of prepare_query_general. */
  method WriteQuery(q: Query) returns (result: seq<nat>)
    ensures result == QueryBytes(q)
  {
    hide Section;
    result := [];
    for k := 0 to 2
      invariant result == if k == 0 then [] else if k == 1 then Section(GALOIS_KEY_LOG2_MODULUS, q.gk0)
                          else Section(GALOIS_KEY_LOG2_MODULUS, q.gk0) + Section(GALOIS_KEY_LOG2_MODULUS, q.gk1)
    {
      result := result + Section(GALOIS_KEY_LOG2_MODULUS, if k == 0 then q.gk0 else q.gk1);
    }
    result := result + Section(PRIMARY_QUERY_LOG2_MODULUS, q.primary);
    if q.primaryConj.Some? {
      result := result + Section(PRIMARY_QUERY_LOG2_MODULUS, q.primaryConj.value);
    }
    result := result + Section(SECONDARY_QUERY_LOG2_MODULUS, q.secondary);
    if q.secondaryConj.Some? {
      result := result + Section(SECONDARY_QUERY_LOG2_MODULUS, q.secondaryConj.value);
    }
  }

  function QueryBytes(q: Query): seq<nat> {
    Section(GALOIS_KEY_LOG2_MODULUS, q.gk0) + Section(GALOIS_KEY_LOG2_MODULUS, q.gk1)
    + Section(PRIMARY_QUERY_LOG2_MODULUS, q.primary)
    + OptionalSection(PRIMARY_QUERY_LOG2_MODULUS, q.primaryConj)
    + Section(SECONDARY_QUERY_LOG2_MODULUS, q.secondary)
    + OptionalSection(SECONDARY_QUERY_LOG2_MODULUS, q.secondaryConj)
  }

  function ReadOptional(present: bool, bits: nat, N: nat, bytes: seq<nat>): Option<(Option<Elem>, seq<nat>)> {
    if !present then Some((None, bytes))
    else
      var r := ReadSection(bits, N, bytes);
      if r.None? then None else Some((Some(r.value.0), r.value.1))
  }

  /** The unpacking at the start of process_queries; None when the stream ends too early. */
  function ReadQuery(N: nat, primaryConj: bool, secondaryConj: bool, bytes: seq<nat>): Option<Query> {
    var gk0 := ReadSection(GALOIS_KEY_LOG2_MODULUS, N, bytes);
    if gk0.None? then None else
    var gk1 := ReadSection(GALOIS_KEY_LOG2_MODULUS, N, gk0.value.1);
    if gk1.None? then None else
    var primary := ReadSection(PRIMARY_QUERY_LOG2_MODULUS, N, gk1.value.1);
    if primary.None? then None else
    var conj1 := ReadOptional(primaryConj, PRIMARY_QUERY_LOG2_MODULUS, N, primary.value.1);
    if conj1.None? then None else
    var secondary := ReadSection(SECONDARY_QUERY_LOG2_MODULUS, N, conj1.value.1);
    if secondary.None? then None else
    var conj2 := ReadOptional(secondaryConj, SECONDARY_QUERY_LOG2_MODULUS, N, secondary.value.1);
    if conj2.None? then None else
    Some(Query(gk0.value.0, gk1.value.0, primary.value.0, conj1.value.0, secondary.value.0, conj2.value.0))
  }

  lemma OptionalRoundTrip(bits: nat, N: nat, a: Option<Elem>, rest: seq<nat>)
    requires N % 8 == 0 && (a.Some? ==> |a.value| == N)
    ensures ReadOptional(a.Some?, bits, N, OptionalSection(bits, a) + rest)
            == Some((if a.Some? then Some(Rounded(bits, a.value)) else None, rest))
  {
    hide Section, ReadSection, Rounded;
    if a.Some? {
      SectionRoundTrip(bits, a.value, rest);
    } else {
      assert OptionalSection(bits, a) + rest == rest;
    }
  }

  /** A server that expects the conjugates the client sent reads every section of the query where the client
   *  wrote it. */
  lemma QueryRoundTrip(N: nat, q: Query)
    requires N % 8 == 0 && q.Size(N)
    ensures ReadQuery(N, q.primaryConj.Some?, q.secondaryConj.Some?, QueryBytes(q)) == Some(q.Received())
  {
    hide Section, ReadSection, Rounded, OptionalSection, ReadOptional;
    var s5 := OptionalSection(SECONDARY_QUERY_LOG2_MODULUS, q.secondaryConj);
    var s4 := Section(SECONDARY_QUERY_LOG2_MODULUS, q.secondary) + s5;
    var s3 := OptionalSection(PRIMARY_QUERY_LOG2_MODULUS, q.primaryConj) + s4;
    var s2 := Section(PRIMARY_QUERY_LOG2_MODULUS, q.primary) + s3;
    var s1 := Section(GALOIS_KEY_LOG2_MODULUS, q.gk1) + s2;
    assert QueryBytes(q) == Section(GALOIS_KEY_LOG2_MODULUS, q.gk0) + s1;
    SectionRoundTrip(GALOIS_KEY_LOG2_MODULUS, q.gk0, s1);
    SectionRoundTrip(GALOIS_KEY_LOG2_MODULUS, q.gk1, s2);
    SectionRoundTrip(PRIMARY_QUERY_LOG2_MODULUS, q.primary, s3);
    OptionalRoundTrip(PRIMARY_QUERY_LOG2_MODULUS, N, q.primaryConj, s4);
    SectionRoundTrip(SECONDARY_QUERY_LOG2_MODULUS, q.secondary, s5);
    OptionalRoundTrip(SECONDARY_QUERY_LOG2_MODULUS, N, q.secondaryConj, []);
    assert s5 + [] == s5;
  }

  /** The length of a query: 50 + 50 + 34 + 34 bits a coefficient, and 34 more for each conjugate. */
  lemma QueryLength(N: nat, q: Query)
    requires N % 8 == 0 && q.Size(N)
    ensures |QueryBytes(q)| == N / 8 * (168 + (if q.primaryConj.Some? then 34 else 0) + (if q.secondaryConj.Some? then 34 else 0))
  {
    hide CondenseOf;
    CondenseLength(50, Switched(50, q.gk0));
    CondenseLength(50, Switched(50, q.gk1));
    CondenseLength(34, Switched(34, q.primary));
    CondenseLength(34, Switched(34, q.secondary));
    if q.primaryConj.Some? {
      CondenseLength(34, Switched(34, q.primaryConj.value));
    }
    if q.secondaryConj.Some? {
      CondenseLength(34, Switched(34, q.secondaryConj.value));
    }
  }

  /** The bytes that a query needs. */
  function QueryBytesNeeded(N: nat, primaryConj: bool, secondaryConj: bool): int {
    N / 8 * (168 + (if primaryConj then 34 else 0) + (if secondaryConj then 34 else 0))
  }

  lemma SectionTakes(bits: nat, N: nat, bytes: seq<nat>)
    requires N % 8 == 0
    ensures ReadSection(bits, N, bytes).Some? <==> N / 8 * bits <= |bytes|
    ensures ReadSection(bits, N, bytes).Some? ==>
              0 <= N / 8 * bits && |ReadSection(bits, N, bytes).value.1| == |bytes| - N / 8 * bits
  {
    hide UncondenseOf;
    UncondenseTakes(bits, N, bytes);
  }

  lemma OptionalTakes(present: bool, bits: nat, N: nat, bytes: seq<nat>)
    requires N % 8 == 0
    ensures var need := if present then N / 8 * bits else 0;
            && (ReadOptional(present, bits, N, bytes).Some? <==> need <= |bytes|)
            && (ReadOptional(present, bits, N, bytes).Some? ==>
                  need >= 0 && |ReadOptional(present, bits, N, bytes).value.1| == |bytes| - need)
  {
    hide ReadSection;
    SectionTakes(bits, N, bytes);
  }

  /** A server can read a query exactly if no section is cut short; longer inputs are accepted too. */
  lemma QueryReadable(N: nat, primaryConj: bool, secondaryConj: bool, bytes: seq<nat>)
    requires N % 8 == 0
    ensures ReadQuery(N, primaryConj, secondaryConj, bytes).Some? <==> |bytes| >= QueryBytesNeeded(N, primaryConj, secondaryConj)
  {
    hide ReadSection, ReadOptional;
    var m := N / 8;
    SectionTakes(50, N, bytes);
    var gk0 := ReadSection(50, N, bytes);
    if gk0.Some? {
      SectionTakes(50, N, gk0.value.1);
      var gk1 := ReadSection(50, N, gk0.value.1);
      if gk1.Some? {
        SectionTakes(34, N, gk1.value.1);
        var primary := ReadSection(34, N, gk1.value.1);
        if primary.Some? {
          OptionalTakes(primaryConj, 34, N, primary.value.1);
          var conj := ReadOptional(primaryConj, 34, N, primary.value.1);
          if conj.Some? {
            SectionTakes(34, N, conj.value.1);
            var secondary := ReadSection(34, N, conj.value.1);
            if secondary.Some? {
              OptionalTakes(secondaryConj, 34, N, secondary.value.1);
            }
          }
        }
      }
    }
  }

  /** The bytes [from, from + size) are the section of a. */
  ghost predicate SectionAt(bytes: seq<nat>, from: int, bits: nat, a: Elem) {
    var size := |a| / 8 * bits;
    0 <= from && 0 <= size && from + size <= |bytes| && bytes[from..from + size] == Section(bits, a)
  }

  /** Where every section of a query lies. */
  lemma QueryLayout(N: nat, q: Query)
    requires N % 8 == 0 && q.Size(N)
    ensures var m, bytes := N / 8, QueryBytes(q);
            var from := if q.primaryConj.Some? then 168 else 134;
            && SectionAt(bytes, 0, 50, q.gk0) && SectionAt(bytes, m * 50, 50, q.gk1)
            && SectionAt(bytes, m * 100, 34, q.primary)
            && (q.primaryConj.Some? ==> SectionAt(bytes, m * 134, 34, q.primaryConj.value))
            && SectionAt(bytes, m * from, 34, q.secondary)
            && (q.secondaryConj.Some? ==> SectionAt(bytes, m * (from + 34), 34, q.secondaryConj.value))
  {
    hide Section, OptionalSection, SectionAt;
    var m := N / 8;
    SectionLength(50, q.gk0);
    SectionLength(50, q.gk1);
    SectionLength(34, q.primary);
    SectionLength(34, q.secondary);
    var s0, s1, s2, s4 := Section(50, q.gk0), Section(50, q.gk1), Section(34, q.primary), Section(34, q.secondary);
    var s3, s5 := OptionalSection(34, q.primaryConj), OptionalSection(34, q.secondaryConj);
    OptionalLength(34, N, q.primaryConj);
    OptionalLength(34, N, q.secondaryConj);
    SixParts(s0, s1, s2, s3, s4, s5);
    SectionIn([], 50, q.gk0, s1 + (s2 + (s3 + (s4 + s5))));
    SectionIn(s0, 50, q.gk1, s2 + (s3 + (s4 + s5)));
    SectionIn(s0 + s1, 34, q.primary, s3 + (s4 + s5));
    if q.primaryConj.Some? {
      SectionIn(s0 + s1 + s2, 34, q.primaryConj.value, s4 + s5);
    }
    SectionIn(s0 + s1 + s2 + s3, 34, q.secondary, s5);
    if q.secondaryConj.Some? {
      SectionIn(s0 + s1 + s2 + s3 + s4, 34, q.secondaryConj.value, []);
    }
  }

  /** Any of six parts, with what comes before and after it. */
  lemma SixParts(s0: seq<nat>, s1: seq<nat>, s2: seq<nat>, s3: seq<nat>, s4: seq<nat>, s5: seq<nat>)
    ensures var all := s0 + s1 + s2 + s3 + s4 + s5;
            && [] + s0 + (s1 + (s2 + (s3 + (s4 + s5)))) == all
            && s0 + s1 + (s2 + (s3 + (s4 + s5))) == all
            && (s0 + s1) + s2 + (s3 + (s4 + s5)) == all
            && (s0 + s1 + s2) + s3 + (s4 + s5) == all
            && (s0 + s1 + s2 + s3 + s4) + s5 + [] == all
  {
    assert s3 + (s4 + s5) == s3 + s4 + s5;
    assert s2 + (s3 + (s4 + s5)) == s2 + s3 + s4 + s5;
    assert s1 + (s2 + (s3 + (s4 + s5))) == s1 + s2 + s3 + s4 + s5;
  }

  lemma SectionIn(before: seq<nat>, bits: nat, a: Elem, after: seq<nat>)
    requires |a| % 8 == 0
    ensures SectionAt(before + Section(bits, a) + after, |before|, bits, a)
  {
    SectionLength(bits, a);
    hide Section;
  }

  lemma SectionBehind(before: seq<nat>, bytes: seq<nat>, from: int, bits: nat, a: Elem)
    requires SectionAt(bytes, from, bits, a)
    ensures SectionAt(before + bytes, |before| + from, bits, a)
  {
    hide Section;
    var size := |a| / 8 * bits;
    assert (before + bytes)[|before| + from..|before| + from + size] == bytes[from..from + size];
  }

  lemma SectionLength(bits: nat, a: Elem)
    requires |a| % 8 == 0
    ensures |Section(bits, a)| == |a| / 8 * bits
  {
    hide CondenseOf;
    CondenseLength(bits, Switched(bits, a));
  }

  lemma OptionalLength(bits: nat, N: nat, a: Option<Elem>)
    requires N % 8 == 0 && (a.Some? ==> |a.value| == N)
    ensures |OptionalSection(bits, a)| == if a.Some? then N / 8 * bits else 0
    ensures a.Some? ==> OptionalSection(bits, a) == Section(bits, a.value)
  {
    if a.Some? {
      SectionLength(bits, a.value);
    }
  }

  // ----------------------------------------------------------------------------- replies

  type Ciphertext = (Elem, Elem)

  /** The end of process_queries: the a-half at 17 bits and the b-half at 12, ciphertext by ciphertext. */
  function ReplyBytes(reply: seq<Ciphertext>): seq<nat> {
    if reply == [] then []
    else Section(SECONDARY_A_LOG2_RESPONSE_Q, reply[0].0) + Section(SECONDARY_B_LOG2_RESPONSE_Q, reply[0].1)
         + ReplyBytes(reply[1..])
  }

  /** The start of process_reply, for n ciphertexts. */
  function ReadReply(N: nat, n: nat, bytes: seq<nat>): Option<(seq<Ciphertext>, seq<nat>)> {
    if n == 0 then Some(([], bytes))
    else
      var a := ReadSection(SECONDARY_A_LOG2_RESPONSE_Q, N, bytes);
      if a.None? then None else
      var b := ReadSection(SECONDARY_B_LOG2_RESPONSE_Q, N, a.value.1);
      if b.None? then None else
      var more := ReadReply(N, n - 1, b.value.1);
      if more.None? then None else Some(([(a.value.0, b.value.0)] + more.value.0, more.value.1))
  }

  function ReceivedReply(reply: seq<Ciphertext>): (r: seq<Ciphertext>)
    ensures |r| == |reply|
  {
    seq(|reply|, i requires 0 <= i < |reply| =>
      (Rounded(SECONDARY_A_LOG2_RESPONSE_Q, reply[i].0), Rounded(SECONDARY_B_LOG2_RESPONSE_Q, reply[i].1)))
  }

  lemma {:induction false} ReplyRoundTrip(N: nat, reply: seq<Ciphertext>, rest: seq<nat>)
    requires N % 8 == 0 && forall i :: 0 <= i < |reply| ==> |reply[i].0| == |reply[i].1| == N
    ensures ReadReply(N, |reply|, ReplyBytes(reply) + rest) == Some((ReceivedReply(reply), rest))
  {
    hide Section, ReadSection, Rounded;
    if reply == [] {
      assert ReplyBytes(reply) + rest == rest;
    } else {
      var (a, b) := reply[0];
      var tail := ReplyBytes(reply[1..]) + rest;
      ReplyRoundTrip(N, reply[1..], rest);
      SectionRoundTrip(SECONDARY_A_LOG2_RESPONSE_Q, a, Section(SECONDARY_B_LOG2_RESPONSE_Q, b) + tail);
      SectionRoundTrip(SECONDARY_B_LOG2_RESPONSE_Q, b, tail);
      assert ReplyBytes(reply) + rest
             == Section(SECONDARY_A_LOG2_RESPONSE_Q, a) + (Section(SECONDARY_B_LOG2_RESPONSE_Q, b) + tail);
      assert ReceivedReply(reply)
             == [(Rounded(SECONDARY_A_LOG2_RESPONSE_Q, a), Rounded(SECONDARY_B_LOG2_RESPONSE_Q, b))]
                + ReceivedReply(reply[1..]);
    }
  }

  /** A reply of n ciphertexts can be read exactly if it has 29 bits for every coefficient of each. */
  lemma {:induction false} ReplyReadable(N: nat, n: nat, bytes: seq<nat>)
    requires N % 8 == 0
    ensures ReadReply(N, n, bytes).Some? <==> n * (N / 8 * 29) <= |bytes|
    decreases n
  {
    hide ReadSection;
    if n > 0 {
      assert n * (N / 8 * 29) == N / 8 * 17 + N / 8 * 12 + (n - 1) * (N / 8 * 29);
      MulMonotone(0, n - 1, N / 8 * 29);
      SectionTakes(17, N, bytes);
      var a := ReadSection(17, N, bytes);
      if a.Some? {
        SectionTakes(12, N, a.value.1);
        var b := ReadSection(12, N, a.value.1);
        if b.Some? {
          ReplyReadable(N, n - 1, b.value.1);
        }
      }
    }
  }

  /** Where ciphertext i of a reply starts: at 29 bits for every coefficient of the ones before it. */
  function CiphertextStart(N: nat, i: int): int {
    i * (N / 8 * 29)
  }

  /** The a-half of a ciphertext comes first, in 17 bits a coefficient, then its b-half in 12. */
  lemma {:induction false} ReplyLayout(N: nat, reply: seq<Ciphertext>, i: nat)
    requires N % 8 == 0 && i < |reply| && forall k :: 0 <= k < |reply| ==> |reply[k].0| == |reply[k].1| == N
    ensures SectionAt(ReplyBytes(reply), CiphertextStart(N, i), 17, reply[i].0)
    ensures SectionAt(ReplyBytes(reply), CiphertextStart(N, i) + N / 8 * 17, 12, reply[i].1)
    decreases i
  {
    hide Section, SectionAt, CiphertextStart;
    NextCiphertext(N, i);
    var a, b, rest := Section(17, reply[0].0), Section(12, reply[0].1), ReplyBytes(reply[1..]);
    SectionLength(17, reply[0].0);
    SectionLength(12, reply[0].1);
    assert ReplyBytes(reply) == a + b + rest;
    if i == 0 {
      assert a + b + rest == [] + a + (b + rest);
      SectionIn([], 17, reply[0].0, b + rest);
      SectionIn(a, 12, reply[0].1, rest);
    } else {
      ReplyLayout(N, reply[1..], i - 1);
      SectionBehind(a + b, rest, CiphertextStart(N, i - 1), 17, reply[i].0);
      SectionBehind(a + b, rest, CiphertextStart(N, i - 1) + N / 8 * 17, 12, reply[i].1);
    }
  }

  lemma NextCiphertext(N: nat, i: nat)
    ensures CiphertextStart(N, 0) == 0
    ensures CiphertextStart(N, i) == N / 8 * 17 + N / 8 * 12 + CiphertextStart(N, i - 1)
  {
  }
}
