/** The bytes of a text, as section 3 of RFC 3629 defines them. */
module Utf8 {
  import opened Arith
  import opened Options
  import opened Addresses

  /** One character in one to four bytes. */
  function EncodeChar(c: char): (b: Bytes)
    ensures AreBytes(b) && b != []
  {
    var x := c as int;
    if x < 0x80 then [x]
    else if x < 0x800 then [0xC0 + x / 0x40, 0x80 + x % 0x40]
    else if x < 0x1_0000 then [0xE0 + x / 0x1000, 0x80 + x / 0x40 % 0x40, 0x80 + x % 0x40]
    else [0xF0 + x / 0x4_0000, 0x80 + x / 0x1000 % 0x40, 0x80 + x / 0x40 % 0x40, 0x80 + x % 0x40]
  }

  function Encode(s: string): (b: Bytes)
    ensures AreBytes(b)
  {
    if s == "" then [] else EncodeChar(s[0]) + Encode(s[1..])
  }

  // ---------------------------------------------------------------------------- decoding

  /** How many bytes a character takes, from the first of them. */
  function Width(lead: nat): (n: nat)
    ensures 1 <= n <= 4
  {
    if lead < 0xC0 then 1 else if lead < 0xE0 then 2 else if lead < 0xF0 then 3 else 4
  }

  /** The number that continuation bytes stand for, six bits each. */
  function Continued(x: nat, b: Bytes): nat
    decreases |b|
  {
    if b == [] then x else Continued(x * 0x40 + b[0] % 0x40, b[1..])
  }

  /** The code point of one character. */
  function CodePoint(b: Bytes): nat
    requires b != []
  {
    var n := Width(b[0]);
    var lead := if n == 1 then b[0] else if n == 2 then b[0] % 0x20 else if n == 3 then b[0] % 0x10 else b[0] % 0x08;
    Continued(lead, b[1..])
  }

  predicate Scalar(x: int) {
    0 <= x < 0xD800 || 0xE000 <= x < 0x11_0000
  }

  /** A reader that looks at the lead bytes; None where they make no sense. */
  function Decode(b: Bytes): Option<string>
    decreases |b|
  {
    if b == [] then Some("")
    else
      var n := Width(b[0]);
      if |b| < n || !Scalar(CodePoint(b[..n])) then None
      else
        var rest := Decode(b[n..]);
        if rest.None? then None else Some([CodePoint(b[..n]) as char] + rest.value)
  }

  lemma Continue(x: nat, b: Bytes)
    requires b != []
    ensures Continued(x, b) == Continued(x * 0x40 + b[0] % 0x40, b[1..])
    ensures |b| == 1 ==> Continued(x, b) == x * 0x40 + b[0] % 0x40
  {
  }

  /** x in digits of six bits. */
  lemma SixBits(x: nat)
    ensures x / 0x40 / 0x40 == x / 0x1000 && x / 0x1000 / 0x40 == x / 0x4_0000
    ensures x / 0x40 * 0x40 + x % 0x40 == x
    ensures x / 0x1000 * 0x40 + x / 0x40 % 0x40 == x / 0x40
    ensures x / 0x4_0000 * 0x40 + x / 0x1000 % 0x40 == x / 0x1000
  {
  }

  lemma Marked(d: nat)
    requires d < 0x40
    ensures (0x80 + d) % 0x40 == d
    ensures d < 0x20 ==> (0xC0 + d) % 0x20 == d
    ensures d < 0x10 ==> (0xE0 + d) % 0x10 == d
    ensures d < 0x08 ==> (0xF0 + d) % 0x08 == d
  {
  }

  lemma CharScalar(c: char)
    ensures Scalar(c as int)
  {
  }

  /** The bytes of one character give it back. */
  lemma CharRoundTrip(c: char)
    ensures |EncodeChar(c)| == Width(EncodeChar(c)[0]) && CodePoint(EncodeChar(c)) == c as int
  {
    var x := c as int;
    CharScalar(c);
    SixBits(x);
    var b := EncodeChar(c);
    if x < 0x80 {
      assert b[1..] == [];
    } else if x < 0x800 {
      TwoBytes(x / 0x40, x % 0x40, b);
    } else if x < 0x1_0000 {
      ThreeBytes(x / 0x1000, x / 0x40 % 0x40, x % 0x40, b);
    } else {
      FourBytes(x / 0x4_0000, x / 0x1000 % 0x40, x / 0x40 % 0x40, x % 0x40, b);
    }
  }

  lemma TwoBytes(d1: nat, d0: nat, b: Bytes)
    requires d1 < 0x20 && d0 < 0x40 && b == [0xC0 + d1, 0x80 + d0]
    ensures Width(b[0]) == 2 && CodePoint(b) == d1 * 0x40 + d0
  {
    hide Continued;
    Marked(d1);
    Marked(d0);
    assert b[1..] == [0x80 + d0] && b[1..][1..] == [];
    Continue(d1, b[1..]);
  }

  lemma ThreeBytes(d2: nat, d1: nat, d0: nat, b: Bytes)
    requires d2 < 0x10 && d1 < 0x40 && d0 < 0x40 && b == [0xE0 + d2, 0x80 + d1, 0x80 + d0]
    ensures Width(b[0]) == 3 && CodePoint(b) == (d2 * 0x40 + d1) * 0x40 + d0
  {
    hide Continued;
    Marked(d2);
    Marked(d1);
    Marked(d0);
    assert b[1..] == [0x80 + d1, 0x80 + d0] && b[1..][1..] == [0x80 + d0] && b[1..][1..][1..] == [];
    Continue(d2, b[1..]);
    Continue(d2 * 0x40 + d1, b[1..][1..]);
  }

  lemma FourBytes(d3: nat, d2: nat, d1: nat, d0: nat, b: Bytes)
    requires d3 < 0x08 && d2 < 0x40 && d1 < 0x40 && d0 < 0x40 && b == [0xF0 + d3, 0x80 + d2, 0x80 + d1, 0x80 + d0]
    ensures Width(b[0]) == 4 && CodePoint(b) == ((d3 * 0x40 + d2) * 0x40 + d1) * 0x40 + d0
  {
    hide Continued;
    Marked(d3);
    Marked(d2);
    Marked(d1);
    Marked(d0);
    assert b[1..] == [0x80 + d2, 0x80 + d1, 0x80 + d0] && b[1..][1..] == [0x80 + d1, 0x80 + d0];
    assert b[1..][1..][1..] == [0x80 + d0] && b[1..][1..][1..][1..] == [];
    Continue(d3, b[1..]);
    Continue(d3 * 0x40 + d2, b[1..][1..]);
    Continue((d3 * 0x40 + d2) * 0x40 + d1, b[1..][1..][1..]);
  }

  /** Every text can be read back from its bytes. */
  lemma {:induction false} EncodeRoundTrip(s: string)
    ensures Decode(Encode(s)) == Some(s)
  {
    hide CodePoint, EncodeChar, Width;
    if s != "" {
      var first, rest := EncodeChar(s[0]), Encode(s[1..]);
      CharRoundTrip(s[0]);
      CharScalar(s[0]);
      EncodeRoundTrip(s[1..]);
      var b := Encode(s);
      assert b[0] == first[0] && b[..|first|] == first && b[|first|..] == rest;
      assert [s[0]] + s[1..] == s;
    }
  }

  // ----------------------------------------------------------------------------- lengths

  lemma Assoc(x: Bytes, y: Bytes, z: Bytes)
    ensures (x + y) + z == x + (y + z)
  {
  }

  lemma {:induction false} EncodeConcat(x: string, y: string)
    ensures Encode(x + y) == Encode(x) + Encode(y)
  {
    hide EncodeChar;
    if x == "" {
      assert x + y == y;
    } else {
      EncodeConcat(x[1..], y);
      assert (x + y)[1..] == x[1..] + y && (x + y)[0] == x[0];
      Assoc(EncodeChar(x[0]), Encode(x[1..]), Encode(y));
    }
  }

  /** How many bytes a character takes. */
  lemma CharLength(c: char)
    ensures |EncodeChar(c)| == if c as int < 0x80 then 1 else if c as int < 0x800 then 2 else if c as int < 0x1_0000 then 3 else 4
  {
  }

  /** An ASCII text has a byte for every character, which is its code. */
  lemma {:induction false} AsciiBytes(s: string)
    requires forall i :: 0 <= i < |s| ==> s[i] as int < 0x80
    ensures |Encode(s)| == |s| && forall i :: 0 <= i < |s| ==> Encode(s)[i] == s[i] as int
  {
    if s != "" {
      AsciiBytes(s[1..]);
    }
  }
}
