/** condense and uncondense: packing values of a fixed bit width into bytes, plane by plane, and the
 *  concatenated sections of queries and replies.
 */
module Wire {
  import opened Arith
  import opened Options

  // -------------------------------------------------------------------------------- bits

  /** Bitwise or of natural numbers. */
  function Or(x: nat, y: nat): nat {
    if x == 0 then y
    else if y == 0 then x
    else 2 * Or(x / 2, y / 2) + if x % 2 == 1 || y % 2 == 1 then 1 else 0
  }

  /** x << s and x >> s. */
  function Shl(x: nat, s: nat): nat {
    x * Pow2(s)
  }

  function Shr(x: nat, s: nat): nat {
    var m := Pow2(s);
    QuotientIsNat(x, m);
    x / m
  }

  lemma QuotientIsNat(x: nat, m: nat)
    requires m > 0
    ensures x / m >= 0
  {
  }

  /** x & ((1 << w) - 1). */
  function Low(x: nat, w: nat): nat {
    x % Pow2(w)
  }

  /** The w bits of x from position s on. */
  function Field(x: nat, s: nat, w: nat): nat {
    Low(Shr(x, s), w)
  }

  lemma {:induction false} OrSum(x: nat, y: nat, s: nat)
    requires x < Pow2(s)
    ensures Or(x, Shl(y, s)) == x + Shl(y, s)
    ensures Or(Shl(y, s), x) == x + Shl(y, s)
  {
    if s > 0 && x > 0 && y > 0 {
      HalfShl(y, s);
      OrSum(x / 2, y, s - 1);
      PositiveShl(y, s);
    }
  }

  lemma HalfShl(y: nat, s: nat)
    requires s > 0
    ensures Shl(y, s) % 2 == 0 && Shl(y, s) / 2 == Shl(y, s - 1) && Shl(y, s) == 2 * Shl(y, s - 1)
  {
    assert y * (2 * Pow2(s - 1)) == 2 * (y * Pow2(s - 1));
  }

  lemma PositiveShl(y: nat, s: nat)
    requires y > 0
    ensures Shl(y, s) > 0
  {
    MulSign(y, Pow2(s));
  }

  lemma ShlBound(y: nat, w: nat, s: nat)
    requires y < Pow2(w)
    ensures Shl(y, s) + Pow2(s) <= Pow2(w + s)
  {
    Pow2Add(w, s);
    MulMonotone(y + 1, Pow2(w), Pow2(s));
    assert (y + 1) * Pow2(s) == y * Pow2(s) + Pow2(s);
  }

  lemma ShlShl(y: nat, a: nat, b: nat)
    ensures Shl(Shl(y, a), b) == Shl(y, a + b)
  {
    Pow2Add(a, b);
    TripleProduct(y, Pow2(a), Pow2(b));
    hide Pow2;
  }

  lemma ShlAdd(x: nat, y: nat, s: nat)
    ensures Shl(x + y, s) == Shl(x, s) + Shl(y, s)
  {
  }

  /** A number below 2^(s+w) is its low s bits and the field above them. */
  lemma LowExtend(x: nat, s: nat, w: nat)
    ensures Low(x, s + w) == Low(x, s) + Shl(Field(x, s, w), s)
  {
    Pow2Add(s, w);
    SplitTwice(x, Pow2(s), Pow2(w));
  }

  lemma SplitTwice(x: nat, a: nat, b: nat)
    requires a > 0 && b > 0
    ensures a * b > 0 && x % (a * b) == x % a + ((x / a) % b) * a
  {
    MulSign(a, b);
    var r, q := Split(x, a);
    var f, k := Split(q, b);
    MulMonotone(f + 1, b, a);
    MulMonotone(0, f, a);
    JoinSplits(r, f, k, a, b);
    DivModUnique(x, a * b, k, r + f * a);
  }

  /** The field of a sum of disjoint parts. */
  lemma FieldOfParts(r: nat, f: nat, s: nat, w: nat)
    requires r < Pow2(s) && f < Pow2(w)
    ensures Field(r + Shl(f, s), s, w) == f
  {
    DivModUnique(r + Shl(f, s), Pow2(s), f, r);
    DivModUnique(f, Pow2(w), 0, f);
  }

  /** Fields below bit t only depend on the low t bits. */
  lemma FieldOfLow(x: nat, s: nat, w: nat, t: nat)
    requires s + w <= t
    ensures Field(x, s, w) == Field(Low(x, t), s, w)
    ensures Low(Low(x, t), s) == Low(x, s)
  {
    LowOfLow(x, s, t);
    LowOfLow(x, s + w, t);
    LowExtend(x, s, w);
    LowExtend(Low(x, t), s, w);
    SameFactor(Field(x, s, w), Field(Low(x, t), s, w), s);
  }

  lemma SameFactor(x: nat, y: nat, s: nat)
    requires Shl(x, s) == Shl(y, s)
    ensures x == y
  {
    DivModUnique(Shl(x, s), Pow2(s), x, 0);
    DivModUnique(Shl(y, s), Pow2(s), y, 0);
  }

  lemma LowOfLow(x: nat, s: nat, t: nat)
    requires s <= t
    ensures Low(Low(x, t), s) == Low(x, s)
  {
    Pow2Add(s, t - s);
    ModOfMod(x, Pow2(s), Pow2(t - s));
  }

  lemma ModOfMod(x: nat, a: nat, b: nat)
    requires a > 0 && b > 0
    ensures a * b > 0 && (x % (a * b)) % a == x % a
  {
    MulSign(a, b);
    var r, q := Split(x, a * b);
    assert q * (a * b) == (q * b) * a;
    ModShift(r, q * b, a);
  }

  // ------------------------------------------------------------------------------ planes

  /** A plane packs bits [shift, shift + width) of every value, 8 / width values to a byte. */
  datatype Plane = Plane(shift: nat, width: nat) {
    predicate Valid() {
      width == 1 || width == 2 || width == 4 || width == 8
    }

    function Per(): (n: nat)
      requires Valid()
      ensures n > 0 && n * width == 8 && (n == 1 || n == 2 || n == 4 || n == 8)
    {
      8 / width
    }
  }

  /** The fields of a chunk as one number, first value highest. */
  function PackByte(chunk: seq<nat>, p: Plane): nat {
    if chunk == [] then 0
    else Shl(PackByte(chunk[..|chunk| - 1], p), p.width) + Field(chunk[|chunk| - 1], p.shift, p.width)
  }

  function PackPlane(data: seq<nat>, p: Plane): (bytes: seq<nat>)
    requires p.Valid()
    ensures |bytes| == |data| / p.Per()
  {
    if |data| < p.Per() then []
    else [PackByte(data[..p.Per()], p)] + PackPlane(data[p.Per()..], p)
  }

  /** Puts the fields of a byte into a chunk. */
  function SpreadByte(chunk: seq<nat>, byte: nat, p: Plane): (r: seq<nat>)
    ensures |r| == |chunk|
  {
    if chunk == [] then []
    else
      var n := |chunk| - 1;
      SpreadByte(chunk[..n], Shr(byte, p.width), p) + [Or(chunk[n], Shl(Low(byte, p.width), p.shift))]
  }

  function SpreadPlane(values: seq<nat>, bytes: seq<nat>, p: Plane): (r: seq<nat>)
    requires p.Valid()
    requires |bytes| == |values| / p.Per()
    ensures |r| == |values|
  {
    if |values| < p.Per() then values
    else SpreadByte(values[..p.Per()], bytes[0], p) + SpreadPlane(values[p.Per()..], bytes[1..], p)
  }

  /** Every value reduced to its low t bits. */
  function LowAll(data: seq<nat>, t: nat): (r: seq<nat>)
    ensures |r| == |data|
  {
    seq(|data|, i requires 0 <= i < |data| => Low(data[i], t))
  }

  predicate Below(data: seq<nat>, t: nat) {
    forall i :: 0 <= i < |data| ==> data[i] < Pow2(t)
  }

  lemma {:induction false} PackByteBound(chunk: seq<nat>, p: Plane)
    ensures |chunk| * p.width >= 0
    ensures PackByte(chunk, p) < Pow2(|chunk| * p.width)
  {
    hide Pow2, Shl, Field;
    if chunk != [] {
      var n := |chunk| - 1;
      PackByteBound(chunk[..n], p);
      NextMultiple(n, p.width);
      var k := n * p.width;
      ShlBound(PackByte(chunk[..n], p), k, p.width);
      FieldBound(chunk[n], p.shift, p.width);
    } else {
      NoBits(p.width);
    }
  }

  lemma NoBits(w: nat)
    ensures 0 * w == 0 && Pow2(0) == 1
  {
  }

  lemma {:induction false} SpreadPacked(chunk: seq<nat>, p: Plane)
    ensures SpreadByte(LowAll(chunk, p.shift), PackByte(chunk, p), p) == LowAll(chunk, p.shift + p.width)
  {
    hide Pow2, Or, Shl, Shr, Low;
    if chunk != [] {
      hide SpreadByte, PackByte;
      var n := |chunk| - 1;
      var init, x := chunk[..n], chunk[n];
      SpreadPacked(init, p);
      var f := Field(x, p.shift, p.width);
      assert chunk == init + [x];
      PackAppend(init, x, p);
      assert LowAll(chunk, p.shift)[..n] == LowAll(init, p.shift);
      FieldBound(x, p.shift, p.width);
      LastField(PackByte(init, p), f, p.width);
      LowBound(x, p.shift);
      OrSum(Low(x, p.shift), f, p.shift);
      LowExtend(x, p.shift, p.width);
      SpreadLast(LowAll(chunk, p.shift), PackByte(chunk, p), p);
      assert LowAll(chunk, p.shift + p.width) == LowAll(init, p.shift + p.width) + [Low(x, p.shift + p.width)];
    }
  }

  lemma LastField(q: nat, f: nat, w: nat)
    requires f < Pow2(w)
    ensures Low(Shl(q, w) + f, w) == f && Shr(Shl(q, w) + f, w) == q
  {
    DivModUnique(Shl(q, w) + f, Pow2(w), q, f);
  }

  lemma LowBound(x: nat, s: nat)
    ensures Low(x, s) < Pow2(s)
  {
  }

  lemma {:induction false} PackSpread(chunk: seq<nat>, byte: nat, p: Plane)
    requires Below(chunk, p.shift)
    requires |chunk| * p.width >= 0 && byte < Pow2(|chunk| * p.width)
    ensures PackByte(SpreadByte(chunk, byte, p), p) == byte
    ensures Below(SpreadByte(chunk, byte, p), p.shift + p.width)
  {
    hide Pow2, Or, Field, Shl, Shr, Low;
    if chunk != [] {
      hide PackByte, SpreadByte;
      var n := |chunk| - 1;
      QuotientBound(byte, n, p.width);
      var f, q := SplitBits(byte, p.width);
      PackSpread(chunk[..n], q, p);
      OrSum(chunk[n], f, p.shift);
      FieldOfParts(chunk[n], f, p.shift, p.width);
      ShlBound(f, p.width, p.shift);
      SpreadLast(chunk, byte, p);
      PackAppend(SpreadByte(chunk[..n], q, p), Or(chunk[n], Shl(f, p.shift)), p);
    } else {
      NoBits(p.width);
    }
  }

  lemma SpreadLast(chunk: seq<nat>, byte: nat, p: Plane)
    requires chunk != []
    ensures var n := |chunk| - 1;
            SpreadByte(chunk, byte, p)
            == SpreadByte(chunk[..n], Shr(byte, p.width), p) + [Or(chunk[n], Shl(Low(byte, p.width), p.shift))]
  {
    hide Or, Shl, Shr, Low;
  }

  lemma PackAppend(chunk: seq<nat>, x: nat, p: Plane)
    ensures PackByte(chunk + [x], p) == Shl(PackByte(chunk, p), p.width) + Field(x, p.shift, p.width)
  {
    hide Shl, Field;
    assert (chunk + [x])[..|chunk|] == chunk;
  }

  lemma SplitBits(x: nat, w: nat) returns (f: nat, q: nat)
    ensures f == Low(x, w) < Pow2(w) && q == Shr(x, w) && x == Shl(q, w) + f
  {
    var r, k := Split(x, Pow2(w));
    f, q := Low(x, w), Shr(x, w);
  }

  lemma QuotientBound(byte: nat, n: nat, w: nat)
    requires (n + 1) * w >= 0 && byte < Pow2((n + 1) * w)
    ensures n * w >= 0 && Shr(byte, w) < Pow2(n * w)
  {
    hide Pow2;
    NextMultiple(n, w);
    var k := n * w;
    Pow2Add(k, w);
    QuotientBelow(byte, Pow2(k), Pow2(w));
  }

  lemma NextMultiple(n: nat, w: nat)
    ensures n * w >= 0 && (n + 1) * w == n * w + w
  {
    MulMonotone(0, n, w);
  }

  lemma QuotientBelow(x: nat, c: nat, m: nat)
    requires m > 0 && x < c * m
    ensures x / m < c
  {
    var r, q := Split(x, m);
    if q >= c {
      MulMonotone(c, q, m);
    }
  }

  /** A whole plane restores the next bits of every value. */
  lemma {:induction false} SpreadPackedPlane(data: seq<nat>, p: Plane)
    requires p.Valid() && |data| % p.Per() == 0
    ensures SpreadPlane(LowAll(data, p.shift), PackPlane(data, p), p) == LowAll(data, p.shift + p.width)
    decreases |data|
  {
    hide Low, PackByte, SpreadByte, Plane.Per, Plane.Valid;
    PerDivides(|data|, p);
    var n := p.Per();
    if |data| < n {
      assert LowAll(data, p.shift) == LowAll(data, p.shift + p.width);
    } else {
      SpreadPackedPlane(data[n..], p);
      SpreadPacked(data[..n], p);
      var low := LowAll(data, p.shift);
      assert low[..n] == LowAll(data[..n], p.shift) && low[n..] == LowAll(data[n..], p.shift);
      assert LowAll(data, p.shift + p.width)
             == LowAll(data[..n], p.shift + p.width) + LowAll(data[n..], p.shift + p.width);
    }
  }

  lemma PerDivides(n: nat, p: Plane)
    requires p.Valid() && n % p.Per() == 0
    ensures n < p.Per() ==> n == 0
    ensures n >= p.Per() ==> (n - p.Per()) % p.Per() == 0
  {
  }

  /** Packing what was spread gives the bytes back, and the values stay below the next plane. */
  lemma {:induction false} PackSpreadPlane(values: seq<nat>, bytes: seq<nat>, p: Plane)
    requires p.Valid() && |values| % p.Per() == 0 && |bytes| == |values| / p.Per()
    requires Below(values, p.shift) && Below(bytes, 8)
    ensures PackPlane(SpreadPlane(values, bytes, p), p) == bytes
    ensures Below(SpreadPlane(values, bytes, p), p.shift + p.width)
    decreases |values|
  {
    hide PackByte, SpreadByte, Pow2;
    PerDivides(|values|, p);
    var n := p.Per();
    if |values| >= n {
      PackSpreadPlane(values[n..], bytes[1..], p);
      PackSpread(values[..n], bytes[0], p);
      var first := SpreadByte(values[..n], bytes[0], p);
      var r := SpreadPlane(values, bytes, p);
      assert r[..n] == first && r[n..] == SpreadPlane(values[n..], bytes[1..], p);
    }
  }

  /** A plane only reads the low bits of the values. */
  lemma {:induction false} PackByteLow(chunk: seq<nat>, p: Plane, t: nat)
    requires p.shift + p.width <= t
    ensures PackByte(LowAll(chunk, t), p) == PackByte(chunk, p)
  {
    if chunk != [] {
      var n := |chunk| - 1;
      PackByteLow(chunk[..n], p, t);
      FieldOfLow(chunk[n], p.shift, p.width, t);
      assert LowAll(chunk, t)[..n] == LowAll(chunk[..n], t);
    }
  }

  lemma {:induction false} PackPlaneLow(data: seq<nat>, p: Plane, t: nat)
    requires p.Valid() && p.shift + p.width <= t
    ensures PackPlane(LowAll(data, t), p) == PackPlane(data, p)
    decreases |data|
  {
    hide PackByte, Low, Plane.Per;
    var n := p.Per();
    if |data| >= n {
      PackPlaneLow(data[n..], p, t);
      PackByteLow(data[..n], p, t);
      var low := LowAll(data, t);
      assert low[..n] == LowAll(data[..n], t) && low[n..] == LowAll(data[n..], t);
    }
  }

  // --------------------------------------------------------------------------- schedules

  /** Planes that cover the bits [0, top) without gap or overlap. */
  predicate Covers(planes: seq<Plane>, top: nat) {
    if planes == [] then top == 0
    else
      var p := planes[|planes| - 1];
      p.Valid() && p.shift + p.width == top && Covers(planes[..|planes| - 1], p.shift)
  }

  function Pack(data: seq<nat>, planes: seq<Plane>, top: nat): (bytes: seq<nat>)
    requires Covers(planes, top)
    decreases |planes|
  {
    if planes == [] then []
    else
      var n := |planes| - 1;
      Pack(data, planes[..n], planes[n].shift) + PackPlane(data, planes[n])
  }

  /** The values of count fields read from the front of bytes, and the bytes left over; None if they run out. */
  function Unpack(count: nat, bytes: seq<nat>, planes: seq<Plane>, top: nat): (r: Option<(seq<nat>, seq<nat>)>)
    requires Covers(planes, top)
    ensures r.Some? ==> |r.value.0| == count
    decreases |planes|
  {
    if planes == [] then Some((seq(count, i => 0), bytes))
    else
      var n := |planes| - 1;
      var p := planes[n];
      var before := Unpack(count, bytes, planes[..n], p.shift);
      if before.None? then None
      else
        var (values, rest) := before.value;
        var need := count / p.Per();
        if |rest| < need then None
        else Some((SpreadPlane(values, rest[..need], p), rest[need..]))
  }

  lemma LowAllZero(data: seq<nat>)
    ensures LowAll(data, 0) == seq(|data|, i => 0)
  {
  }

  lemma EightDivides(n: nat, p: Plane)
    requires p.Valid() && n % 8 == 0
    ensures n % p.Per() == 0
    ensures n / p.Per() == n / 8 * p.width
  {
  }

  /** Unpacking what was packed gives the low bits of every value and leaves everything that follows. */
  lemma {:induction false} UnpackPacked(data: seq<nat>, rest: seq<nat>, planes: seq<Plane>, top: nat)
    requires Covers(planes, top) && |data| % 8 == 0
    ensures Unpack(|data|, Pack(data, planes, top) + rest, planes, top) == Some((LowAll(data, top), rest))
    decreases |planes|
  {
    hide Low, PackPlane, SpreadPlane, Plane.Per;
    if planes == [] {
      LowAllZero(data);
      assert Pack(data, planes, top) + rest == rest;
    } else {
      var n := |planes| - 1;
      var p := planes[n];
      var head, tail := Pack(data, planes[..n], p.shift), PackPlane(data, p);
      UnpackPacked(data, tail + rest, planes[..n], p.shift);
      assert head + (tail + rest) == Pack(data, planes, top) + rest;
      EightDivides(|data|, p);
      SpreadPackedPlane(data, p);
      assert (tail + rest)[..|tail|] == tail && (tail + rest)[|tail|..] == rest;
    }
  }

  /** Packing what was unpacked gives the consumed bytes back; exactly count / 8 * top of them. */
  lemma {:induction false} PackUnpacked(count: nat, bytes: seq<nat>, planes: seq<Plane>, top: nat)
    requires Covers(planes, top) && count % 8 == 0 && Below(bytes, 8)
    ensures Unpack(count, bytes, planes, top).Some? <==> count / 8 * top <= |bytes|
    ensures Unpack(count, bytes, planes, top).Some? ==>
              var (values, rest) := Unpack(count, bytes, planes, top).value;
              && Pack(values, planes, top) + rest == bytes
              && Below(values, top) && |bytes| - |rest| == count / 8 * top
    decreases |planes|
  {
    hide Low, PackPlane, SpreadPlane, Plane.Per, Pow2;
    if planes == [] {
      PackNothing(count, bytes, planes);
    } else {
      var n := |planes| - 1;
      var p := planes[n];
      PackUnpacked(count, bytes, planes[..n], p.shift);
      Widths(count / 8, p.shift, p.width);
      EightDivides(count, p);
      if Unpack(count, bytes, planes[..n], p.shift).Some? {
        var (values, rest) := Unpack(count, bytes, planes[..n], p.shift).value;
        var need := count / p.Per();
        if need <= |rest| {
          SuffixBelow(Pack(values, planes[..n], p.shift), rest, 8);
          PackStep(count, bytes, planes, p, values, rest, need);
        }
      }
    }
  }

  lemma PackNothing(count: nat, bytes: seq<nat>, planes: seq<Plane>)
    requires planes == []
    ensures count / 8 * 0 == 0
    ensures Unpack(count, bytes, planes, 0) == Some((seq(count, i => 0), bytes))
    ensures Below(seq(count, i => 0), 0) && Pack(seq(count, i => 0), planes, 0) + bytes == bytes
  {
  }

  lemma Widths(k: nat, s: nat, w: nat)
    ensures k * (s + w) == k * s + k * w && k * s >= 0 && k * w >= 0
  {
    MulMonotone(0, k, s);
    MulMonotone(0, k, w);
  }

  lemma SuffixBelow(x: seq<nat>, y: seq<nat>, t: nat)
    requires Below(x + y, t)
    ensures Below(y, t)
  {
    forall i | 0 <= i < |y|
      ensures y[i] < Pow2(t)
    {
      assert (x + y)[|x| + i] == y[i];
    }
  }

  lemma PackStep(count: nat, bytes: seq<nat>, planes: seq<Plane>, p: Plane, values: seq<nat>, rest: seq<nat>, need: nat)
    requires planes != [] && p == planes[|planes| - 1] && Covers(planes, p.shift + p.width)
    requires count % 8 == 0 && |values| == count && need == count / p.Per() <= |rest|
    requires Below(values, p.shift) && Below(rest, 8)
    requires Pack(values, planes[..|planes| - 1], p.shift) + rest == bytes
    ensures var next := SpreadPlane(values, rest[..need], p);
            && Pack(next, planes, p.shift + p.width) + rest[need..] == bytes
            && Below(next, p.shift + p.width)
  {
    var init := planes[..|planes| - 1];
    assert Covers(init, p.shift) && p.Valid();
    EightDivides(count, p);
    hide *;
    var head := rest[..need];
    var next := SpreadPlane(values, head, p);
    PrefixBelow(rest, need, 8);
    PackSpreadPlane(values, head, p);
    SpreadKeepsLow(values, head, p);
    PackLow(next, init, p.shift, p.shift);
    PackLow(values, init, p.shift, p.shift);
    PackLast(next, planes, p);
    Reassemble(Pack(values, init, p.shift), rest, need);
  }

  lemma Reassemble(x: seq<nat>, rest: seq<nat>, need: nat)
    requires need <= |rest|
    ensures x + rest[..need] + rest[need..] == x + rest
  {
  }

  lemma PrefixBelow(x: seq<nat>, n: nat, t: nat)
    requires Below(x, t) && n <= |x|
    ensures Below(x[..n], t)
  {
  }

  lemma PackLast(data: seq<nat>, planes: seq<Plane>, p: Plane)
    requires planes != [] && p == planes[|planes| - 1] && Covers(planes, p.shift + p.width)
    ensures Pack(data, planes, p.shift + p.width) == Pack(data, planes[..|planes| - 1], p.shift) + PackPlane(data, p)
  {
  }

  /** Packing only depends on the low bits. */
  lemma {:induction false} PackLow(data: seq<nat>, planes: seq<Plane>, top: nat, t: nat)
    requires Covers(planes, top) && top <= t
    ensures Pack(LowAll(data, t), planes, top) == Pack(data, planes, top)
    decreases |planes|
  {
    hide Low, PackPlane;
    if planes != [] {
      var n := |planes| - 1;
      PackLow(data, planes[..n], planes[n].shift, t);
      PackPlaneLow(data, planes[n], t);
    }
  }

  /** Spreading a plane does not touch the bits below it. */
  lemma {:induction false} SpreadByteKeepsLow(chunk: seq<nat>, byte: nat, p: Plane)
    requires Below(chunk, p.shift)
    ensures LowAll(SpreadByte(chunk, byte, p), p.shift) == LowAll(chunk, p.shift)
  {
    if chunk != [] {
      var n := |chunk| - 1;
      var f := Low(byte, p.width);
      SpreadByteKeepsLow(chunk[..n], Shr(byte, p.width), p);
      OrSum(chunk[n], f, p.shift);
      ModShift(chunk[n], f, Pow2(p.shift));
      var r := SpreadByte(chunk, byte, p);
      assert LowAll(r, p.shift) == LowAll(r[..n], p.shift) + [Low(r[n], p.shift)];
      assert LowAll(chunk, p.shift) == LowAll(chunk[..n], p.shift) + [Low(chunk[n], p.shift)];
    }
  }

  lemma {:induction false} SpreadKeepsLow(values: seq<nat>, bytes: seq<nat>, p: Plane)
    requires p.Valid() && |bytes| == |values| / p.Per() && Below(values, p.shift)
    ensures LowAll(SpreadPlane(values, bytes, p), p.shift) == LowAll(values, p.shift)
    decreases |values|
  {
    hide Low, SpreadByte, Pow2, Plane.Per;
    var n := p.Per();
    if |values| >= n {
      SpreadByteKeepsLow(values[..n], bytes[0], p);
      SpreadKeepsLow(values[n..], bytes[1..], p);
      var x, y := SpreadByte(values[..n], bytes[0], p), SpreadPlane(values[n..], bytes[1..], p);
      assert LowAll(x + y, p.shift) == LowAll(x, p.shift) + LowAll(y, p.shift);
      assert LowAll(values, p.shift) == LowAll(values[..n], p.shift) + LowAll(values[n..], p.shift);
    }
  }

  // --------------------------------------------------------------- condense and uncondense

  /** Full bytes first, then a half-byte plane, a quarter-byte plane and a bit plane where the width has them. */
  function Schedule(bits: nat): seq<Plane> {
    BytePlanes(bits / 8)
    + OnePlane(bits % 8 >= 4, Plane(bits / 8 * 8, 4))
    + OnePlane(bits % 4 >= 2, Plane(bits / 4 * 4, 2))
    + OnePlane(bits % 2 >= 1, Plane(bits / 2 * 2, 1))
  }

  function BytePlanes(n: nat): seq<Plane> {
    seq(n, i requires 0 <= i => Plane(8 * i, 8))
  }

  function OnePlane(present: bool, p: Plane): seq<Plane> {
    if present then [p] else []
  }

  lemma {:induction false} BytePlanesCover(n: nat)
    ensures Covers(BytePlanes(n), 8 * n)
  {
    if n > 0 {
      BytePlanesCover(n - 1);
      assert BytePlanes(n)[..n - 1] == BytePlanes(n - 1);
    }
  }

  lemma CoversIf(planes: seq<Plane>, present: bool, p: Plane, top: nat)
    requires Covers(planes, p.shift) && p.Valid()
    requires top == p.shift + if present then p.width else 0
    ensures Covers(planes + OnePlane(present, p), top)
  {
    if present {
      assert (planes + [p])[..|planes|] == planes;
    } else {
      assert planes + [] == planes;
    }
  }

  /** The four kinds of planes together cover the whole width. */
  lemma ScheduleCovers(bits: nat)
    ensures Covers(Schedule(bits), bits)
  {
    hide Covers;
    var a, b, c := bits / 8 * 8, bits / 4 * 4, bits / 2 * 2;
    WidthParts(bits);
    var bytes := BytePlanes(bits / 8);
    BytePlanesCover(bits / 8);
    CoversIf(bytes, bits % 8 >= 4, Plane(a, 4), b);
    CoversIf(bytes + OnePlane(bits % 8 >= 4, Plane(a, 4)), bits % 4 >= 2, Plane(b, 2), c);
    CoversIf(bytes + OnePlane(bits % 8 >= 4, Plane(a, 4)) + OnePlane(bits % 4 >= 2, Plane(b, 2)),
             bits % 2 >= 1, Plane(c, 1), bits);
  }

  lemma WidthParts(bits: nat)
    ensures bits / 8 * 8 == 8 * (bits / 8)
    ensures bits / 4 * 4 == bits / 8 * 8 + (if bits % 8 >= 4 then 4 else 0)
    ensures bits / 2 * 2 == bits / 4 * 4 + (if bits % 4 >= 2 then 2 else 0)
    ensures bits == bits / 2 * 2 + (if bits % 2 >= 1 then 1 else 0)
  {
    HalfParts(bits, 4);
    HalfParts(bits, 2);
  }

  lemma HalfParts(bits: nat, m: nat)
    requires m > 0
    ensures bits / m * m == bits / (2 * m) * (2 * m) + (if bits % (2 * m) >= m then m else 0)
  {
    var r, q := Split(bits, 2 * m);
    var high := if r >= m then 1 else 0;
    assert bits == (2 * q + high) * m + (r - high * m) by {
      assert (2 * q + high) * m == q * (2 * m) + high * m;
    }
    DivModUnique(bits, m, 2 * q + high, r - high * m);
    assert (2 * q + high) * m == q * (2 * m) + high * m;
  }

  function CondenseOf(bits: nat, data: seq<nat>): (bytes: seq<nat>) {
    ScheduleCovers(bits);
    Pack(data, Schedule(bits), bits)
  }

  function UncondenseOf(bits: nat, count: nat, bytes: seq<nat>): (r: Option<(seq<nat>, seq<nat>)>)
    ensures r.Some? ==> |r.value.0| == count
  {
    ScheduleCovers(bits);
    Unpack(count, bytes, Schedule(bits), bits)
  }

  /** Values that fit the width survive, and whatever follows in the stream is left untouched. */
  lemma CondenseRoundTrip(bits: nat, data: seq<nat>, rest: seq<nat>)
    requires |data| % 8 == 0 && Below(data, bits)
    ensures UncondenseOf(bits, |data|, CondenseOf(bits, data) + rest) == Some((data, rest))
  {
    ScheduleCovers(bits);
    UnpackPacked(data, rest, Schedule(bits), bits);
    forall i | 0 <= i < |data|
      ensures LowAll(data, bits)[i] == data[i]
    {
      DivModUnique(data[i], Pow2(bits), 0, data[i]);
    }
    assert LowAll(data, bits) == data;
  }

  /** Any byte string of the right length is the packing of what it unpacks to. */
  lemma UncondenseRoundTrip(bits: nat, count: nat, bytes: seq<nat>)
    requires count % 8 == 0 && Below(bytes, 8)
    ensures UncondenseOf(bits, count, bytes).Some? <==> count / 8 * bits <= |bytes|
    ensures UncondenseOf(bits, count, bytes).Some? ==>
              var (values, rest) := UncondenseOf(bits, count, bytes).value;
              && CondenseOf(bits, values) + rest == bytes
              && Below(values, bits) && |bytes| - |rest| == count / 8 * bits
  {
    ScheduleCovers(bits);
    PackUnpacked(count, bytes, Schedule(bits), bits);
  }

  lemma {:induction false} PackLength(data: seq<nat>, planes: seq<Plane>, top: nat)
    requires Covers(planes, top) && |data| % 8 == 0
    ensures |Pack(data, planes, top)| == |data| / 8 * top
    decreases |planes|
  {
    hide PackPlane, Plane.Per;
    if planes == [] {
      assert |data| / 8 * top == 0;
    } else {
      var n := |planes| - 1;
      PackLength(data, planes[..n], planes[n].shift);
      EightDivides(|data|, planes[n]);
      Widths(|data| / 8, planes[n].shift, planes[n].width);
    }
  }

  /** The length that the final debug assertion of condense expects. */
  lemma CondenseLength(bits: nat, data: seq<nat>)
    requires |data| % 8 == 0
    ensures |CondenseOf(bits, data)| == |data| / 8 * bits
  {
    ScheduleCovers(bits);
    PackLength(data, Schedule(bits), bits);
  }

  // -------------------------------------------------------------------- the loops themselves

  lemma PackOneMore(packed: nat, f: nat, w: nat, r: nat)
    requires f < Pow2(w) && w <= r
    ensures Or(Shl(packed, r), Shl(f, r - w)) == Shl(Shl(packed, w) + f, r - w)
  {
    ShlBound(f, w, r - w);
    OrSum(Shl(f, r - w), packed, r);
    ShlShl(packed, w, r - w);
    ShlAdd(Shl(packed, w), f, r - w);
  }

  /** One byte of a plane: the extracted fields, shifted into place and joined by or. */
  method CondenseByte(chunk: seq<nat>, p: Plane) returns (byte: nat)
    requires p.Valid() && |chunk| == p.Per()
    ensures byte == PackByte(chunk, p)
  {
    hide Or, Pow2, Field;
    byte := 0;
    var r := 8;
    for j := 0 to |chunk|
      invariant j * p.width + r == 8
      invariant byte == Shl(PackByte(chunk[..j], p), r)
    {
      var f := Field(chunk[j], p.shift, p.width);
      FieldBound(chunk[j], p.shift, p.width);
      RoomLeft(j, p, r);
      PackOneMore(PackByte(chunk[..j], p), f, p.width, r);
      assert chunk[..j + 1][..j] == chunk[..j];
      r := r - p.width;
      byte := Or(byte, Shl(f, r));
    }
    assert chunk[..|chunk|] == chunk;
    ShlZero(PackByte(chunk, p));
  }

  lemma FieldBound(x: nat, s: nat, w: nat)
    ensures Field(x, s, w) < Pow2(w)
  {
  }

  lemma ShlZero(x: nat)
    ensures Shl(x, 0) == x
  {
  }

  lemma RoomLeft(j: nat, p: Plane, r: nat)
    requires p.Valid() && j < p.Per() && j * p.width + r == 8
    ensures p.width <= r && (j + 1) * p.width + (r - p.width) == 8
  {
  }

  method CondensePlane(data: seq<nat>, p: Plane) returns (bytes: seq<nat>)
    requires p.Valid()
    ensures bytes == PackPlane(data, p)
  {
    hide PackByte, PackPlane, Plane.Per, Plane.Valid;
    bytes := [];
    var c, n := 0, p.Per();
    assert data[0..] == data;
    while |data| - c >= n
      invariant 0 <= c <= |data|
      invariant bytes + PackPlane(data[c..], p) == PackPlane(data, p)
    {
      var rest := data[c..];
      PackPlaneStep(rest, p);
      var byte := CondenseByte(rest[..n], p);
      assert data[c + n..] == rest[n..];
      bytes := bytes + [byte];
      c := c + n;
    }
    PackPlaneEnd(data[c..], p);
  }

  lemma PackPlaneStep(data: seq<nat>, p: Plane)
    requires p.Valid() && |data| >= p.Per()
    ensures PackPlane(data, p) == [PackByte(data[..p.Per()], p)] + PackPlane(data[p.Per()..], p)
  {
    hide PackByte, Plane.Per;
  }

  lemma PackPlaneEnd(data: seq<nat>, p: Plane)
    requires p.Valid() && |data| < p.Per()
    ensures PackPlane(data, p) == []
  {
    hide PackByte, Plane.Per;
  }

  /** condense for values of the given width. */
  method Condense(bits: nat, data: seq<nat>) returns (result: seq<nat>)
    requires |data| % 8 == 0
    ensures result == CondenseOf(bits, data)
  {
    hide PackPlane, Pow2, Covers, Pack, BytePlanes;
    WidthParts(bits);
    result := [];
    ghost var done: seq<Plane> := [];
    NoPlanes(data);
    for i := 0 to bits / 8
      invariant done == BytePlanes(i) && Covers(done, 8 * i)
      invariant result == Pack(data, done, 8 * i)
    {
      NextBytePlane(i);
      result, done := CondenseNext(result, data, done, Plane(8 * i, 8));
    }
    if bits % 8 >= 4 {
      result, done := CondenseNext(result, data, done, Plane(bits / 8 * 8, 4));
    }
    if bits % 4 >= 2 {
      result, done := CondenseNext(result, data, done, Plane(bits / 4 * 4, 2));
    }
    if bits % 2 >= 1 {
      result, done := CondenseNext(result, data, done, Plane(bits / 2 * 2, 1));
    }
    assert done == Schedule(bits);
  }

  lemma NoPlanes(data: seq<nat>)
    ensures BytePlanes(0) == [] && Covers([], 0) && Pack(data, [], 0) == []
  {
  }

  lemma NextBytePlane(i: nat)
    ensures BytePlanes(i + 1) == BytePlanes(i) + [Plane(8 * i, 8)]
  {
  }

  /** Appends one more plane. */
  method CondenseNext(bytes: seq<nat>, data: seq<nat>, ghost done: seq<Plane>, p: Plane)
    returns (result: seq<nat>, ghost more: seq<Plane>)
    requires Covers(done, p.shift) && p.Valid()
    requires bytes == Pack(data, done, p.shift)
    ensures more == done + [p] && Covers(more, p.shift + p.width)
    ensures result == Pack(data, more, p.shift + p.width)
  {
    hide PackPlane;
    var plane := CondensePlane(data, p);
    PackMore(data, done, p);
    result, more := bytes + plane, done + [p];
  }

  lemma PackMore(data: seq<nat>, planes: seq<Plane>, p: Plane)
    requires Covers(planes, p.shift) && p.Valid()
    ensures Covers(planes + [p], p.shift + p.width)
    ensures Pack(data, planes + [p], p.shift + p.width) == Pack(data, planes, p.shift) + PackPlane(data, p)
  {
    hide PackPlane;
    assert (planes + [p])[..|planes|] == planes;
  }

  lemma ShrShr(x: nat, a: nat, b: nat)
    ensures Shr(Shr(x, a), b) == Shr(x, a + b)
  {
    Pow2Add(a, b);
    DivideTwice(x, Pow2(a), Pow2(b));
  }

  lemma DivideTwice(x: nat, a: nat, b: nat)
    requires a > 0 && b > 0
    ensures a * b > 0 && x / a / b == x / (a * b)
  {
    MulSign(a, b);
    var r, q := Split(x, a);
    var f, k := Split(q, b);
    MulMonotone(f + 1, b, a);
    JoinSplits(r, f, k, a, b);
    DivModUnique(x, a * b, k, r + f * a);
  }

  lemma JoinSplits(r: int, f: int, k: int, a: int, b: int)
    ensures (f + 1) * a == f * a + a && b * a == a * b
    ensures r + (f + k * b) * a == k * (a * b) + (r + f * a)
  {
    TripleProduct(k, b, a);
  }

  lemma {:induction false} SpreadByteAt(chunk: seq<nat>, byte: nat, p: Plane, j: nat, r: nat)
    requires j < |chunk| && (j + 1) * p.width + r == |chunk| * p.width
    ensures SpreadByte(chunk, byte, p)[j] == Or(chunk[j], Shl(Field(byte, r, p.width), p.shift))
  {
    hide Or, Low, Pow2;
    var n := |chunk| - 1;
    if j < n {
      NextMultiple(n, p.width);
      NextMultiple(j, p.width);
      EnoughLeft(j, n, p.width, r);
      SpreadByteAt(chunk[..n], Shr(byte, p.width), p, j, r - p.width);
      ShrShr(byte, p.width, r - p.width);
    } else {
      ShrNothing(byte);
    }
  }

  lemma EnoughLeft(j: nat, n: nat, w: nat, r: nat)
    requires j < n && (j + 1) * w + r == (n + 1) * w
    ensures w <= r && (j + 1) * w + (r - w) == n * w
  {
    MulMonotone(j + 1, n, w);
    assert (n + 1) * w == n * w + w;
  }

  lemma ShrNothing(x: nat)
    ensures Shr(x, 0) == x
  {
  }

  /** One source byte joins its fields into the next values, in place. */
  method UncondenseByte(values: array<nat>, c: nat, p: Plane, byte: nat)
    requires p.Valid() && c + p.Per() <= values.Length
    modifies values
    ensures values[..] == old(values[..c]) + SpreadByte(old(values[c..c + p.Per()]), byte, p) + old(values[c + p.Per()..])
  {
    hide Or, Pow2, Field, SpreadByte;
    ghost var was := values[..];
    ghost var chunk := was[c..c + p.Per()];
    var r := 8;
    for j := 0 to p.Per()
      invariant j * p.width + r == 8
      invariant forall x :: 0 <= x < j ==> values[c + x] == SpreadByte(chunk, byte, p)[x]
      invariant forall x :: 0 <= x < c || c + j <= x < values.Length ==> values[x] == was[x]
    {
      RoomLeft(j, p, r);
      r := r - p.width;
      SpreadByteAt(chunk, byte, p, j, r);
      values[c + j] := Or(values[c + j], Shl(Field(byte, r, p.width), p.shift));
    }
    assert values[..c] == was[..c] && values[c + p.Per()..] == was[c + p.Per()..];
    assert values[c..c + p.Per()] == SpreadByte(chunk, byte, p);
    ThreeParts(values[..], c, c + p.Per());
  }

  lemma ThreeParts<T>(s: seq<T>, i: nat, j: nat)
    requires i <= j <= |s|
    ensures s == s[..i] + s[i..j] + s[j..]
  {
  }

  /** One plane of uncondense; ok is false when the bytes run out, which the program reports by panicking. */
  method UncondensePlane(values: array<nat>, p: Plane, data: seq<nat>) returns (ok: bool, rest: seq<nat>)
    requires p.Valid()
    modifies values
    ensures ok <==> values.Length / p.Per() <= |data|
    ensures ok ==> rest == data[values.Length / p.Per()..]
    ensures ok ==> values[..] == SpreadPlane(old(values[..]), data[..values.Length / p.Per()], p)
  {
    hide SpreadByte, SpreadPlane, Plane.Per, Plane.Valid, Spreading;
    ghost var was := values[..];
    var n := p.Per();
    ghost var need := values.Length / n;
    rest := data;
    var c := 0;
    ghost var k := 0;
    SpreadingStart(was, data, p, need);
    while values.Length - c >= n
      invariant 0 <= c <= values.Length && 0 <= k <= need && k <= |data|
      invariant c == k * n && rest == data[k..]
      invariant Spreading(was, values[..], data, p, c, k, need)
    {
      MoreChunks(values.Length, c, k, n);
      if rest == [] {
        return false, [];
      }
      ghost var before := values[..];
      UncondenseByte(values, c, p, rest[0]);
      SpreadStep(was, before, values[..], data, p, c, k, need);
      rest := rest[1..];
      c := c + n;
      k := k + 1;
    }
    MoreChunks(values.Length, c, k, n);
    ok := true;
    SpreadingEnd(was, values[..], data, p, c, k, need);
  }

  /** The values up to c are spread, the others untouched. */
  ghost predicate Spreading(was: seq<nat>, now: seq<nat>, data: seq<nat>, p: Plane, c: nat, k: nat, need: nat) {
    && p.Valid() && c == k * p.Per() && c <= |now| == |was| && need == |was| / p.Per() && k <= need && k <= |data|
    && now[c..] == was[c..] && (|was| - c) / p.Per() == need - k
    && (need <= |data| ==> now[..c] + SpreadPlane(was[c..], data[k..need], p) == SpreadPlane(was, data[..need], p))
  }

  lemma SpreadingStart(was: seq<nat>, data: seq<nat>, p: Plane, need: nat)
    requires p.Valid() && need == |was| / p.Per()
    ensures Spreading(was, was, data, p, 0, 0, need)
  {
    hide SpreadPlane, Plane.Per;
    MoreChunks(|was|, 0, 0, p.Per());
    assert was[0..] == was;
    if need <= |data| {
      assert data[0..need] == data[..need];
      assert was[..0] + SpreadPlane(was[0..], data[0..need], p) == SpreadPlane(was, data[..need], p);
    }
  }

  lemma SpreadingEnd(was: seq<nat>, now: seq<nat>, data: seq<nat>, p: Plane, c: nat, k: nat, need: nat)
    requires Spreading(was, now, data, p, c, k, need) && |was| - c < p.Per() && k == need
    ensures now == SpreadPlane(was, data[..need], p)
  {
    hide Plane.Per;
    assert SpreadPlane(was[c..], data[k..need], p) == was[c..];
    assert now == now[..c] + now[c..];
  }

  lemma MoreChunks(length: nat, c: nat, k: nat, n: nat)
    requires n > 0 && c == k * n && c <= length
    ensures length - c >= n ==> k < length / n
    ensures length - c < n ==> k == length / n
    ensures (k + 1) * n == c + n
    ensures (length - c) / n == length / n - k
  {
    assert (k + 1) * n == k * n + n;
    var r, q := Split(length - c, n);
    assert (k + q) * n == k * n + q * n;
    DivModUnique(length, n, k + q, r);
    MulSign(q, n);
  }

  lemma SpreadStep(was: seq<nat>, before: seq<nat>, after: seq<nat>, data: seq<nat>, p: Plane, c: nat, k: nat, need: nat)
    requires Spreading(was, before, data, p, c, k, need)
    requires c + p.Per() <= |was| && k < need && k < |data|
    requires after == before[..c] + SpreadByte(before[c..c + p.Per()], data[k], p) + before[c + p.Per()..]
    ensures Spreading(was, after, data, p, c + p.Per(), k + 1, need)
  {
    hide SpreadByte, SpreadPlane, Plane.Per, Plane.Valid;
    var n := p.Per();
    MoreChunks(|was|, c, k, n);
    MoreChunks(|was|, c + n, k + 1, n);
    var x := SpreadByte(before[c..c + n], data[k], p);
    SameTail(was, before, c, n);
    ThreePieces(before[..c], x, before[c + n..], after);
    if need <= |data| {
      OneChunk(was, data, p, c, k, need);
      var rest := SpreadPlane(was[c + n..], data[k + 1..need], p);
      assert before[..c] + (x + rest) == before[..c] + x + rest;
    }
  }

  lemma ThreePieces(x: seq<nat>, y: seq<nat>, z: seq<nat>, all: seq<nat>)
    requires all == x + y + z
    ensures all[..|x| + |y|] == x + y && all[|x| + |y|..] == z
  {
  }

  lemma SameTail(was: seq<nat>, before: seq<nat>, c: nat, n: nat)
    requires |before| == |was| && c + n <= |was| && before[c..] == was[c..]
    ensures before[c..c + n] == was[c..c + n] && before[c + n..] == was[c + n..]
  {
    assert before[c..c + n] == before[c..][..n];
    assert was[c..c + n] == was[c..][..n];
    assert before[c + n..] == before[c..][n..];
    assert was[c + n..] == was[c..][n..];
  }

  lemma OneChunk(was: seq<nat>, data: seq<nat>, p: Plane, c: nat, k: nat, need: nat)
    requires p.Valid() && c + p.Per() <= |was| && k < need <= |data| && (|was| - c) / p.Per() == need - k
    requires (|was| - (c + p.Per())) / p.Per() == need - (k + 1)
    ensures SpreadPlane(was[c..], data[k..need], p)
            == SpreadByte(was[c..c + p.Per()], data[k], p) + SpreadPlane(was[c + p.Per()..], data[k + 1..need], p)
  {
    hide SpreadByte, Plane.Per;
    var n := p.Per();
    var bytes := data[k..need];
    assert bytes[0] == data[k] && bytes[1..] == data[k + 1..need];
    assert was[c..][..n] == was[c..c + n] && was[c..][n..] == was[c + n..];
  }

  /** One more plane of uncondense, against Unpack. */
  method UncondenseNext(values: array<nat>, ok: bool, data: seq<nat>, ghost bytes: seq<nat>, ghost done: seq<Plane>, p: Plane)
    returns (more: bool, rest: seq<nat>, ghost planes: seq<Plane>)
    requires Covers(done, p.shift) && p.Valid()
    requires Reads(values.Length, bytes, done, p.shift, ok, values[..], data)
    modifies values
    ensures planes == done + [p] && Covers(planes, p.shift + p.width)
    ensures Reads(values.Length, bytes, planes, p.shift + p.width, more, values[..], rest)
  {
    hide SpreadPlane, Plane.Per;
    planes := done + [p];
    assert planes[..|done|] == done;
    if !ok {
      return false, [], planes;
    }
    more, rest := UncondensePlane(values, p, data);
  }

  /** What uncondense has after some planes: the values and the rest of the stream, or nothing. */
  ghost predicate Reads(count: nat, bytes: seq<nat>, planes: seq<Plane>, top: nat, ok: bool, values: seq<nat>, rest: seq<nat>)
    requires Covers(planes, top)
  {
    Unpack(count, bytes, planes, top) == if ok then Some((values, rest)) else None
  }

  /** uncondense: the values and what is left of the stream, or None when there is not enough data. */
  method Uncondense(bits: nat, count: nat, bytes: seq<nat>) returns (r: Option<(seq<nat>, seq<nat>)>)
    ensures r == UncondenseOf(bits, count, bytes)
  {
    hide Reads, Covers, BytePlanes;
    WidthParts(bits);
    var values := new nat[count](i => 0);
    var ok, rest := true, bytes;
    ghost var done: seq<Plane> := [];
    NoPlanesRead(count, bytes);
    assert values[..] == seq(count, i => 0);
    for i := 0 to bits / 8
      invariant done == BytePlanes(i) && Covers(done, 8 * i)
      invariant Reads(count, bytes, done, 8 * i, ok, values[..], rest)
    {
      NextBytePlane(i);
      ok, rest, done := UncondenseNext(values, ok, rest, bytes, done, Plane(8 * i, 8));
    }
    if bits % 8 >= 4 {
      ok, rest, done := UncondenseNext(values, ok, rest, bytes, done, Plane(bits / 8 * 8, 4));
    }
    if bits % 4 >= 2 {
      ok, rest, done := UncondenseNext(values, ok, rest, bytes, done, Plane(bits / 4 * 4, 2));
    }
    if bits % 2 >= 1 {
      ok, rest, done := UncondenseNext(values, ok, rest, bytes, done, Plane(bits / 2 * 2, 1));
    }
    assert done == Schedule(bits);
    r := if ok then Some((values[..], rest)) else None;
    ReadsIs(count, bytes, done, bits, ok, values[..], rest);
  }

  lemma ReadsIs(count: nat, bytes: seq<nat>, planes: seq<Plane>, top: nat, ok: bool, values: seq<nat>, rest: seq<nat>)
    requires Covers(planes, top) && Reads(count, bytes, planes, top, ok, values, rest)
    ensures Unpack(count, bytes, planes, top) == if ok then Some((values, rest)) else None
  {
  }

  lemma NoPlanesRead(count: nat, bytes: seq<nat>)
    ensures BytePlanes(0) == [] && Covers([], 0)
    ensures Reads(count, bytes, [], 0, true, seq(count, i => 0), bytes)
  {
  }
}
