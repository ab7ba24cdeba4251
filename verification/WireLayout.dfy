/** Where condense puts every bit, stated on byte and bit positions. */
module WireLayout {
  import opened Arith
  import opened Wire

  /** Bit k of x. */
  function Bit(x: nat, k: nat): nat {
    Shr(x, k) % 2
  }

  /** Bit k of the byte at a position has the value v. */
  predicate BitAt(bytes: seq<nat>, at: int, k: int, v: nat) {
    0 <= at < |bytes| && 0 <= k < 8 && Bit(bytes[at], k) == v
  }

  /** The w bits from bit k on of the byte at a position are f. */
  predicate FieldAt(bytes: seq<nat>, at: int, k: int, w: nat, f: nat) {
    0 <= at < |bytes| && k >= 0 && Field(bytes[at], k, w) == f
  }

  /** The plane that bit b belongs to: its lowest bit and its width. */
  function PlaneOf(bits: nat, b: nat): (r: (nat, nat))
    ensures r.1 == 1 || r.1 == 2 || r.1 == 4 || r.1 == 8
  {
    if b < bits / 8 * 8 then (b / 8 * 8, 8)
    else if b < bits / 4 * 4 then (bits / 8 * 8, 4)
    else if b < bits / 2 * 2 then (bits / 4 * 4, 2)
    else (bits / 2 * 2, 1)
  }

  /** Where chunk j starts, where a plane with the given lowest bit starts, and where value r of a chunk starts. */
  function ChunkStart(j: int, per: int): int {
    j * per
  }

  function SectionStart(n: nat, shift: int): int {
    n / 8 * shift
  }

  function FieldStart(per: int, r: int, width: int): int {
    (per - 1 - r) * width
  }

  /** Value r of a chunk comes before the ones after it, from the high end of the byte on. */
  lemma {:induction false} ByteField(chunk: seq<nat>, p: Plane, r: nat)
    requires r < |chunk|
    ensures FieldStart(|chunk|, r, p.width) >= 0
    ensures Field(PackByte(chunk, p), FieldStart(|chunk|, r, p.width), p.width) == Field(chunk[r], p.shift, p.width)
    decreases |chunk|
  {
    hide Shl, Shr, Low, Pow2, PackByte;
    var n := |chunk| - 1;
    var init := chunk[..n];
    var f := Field(chunk[n], p.shift, p.width);
    FieldBound(chunk[n], p.shift, p.width);
    assert chunk == init + [chunk[n]];
    PackAppend(init, chunk[n], p);
    LastField(PackByte(init, p), f, p.width);
    if r == n {
      ShrNothing(PackByte(chunk, p));
    } else {
      ByteField(init, p, r);
      NextMultiple(n - 1 - r, p.width);
      ShrShr(PackByte(chunk, p), p.width, (n - 1 - r) * p.width);
    }
  }

  lemma {:induction false} PlaneByte(data: seq<nat>, p: Plane, j: nat)
    requires p.Valid() && j < |data| / p.Per()
    ensures 0 <= ChunkStart(j, p.Per()) && ChunkStart(j, p.Per()) + p.Per() <= |data|
    ensures PackPlane(data, p)[j] == PackByte(data[ChunkStart(j, p.Per())..ChunkStart(j, p.Per()) + p.Per()], p)
    decreases j
  {
    hide PackByte, ChunkStart, Plane.Per;
    var n := p.Per();
    ChunkSteps(|data|, n, j);
    if j > 0 {
      PlaneByte(data[n..], p, j - 1);
      ChunkAfter(data, n, ChunkStart(j - 1, n), ChunkStart(j, n));
    }
  }

  lemma ChunkSteps(length: nat, n: nat, j: nat)
    requires n > 0 && j < length / n
    ensures ChunkStart(0, n) == 0 && n <= length && 0 <= ChunkStart(j, n)
    ensures j > 0 ==> ChunkStart(j - 1, n) + n == ChunkStart(j, n) && j - 1 < (length - n) / n
  {
    var r, q := Split(length, n);
    MulMonotone(1, q, n);
    MulMonotone(0, j, n);
    assert (q - 1) * n == q * n - n && (j - 1) * n + n == j * n;
    DivModUnique(length - n, n, q - 1, r);
  }

  lemma ChunkAfter(data: seq<nat>, n: nat, a: nat, b: nat)
    requires a + n == b && b + n <= |data|
    ensures data[n..][a..a + n] == data[b..b + n]
  {
  }

  /** Plane k starts where the bits below it end, at |data| / 8 bytes for each of them. */
  lemma {:induction false} PlaneStart(data: seq<nat>, planes: seq<Plane>, top: nat, k: nat, j: nat)
    requires Covers(planes, top) && |data| % 8 == 0 && k < |planes|
    requires planes[k].Valid() && j < |data| / planes[k].Per()
    ensures 0 <= SectionStart(|data|, planes[k].shift) + j < |Pack(data, planes, top)|
    ensures Pack(data, planes, top)[SectionStart(|data|, planes[k].shift) + j] == PackPlane(data, planes[k])[j]
    decreases |planes|
  {
    hide PackPlane, Plane.Per, Plane.Valid;
    var n := |planes| - 1;
    var before := Pack(data, planes[..n], planes[n].shift);
    if k < n {
      PlaneStart(data, planes[..n], planes[n].shift, k, j);
    } else {
      PackLength(data, planes[..n], planes[n].shift);
      assert |before| == SectionStart(|data|, planes[n].shift);
    }
  }

  /** The place of b's plane in the schedule. */
  lemma PlaneInSchedule(bits: nat, b: nat) returns (k: nat)
    requires b < bits
    ensures k < |Schedule(bits)| && Schedule(bits)[k] == Plane(PlaneOf(bits, b).0, PlaneOf(bits, b).1)
    ensures Schedule(bits)[k].Valid()
    ensures PlaneOf(bits, b).0 <= b < PlaneOf(bits, b).0 + PlaneOf(bits, b).1
  {
    WidthParts(bits);
    var bytes, half, quarter := BytePlanes(bits / 8), OnePlane(bits % 8 >= 4, Plane(bits / 8 * 8, 4)), OnePlane(bits % 4 >= 2, Plane(bits / 4 * 4, 2));
    if b < bits / 8 * 8 {
      k := b / 8;
    } else if b < bits / 4 * 4 {
      k := |bytes|;
    } else if b < bits / 2 * 2 {
      k := |bytes| + |half|;
    } else {
      k := |bytes| + |half| + |quarter|;
    }
  }

  /** Bit j of a field. */
  lemma BitOfField(x: nat, s: nat, w: nat, j: nat)
    requires j < w
    ensures Bit(Field(x, s, w), j) == Bit(x, s + j)
  {
    hide Pow2;
    ShrShr(x, s, j);
    BitOfLow(Shr(x, s), w, j);
  }

  lemma BitOfLow(y: nat, w: nat, j: nat)
    requires j < w
    ensures Bit(Low(y, w), j) == Bit(y, j)
  {
    Pow2Small();
    FieldOfLow(y, j, 1, w);
  }

  /** The field of value i in plane k. */
  lemma FieldLayout(data: seq<nat>, planes: seq<Plane>, top: nat, k: nat, i: nat)
    requires Covers(planes, top) && |data| % 8 == 0 && k < |planes| && i < |data| && planes[k].Valid()
    ensures var p := planes[k];
            FieldAt(Pack(data, planes, top), SectionStart(|data|, p.shift) + i / p.Per(),
                    FieldStart(p.Per(), i % p.Per(), p.width), p.width, Field(data[i], p.shift, p.width))
  {
    hide *;
    PerParts(|data|, planes[k]);
    var r, j, chunk := ChunkOf(data, planes[k].Per(), i);
    PlaneStart(data, planes, top, k, j);
    PlaneByte(data, planes[k], j);
    ByteField(chunk, planes[k], r);
    IsFieldAt(Pack(data, planes, top), SectionStart(|data|, planes[k].shift) + j,
              FieldStart(planes[k].Per(), r, planes[k].width), planes[k].width, Field(data[i], planes[k].shift, planes[k].width));
  }

  lemma PerParts(n: nat, p: Plane)
    requires p.Valid() && n % 8 == 0
    ensures p.Per() > 0 && n % p.Per() == 0
  {
    EightDivides(n, p);
  }

  lemma IsFieldAt(bytes: seq<nat>, at: int, k: int, w: nat, f: nat)
    requires 0 <= at < |bytes| && k >= 0 && Field(bytes[at], k, w) == f
    ensures FieldAt(bytes, at, k, w, f)
  {
  }

  /** Where value i is in its chunk. */
  lemma ChunkOf(data: seq<nat>, per: nat, i: nat) returns (r: nat, j: nat, chunk: seq<nat>)
    requires per > 0 && |data| % per == 0 && i < |data|
    ensures r == i % per < per && j == i / per < |data| / per
    ensures 0 <= ChunkStart(j, per) && ChunkStart(j, per) + per <= |data|
    ensures chunk == data[ChunkStart(j, per)..ChunkStart(j, per) + per] && |chunk| == per && chunk[r] == data[i]
  {
    var x, y := Split(i, per);
    BelowQuotient(i, |data|, per);
    var z, m := Split(|data|, per);
    r, j := i % per, i / per;
    MulMonotone(j + 1, m, per);
    MulMonotone(0, j, per);
    chunk := data[j * per..j * per + per];
  }

  lemma Places(p: Plane, i: nat)
    requires p.Valid()
    ensures p.Per() == 8 / p.width && FieldStart(p.Per(), i % p.Per(), p.width) == 8 - p.width * (i % p.Per() + 1) >= 0
    ensures p.width * (i % p.Per() + 1) >= p.width
  {
  }

  /** Bit b of value i: in the section of its plane, |data| / 8 bytes for each bit below that plane; there in byte
   *  i / per, where the values of a byte follow each other from the high end on. */
  lemma BitLayout(bits: nat, data: seq<nat>, i: nat, b: nat)
    requires |data| % 8 == 0 && i < |data| && b < bits
    ensures var (shift, width) := PlaneOf(bits, b);
            var per := 8 / width;
            && shift <= b < shift + width
            && BitAt(CondenseOf(bits, data), |data| / 8 * shift + i / per, 8 - width * (i % per + 1) + (b - shift),
                     Bit(data[i], b))
  {
    hide Bit, Field, PackByte, Pack, PackPlane, Covers, Schedule, PlaneOf, FieldStart;
    var k := PlaneInSchedule(bits, b);
    var p := Schedule(bits)[k];
    ScheduleCovers(bits);
    Places(p, i);
    hide Plane.Per;
    FieldLayout(data, Schedule(bits), bits, k, i);
    var low := FieldStart(p.Per(), i % p.Per(), p.width);
    var byte := Pack(data, Schedule(bits), bits)[SectionStart(|data|, p.shift) + i / p.Per()];
    BitOfField(byte, low, p.width, b - p.shift);
    BitOfField(data[i], p.shift, p.width, b - p.shift);
  }

  lemma BelowQuotient(i: nat, n: nat, per: nat)
    requires per > 0 && i < n && n % per == 0
    ensures i / per < n / per
  {
    var r, q := Split(i, per);
    var z, m := Split(n, per);
    if q >= m {
      MulMonotone(m, q, per);
    }
  }

  // ------------------------------------------------------------------------ enough bytes

  lemma {:induction false} UnpackLength(count: nat, bytes: seq<nat>, planes: seq<Plane>, top: nat)
    requires Covers(planes, top) && count % 8 == 0
    ensures Unpack(count, bytes, planes, top).Some? <==> count / 8 * top <= |bytes|
    ensures Unpack(count, bytes, planes, top).Some? ==>
              0 <= count / 8 * top && Unpack(count, bytes, planes, top).value.1 == bytes[count / 8 * top..]
    decreases |planes|
  {
    hide SpreadPlane, Plane.Per;
    if planes == [] {
      assert count / 8 * top == 0;
    } else {
      var n := |planes| - 1;
      var p := planes[n];
      UnpackLength(count, bytes, planes[..n], p.shift);
      EightDivides(count, p);
      Widths(count / 8, p.shift, p.width);
      assert count / 8 * p.shift >= 0;
    }
  }

  /** Reading succeeds exactly with enough bytes, and takes that many. */
  lemma UncondenseTakes(bits: nat, count: nat, bytes: seq<nat>)
    requires count % 8 == 0
    ensures UncondenseOf(bits, count, bytes).Some? <==> count / 8 * bits <= |bytes|
    ensures UncondenseOf(bits, count, bytes).Some? ==>
              0 <= count / 8 * bits && UncondenseOf(bits, count, bytes).value.1 == bytes[count / 8 * bits..]
  {
    ScheduleCovers(bits);
    UnpackLength(count, bytes, Schedule(bits), bits);
  }
}
