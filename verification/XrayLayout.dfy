/**
 * The trace buffer of the XRay profiler, byte by byte: 16-byte slots, the
 * packed call record, and annotation strings spread over consecutive slots.
 *
 * Positions in the ring are written as unbounded naturals; position `p` lives
 * in slot `p % n`, which `SlotOf` computes.  This keeps wrap-around out of every layout argument.
 */
module XrayLayout {
  import opened Wrappers
  import opened RingIndex

  type Byte = x: int | 0 <= x < 256
  type Slot = s: seq<Byte> | |s| == 16 witness seq(16, _ => 0)
  const ZERO_SLOT: Slot := seq(16, _ => 0)
  type Ring = b: seq<Slot> | |b| > 0 witness [ZERO_SLOT]

  const FRAME_MARKER: nat := 0xFFFF_FFFF
  const NULL_ANNOTATION: nat := 0
  const TWO32: nat := 0x1_0000_0000
  const TWO64: nat := 0x1_0000_0000_0000_0000

  // ---------------------------------------------------------------- integers

  function Pow256(n: nat): nat
  {
    if n == 0 then 1 else 256 * Pow256(n - 1)
  }

  /** The little-endian bytes of `x`, lowest first, truncated to `n` bytes. */
  function Le(x: nat, n: nat): (s: seq<Byte>)
    ensures |s| == n
    decreases n, x
  {
    if n == 0 then [] else [x % 256] + Le(x / 256, n - 1)
  }

  function FromLe(s: seq<Byte>): nat
  {
    if s == [] then 0 else s[0] + 256 * FromLe(s[1..])
  }

  lemma {:induction false} LeRoundTrip(x: nat, n: nat)
    requires x < Pow256(n)
    ensures FromLe(Le(x, n)) == x
  {
    if n > 0 {
      LeRoundTrip(x / 256, n - 1);
      assert Le(x, n)[1..] == Le(x / 256, n - 1);
    }
  }

  // ------------------------------------------------------ packed call records

  /** XRAY_PACK_DEPTH_ADDR: depth in the low byte, address bits 4..27 above it. */
  function Pack(depth: nat, addr: nat): (r: nat)
    ensures r % 256 == depth % 256 && r < TWO32
  {
    depth % 256 + 256 * (addr / 16 % 0x100_0000)
  }

  function ExtractDepth(x: nat): nat { x % 256 }

  function ExtractAddr(x: nat): nat { x / 256 * 16 }

  /** The arithmetic above is what the masks and shifts compute on 32 bits. */
  lemma PackIsMaskAndShift(d: bv32, a: bv32)
    ensures (d & 0xFF) | ((a << 4) & 0xFFFF_FF00) == d % 256 + 256 * (a / 16 % 0x100_0000)
    ensures (d & 0xFFFF_FF00) >> 4 == d / 256 * 16
    ensures d & 0xFF == d % 256
  {
  }

  /** A depth below 256 is always recovered; an address exactly when it is
      16-byte aligned and below 2^28. */
  lemma PackRecovers(depth: nat, addr: nat)
    requires depth < 256 && addr < TWO32
    ensures ExtractDepth(Pack(depth, addr)) == depth
    ensures ExtractAddr(Pack(depth, addr)) == addr <==> addr % 16 == 0 && addr < 0x1000_0000
  {
    var q := addr / 16;
    var hi := q % 0x100_0000;
    assert (depth + 256 * hi) / 256 == hi;
    assert hi == q <==> q < 0x100_0000;
    assert hi <= q;
  }

  function DepthAddr(s: Slot): nat { FromLe(s[..4]) }
  function AnnotationIndex(s: Slot): nat { FromLe(s[4..8]) }
  function Ticks(s: Slot): nat { FromLe(s[8..]) }

  function CallSlot(depthAddr: nat, annotation: nat, ticks: nat): Slot
  {
    Le(depthAddr, 4) + Le(annotation, 4) + Le(ticks, 8)
  }

  function WithDepthAddr(s: Slot, x: nat): Slot
  {
    Le(x, 4) + s[4..]
  }

  predicate IsAnnotation(s: Slot) { s[0] == 0 }

  lemma CallSlotFields(da: nat, annotation: nat, ticks: nat)
    requires da < TWO32 && annotation < TWO32 && ticks < TWO64
    ensures DepthAddr(CallSlot(da, annotation, ticks)) == da
    ensures AnnotationIndex(CallSlot(da, annotation, ticks)) == annotation
    ensures Ticks(CallSlot(da, annotation, ticks)) == ticks
    ensures CallSlot(da, annotation, ticks)[0] == da % 256
  {
    Pow256Values();
    var s := CallSlot(da, annotation, ticks);
    assert s[..4] == Le(da, 4) && s[4..8] == Le(annotation, 4) && s[8..] == Le(ticks, 8);
    LeRoundTrip(da, 4);
    LeRoundTrip(annotation, 4);
    LeRoundTrip(ticks, 8);
  }

  lemma Pow256Values()
    ensures Pow256(4) == TWO32 && Pow256(8) == TWO64
  {
    assert Pow256(2) == 0x1_0000;
    assert Pow256(4) == TWO32;
    assert Pow256(6) == 0x1_0000_0000_0000;
  }

  /** The marker check reads the word back: it holds exactly of a slot whose
      first word was last written as the marker. */
  lemma MarkerReadBack(s: Slot)
    ensures DepthAddr(WithDepthAddr(s, FRAME_MARKER)) == FRAME_MARKER
    ensures DepthAddr(s) == FRAME_MARKER ==> s[0] == 255
  {
    Pow256Values();
    assert WithDepthAddr(s, FRAME_MARKER)[..4] == Le(FRAME_MARKER, 4);
    LeRoundTrip(FRAME_MARKER, 4);
    assert s[..4][0] == s[0];
    assert FromLe(s[..4]) == s[0] + 256 * FromLe(s[..4][1..]);
  }

  // ------------------------------------------------------------- ring algebra

  function At(b: Ring, p: nat): Slot { b[SlotOf(p, |b|)] }

  /** Slot `i` holds some position of [a, z). */
  ghost predicate Touched(i: nat, a: nat, z: nat, n: nat)
    requires n > 0
  {
    exists p :: a <= p < z && SlotOf(p, n) == i
  }

  ghost predicate SameOutside(b: Ring, c: Ring, a: nat, z: nat)
  {
    && |b| == |c|
    && forall i :: 0 <= i < |b| && !Touched(i, a, z, |b|) ==> c[i] == b[i]
  }

  ghost predicate SameOn(b: Ring, c: Ring, a: nat, z: nat)
  {
    && |b| == |c|
    && forall p :: a <= p < z ==> At(b, p) == At(c, p)
  }

  /** Writing positions [pos, pos') leaves [a, z) alone while both fit in one lap. */
  lemma OutsideMeansSame(b: Ring, c: Ring, a: nat, z: nat, pos: nat, pos': nat)
    requires SameOutside(b, c, pos, pos')
    requires (z <= pos && pos' <= a + |b|) || (pos' <= a && z <= pos + |b|)
    ensures SameOn(b, c, a, z)
  {
    forall p | a <= p < z
      ensures At(b, p) == At(c, p)
    {
      forall q | pos <= q < pos'
        ensures SlotOf(q, |b|) != SlotOf(p, |b|)
      {
        if p < q { Distinct(p, q, |b|); } else { Distinct(q, p, |b|); }
      }
    }
  }

  // ------------------------------------------------------ annotation strings

  predicate Avoids(s: seq<Byte>, x: Byte)
  {
    forall i :: 0 <= i < |s| ==> s[i] != x
  }

  type Text = t: seq<Byte> | Avoids(t, 0) && Avoids(t, 255) witness []

  function Chunk(bytes: seq<Byte>): (k: nat)
    ensures k <= |bytes| && k <= 16
    ensures k == |bytes| || k == 16
  {
    if |bytes| < 16 then |bytes| else 16
  }

  function SlotsFor(bytes: nat): nat { (bytes + 15) / 16 }

  /** XRayTraceBufferAppendString, slot by slot: the bytes overwrite the front of
      each slot and the rest of the last slot keeps what it held. */
  function Append(b: Ring, p: nat, bytes: seq<Byte>): (c: Ring)
    ensures |c| == |b|
    decreases |bytes|
  {
    if bytes == [] then b
    else
      var k := Chunk(bytes);
      var i := SlotOf(p, |b|);
      Append(b[i := bytes[..k] + b[i][k..]], p + 1, bytes[k..])
  }

  function TextBytes(t: Text): seq<Byte> { [0] + t + [0] }

  function TextSlots(t: Text): nat { SlotsFor(|t| + 2) }

  lemma {:induction false} AppendTouches(b: Ring, p: nat, bytes: seq<Byte>)
    ensures SameOutside(b, Append(b, p, bytes), p, p + SlotsFor(|bytes|))
    decreases |bytes|
  {
    if bytes != [] {
      var k := Chunk(bytes);
      var i := SlotOf(p, |b|);
      var b1: Ring := b[i := bytes[..k] + b[i][k..]];
      AppendTouches(b1, p + 1, bytes[k..]);
      var z := p + SlotsFor(|bytes|);
      forall j | 0 <= j < |b| && !Touched(j, p, z, |b|)
        ensures Append(b, p, bytes)[j] == b[j]
      {
        assert j != i;
        assert !Touched(j, p + 1, z, |b|);
      }
    }
  }

  /** Every slot an appended string reaches starts with a byte other than 0xFF. */
  lemma {:induction false} AppendNoMarker(b: Ring, p: nat, bytes: seq<Byte>)
    requires Avoids(bytes, 255)
    ensures forall i :: 0 <= i < |b| && (Touched(i, p, p + SlotsFor(|bytes|), |b|) || b[i][0] != 255)
                  ==> Append(b, p, bytes)[i][0] != 255
    decreases |bytes|
  {
    if bytes != [] {
      var k := Chunk(bytes);
      var i := SlotOf(p, |b|);
      var b1: Ring := b[i := bytes[..k] + b[i][k..]];
      assert b1[i][0] == bytes[0];
      AppendNoMarker(b1, p + 1, bytes[k..]);
      var z := p + SlotsFor(|bytes|);
      forall j | 0 <= j < |b| && (Touched(j, p, z, |b|) || b[j][0] != 255)
        ensures Append(b, p, bytes)[j][0] != 255
      {
        if j != i && b[j][0] == 255 {
          var q :| p <= q < z && SlotOf(q, |b|) == j;
          assert p + 1 <= q;
          assert Touched(j, p + 1, z, |b|);
        }
      }
    }
  }

  /** Index of the first zero byte, or the length. */
  function FirstZero(s: seq<Byte>): (z: nat)
    ensures z <= |s| && Avoids(s[..z], 0)
    ensures z < |s| ==> s[z] == 0
  {
    if s == [] || s[0] == 0 then 0
    else
      var z := 1 + FirstZero(s[1..]);
      assert forall i :: 1 <= i < z ==> s[i] == s[1..][..z - 1][i - 1];
      z
  }

  /** Index of the first zero byte at or after `from`, or 16. */
  function ZeroFrom(s: Slot, from: nat): (z: nat)
    requires from <= 16
    ensures from <= z <= 16
  {
    from + FirstZero(s[from..])
  }

  /** Reading a zero-terminated string that starts at byte `from` of position
      `p`: its text and the number of slots it occupies.  `None` when no
      terminator lies within `fuel` slots; with `fuel == |b|` the loops of the
      source would then go round the ring for ever. */
  function Scan(b: Ring, p: nat, from: nat, fuel: nat): Option<(seq<Byte>, nat)>
    requires from <= 16
    decreases fuel
  {
    if fuel == 0 then None
    else
      var s := At(b, p);
      var z := ZeroFrom(s, from);
      if z < 16 then Some((s[from..z], 1))
      else
        match Scan(b, p + 1, 0, fuel - 1)
        case None => None
        case Some((rest, m)) => Some((s[from..] + rest, m + 1))
  }

  /** Scanning only looks at the slots it counts. */
  lemma {:induction false} ScanLocal(b: Ring, c: Ring, p: nat, from: nat, fuel: nat)
    requires from <= 16 && Scan(b, p, from, fuel).Some?
    requires SameOn(b, c, p, p + Scan(b, p, from, fuel).value.1)
    ensures Scan(c, p, from, fuel) == Scan(b, p, from, fuel)
    decreases fuel
  {
    hide ZeroFrom, SlotOf;
    assert Scan(b, p, from, fuel).value.1 >= 1;
    assert At(b, p) == At(c, p);
    if ZeroFrom(At(b, p), from) == 16 {
      ScanLocal(b, c, p + 1, 0, fuel - 1);
    }
  }

  lemma {:induction false} ScanPeriodic(b: Ring, p: nat, q: nat, from: nat, fuel: nat)
    requires from <= 16 && SlotOf(p, |b|) == SlotOf(q, |b|)
    ensures Scan(b, p, from, fuel) == Scan(b, q, from, fuel)
    decreases fuel
  {
    hide ZeroFrom, SlotOf;
    if fuel > 0 {
      assert At(b, p) == At(b, q);
      SlotOfAdd(p, q, 1, |b|);
      ScanPeriodic(b, p + 1, q + 1, 0, fuel - 1);
    }
  }

  /** When the bytes fit in one lap, later slots do not disturb the first. */
  lemma AppendFirstSlot(b: Ring, p: nat, bytes: seq<Byte>)
    requires bytes != [] && SlotsFor(|bytes|) <= |b|
    ensures var k := Chunk(bytes);
            At(Append(b, p, bytes), p) == bytes[..k] + At(b, p)[k..]
  {
    var k := Chunk(bytes);
    var i := SlotOf(p, |b|);
    var b1: Ring := b[i := bytes[..k] + b[i][k..]];
    AppendTouches(b1, p + 1, bytes[k..]);
    OutsideMeansSame(b1, Append(b1, p + 1, bytes[k..]), p, p + 1, p + 1, p + 1 + SlotsFor(|bytes| - k));
    assert At(b1, p) == b1[i];
  }

  /** The only zero byte at or after `from` is the last one. */
  predicate Terminated(bytes: seq<Byte>, from: nat)
  {
    && from < |bytes| && bytes[|bytes| - 1] == 0
    && forall i :: from <= i < |bytes| - 1 ==> bytes[i] != 0
  }

  /** From position `p` on, the slots of `c` start with these bytes. */
  ghost predicate Holds(c: Ring, p: nat, bytes: seq<Byte>)
    decreases |bytes|
  {
    bytes == [] ||
    (At(c, p)[..Chunk(bytes)] == bytes[..Chunk(bytes)] && Holds(c, p + 1, bytes[Chunk(bytes)..]))
  }

  lemma {:induction false} AppendHolds(b: Ring, p: nat, bytes: seq<Byte>)
    requires SlotsFor(|bytes|) <= |b|
    ensures Holds(Append(b, p, bytes), p, bytes)
    decreases |bytes|
  {
    if bytes != [] {
      AppendFirstSlot(b, p, bytes);
      var k := Chunk(bytes);
      var i := SlotOf(p, |b|);
      var b1: Ring := b[i := bytes[..k] + b[i][k..]];
      AppendHolds(b1, p + 1, bytes[k..]);
    }
  }

  /** Scanning a terminated string gives it back up to the terminator. */
  lemma {:induction false} ScanHolds(c: Ring, p: nat, bytes: seq<Byte>, from: nat, fuel: nat)
    requires from <= 1 && Terminated(bytes, from) && Holds(c, p, bytes)
    requires SlotsFor(|bytes|) <= fuel
    ensures Scan(c, p, from, fuel) == Some((bytes[from..|bytes| - 1], SlotsFor(|bytes|)))
    decreases |bytes|
  {
    hide ZeroFrom, SlotOf, At, Scan, Holds;
    var n := |bytes|;
    if n <= 16 {
      ScanHoldsShort(c, p, bytes, from, fuel);
    } else {
      FirstSlotFull(c, p, bytes, from);
      ScanHolds(c, p + 1, bytes[16..], 0, fuel - 1);
      ScanFull(c, p, from, fuel);
      JoinSlices(bytes, from, n - 1);
    }
  }

  lemma JoinSlices(bytes: seq<Byte>, from: nat, z: nat)
    requires from <= 16 <= z <= |bytes|
    ensures bytes[from..16] + bytes[16..][0..z - 16] == bytes[from..z]
  {
  }

  /** A slot without a terminator is read whole. */
  lemma ScanFull(c: Ring, p: nat, from: nat, fuel: nat)
    requires from <= 16 && fuel > 0 && ZeroFrom(At(c, p), from) == 16 && Scan(c, p + 1, 0, fuel - 1).Some?
    ensures var (rest, m) := Scan(c, p + 1, 0, fuel - 1).value;
      Scan(c, p, from, fuel) == Some((At(c, p)[from..] + rest, m + 1))
  {
    hide ZeroFrom, At;
  }

  lemma FirstSlotFull(c: Ring, p: nat, bytes: seq<Byte>, from: nat)
    requires |bytes| > 16 && from <= 1 && Terminated(bytes, from) && Holds(c, p, bytes)
    ensures At(c, p)[from..] == bytes[from..16] && ZeroFrom(At(c, p), from) == 16
    ensures Holds(c, p + 1, bytes[16..]) && Terminated(bytes[16..], 0)
  {
    hide ZeroFrom, SlotOf;
    var first := At(c, p);
    assert first[..16] == first;
    ZeroAt(first, from, 16);
  }

  lemma ScanHoldsShort(c: Ring, p: nat, bytes: seq<Byte>, from: nat, fuel: nat)
    requires |bytes| <= 16 && fuel > 0
    requires from <= 1 && Terminated(bytes, from) && Holds(c, p, bytes)
    ensures Scan(c, p, from, fuel) == Some((bytes[from..|bytes| - 1], 1))
  {
    var n := |bytes|;
    var first := At(c, p);
    assert forall i :: 0 <= i < n ==> first[i] == first[..n][i];
    ZeroAt(first, from, n - 1);
    hide ZeroFrom, SlotOf;
    assert first[from..n - 1] == bytes[from..n - 1];
  }

  lemma ZeroAt(s: Slot, from: nat, z: nat)
    requires from <= z <= 16
    requires forall i :: from <= i < z ==> s[i] != 0
    requires z < 16 ==> s[z] == 0
    ensures ZeroFrom(s, from) == z
  {
  }

  /** For every text that fits in the ring, from any starting position,
      CopyToString gives back what AppendString was given, and it and
      SkipAnnotation stop where appending stopped. */
  lemma AnnotationRoundTrip(b: Ring, p: nat, t: Text)
    requires TextSlots(t) <= |b|
    ensures IsAnnotation(At(Append(b, p, TextBytes(t)), p))
    ensures Scan(Append(b, p, TextBytes(t)), p, 1, |b|) == Some((t, TextSlots(t)))
  {
    var bytes := TextBytes(t);
    AppendHolds(b, p, bytes);
    ScanHolds(Append(b, p, bytes), p, bytes, 1, |b|);
    assert bytes[1..|bytes| - 1] == t;
    AppendFirstSlot(b, p, bytes);
  }
}
