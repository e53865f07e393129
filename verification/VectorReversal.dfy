/**
 Vector registers as the host keeps them: all sixteen bytes reversed. The host expressions emitted
 for vector instructions, on reversed registers, against section 6.8 of Power ISA v3.0B Book I.
 */
module VectorReversal {
  import opened Wrappers

  /** Byte 0 is the first in memory order. */
  type Vector = s: seq<Byte> | |s| == 16 witness seq(16, _ => 0)

  /** The host's image of an architected register, and back. */
  function Reversed(v: Vector): Vector { seq(16, i requires 0 <= i < 16 => v[15 - i]) }

  lemma ReversedTwice(v: Vector)
    ensures Reversed(Reversed(v)) == v
  {
  }

  lemma SameVector(x: Vector, y: Vector)
    requires forall i :: 0 <= i < 16 ==> x[i] == y[i]
    ensures x == y
  {
  }

  // ----- host intrinsics, lane by lane -----

  /** `shuffle_epi8` */
  function Shuffle(a: Vector, m: Vector): Vector {
    seq(16, i requires 0 <= i < 16 => if m[i] >= 0x80 then 0 else a[m[i] % 16])
  }

  /** `blendv_epi8` */
  function Blend(a: Vector, b: Vector, m: Vector): Vector {
    seq(16, i requires 0 <= i < 16 => if m[i] >= 0x80 then b[i] else a[i])
  }

  function Or8(x: Byte, y: Byte): Byte { ((x as bv8) | (y as bv8)) as nat }

  /** `or_si128` */
  function Or(a: Vector, b: Vector): Vector { seq(16, i requires 0 <= i < 16 => Or8(a[i], b[i])) }

  /** Byte k of a 32-bit lane shifted left by three: what leaves the byte below comes in. */
  function ShiftedByte(c: Vector, k: int): Byte
    requires 0 <= k < 16
  {
    (c[k] as int * 8 + if k % 4 == 0 then 0 else c[k - 1] as int / 32) % 0x100
  }

  /** `slli_epi32` by three */
  function ShiftLanesLeft3(c: Vector): Vector { seq(16, i requires 0 <= i < 16 => ShiftedByte(c, i)) }

  /** `alignr_epi8` */
  function AlignRight(a: Vector, b: Vector, n: nat): Vector
    requires n <= 16
  {
    (b + a)[n..n + 16]
  }

  /** `unpackhi_epi8/16/32` and `unpacklo_epi8/16/32`: elements of w bytes, alternately of a and b. */
  function Unpack(a: Vector, b: Vector, w: nat, high: bool): Vector
    requires w == 1 || w == 2 || w == 4
  {
    seq(16, i requires 0 <= i < 16 => Interleaved(a, b, w, if high then 8 else 0, i))
  }

  /** Byte i of alternate elements of a and b, taken from byte `from` on. */
  function Interleaved(a: Vector, b: Vector, w: nat, from: nat, i: int): Byte
    requires 0 <= i < 16 && from <= 8 && (w == 1 || w == 2 || w == 4)
  {
    if i / w % 2 == 0 then a[from + SourceByte(w, i)] else b[from + SourceByte(w, i)]
  }

  function SourceByte(w: nat, i: int): (k: int)
    requires 0 <= i < 16 && (w == 1 || w == 2 || w == 4)
    ensures 0 <= k < 8
  {
    i / (2 * w) * w + i % w
  }

  /** `set1_epi8` */
  function Broadcast(b: Byte): Vector { seq(16, i requires 0 <= i < 16 => b) }

  /** `set1_epi16` of a little-endian pair */
  function BroadcastPair(lo: Byte, hi: Byte): Vector { seq(16, i requires 0 <= i < 16 => if i % 2 == 0 then lo else hi) }

  /** `shuffle_epi32` with the same lane four times */
  function BroadcastLane(a: Vector, lane: nat): Vector
    requires lane < 4
  {
    seq(16, i requires 0 <= i < 16 => a[4 * lane + i % 4])
  }

  // ----- emitted expressions -----

  /** `set1_epi8(0xF)` minus the low four bits of each byte */
  function Flipped(c: Vector): Vector { seq(16, i requires 0 <= i < 16 => 15 - c[i] % 16) }

  /** `simde_mm_perm_epi8_` */
  function EmittedVperm(a: Vector, b: Vector, c: Vector): Vector {
    Blend(Shuffle(a, Flipped(c)), Shuffle(b, Flipped(c)), ShiftLanesLeft3(c))
  }

  function EmittedVsldoi(a: Vector, b: Vector, shb: nat): Vector
    requires shb < 16
  {
    AlignRight(a, b, 16 - shb)
  }

  function EmittedVmrgh(a: Vector, b: Vector, w: nat): Vector
    requires w == 1 || w == 2 || w == 4
  {
    Unpack(b, a, w, true)
  }

  function EmittedVmrgl(a: Vector, b: Vector, w: nat): Vector
    requires w == 1 || w == 2 || w == 4
  {
    Unpack(b, a, w, false)
  }

  function EmittedVspltb(b: Vector, uim: nat): Vector
    requires uim < 16
  {
    Shuffle(b, Broadcast(15 - uim))
  }

  function EmittedVsplth(b: Vector, uim: nat): Vector
    requires uim < 8
  {
    Shuffle(b, BroadcastPair((7 - uim) * 2, (7 - uim) * 2 + 1))
  }

  function EmittedVspltw(b: Vector, uim: nat): Vector
    requires uim < 4
  {
    BroadcastLane(b, 3 - uim)
  }

  const PACK_LOW: Vector := [0, 1, 4, 5, 8, 9, 12, 13, 0x80, 0x80, 0x80, 0x80, 0x80, 0x80, 0x80, 0x80]
  const PACK_HIGH: Vector := [0x80, 0x80, 0x80, 0x80, 0x80, 0x80, 0x80, 0x80, 0, 1, 4, 5, 8, 9, 12, 13]

  function EmittedVpkuwum(a: Vector, b: Vector): Vector { Or(Shuffle(b, PACK_LOW), Shuffle(a, PACK_HIGH)) }

  // ----- the architecture -----

  /** Byte k of the 32 bytes of a, then b. */
  function Pick(a: Vector, b: Vector, k: int): Byte
    requires 0 <= k < 32
  {
    if k < 16 then a[k] else b[k - 16]
  }

  function Vperm(a: Vector, b: Vector, c: Vector): Vector {
    seq(16, i requires 0 <= i < 16 => Pick(a, b, c[i] % 32))
  }

  function Vsldoi(a: Vector, b: Vector, shb: nat): Vector
    requires shb < 16
  {
    (a + b)[shb..shb + 16]
  }

  /**
   Elements of w bytes of the upper or lower halves: element 2k of the result is element k of a's half, and
   element 2k + 1 that of b's.
   */
  function Merge(a: Vector, b: Vector, w: nat, upper: bool): Vector
    requires w == 1 || w == 2 || w == 4
  {
    seq(16, i requires 0 <= i < 16 => MergedByte(a, b, w, upper, i))
  }

  function MergedByte(a: Vector, b: Vector, w: nat, upper: bool, i: int): Byte
    requires 0 <= i < 16 && (w == 1 || w == 2 || w == 4)
  {
    if i / w % 2 == 0 then a[MergeSource(w, upper, i)] else b[MergeSource(w, upper, i)]
  }

  /** The half begins at its element 8 / w if it is the lower one. */
  function MergeSource(w: nat, upper: bool, i: int): (k: int)
    requires 0 <= i < 16 && (w == 1 || w == 2 || w == 4)
    ensures 0 <= k < 16
  {
    (i / w / 2 + if upper then 0 else 8 / w) * w + i % w
  }

  /** Every element of w bytes is element uim of b. */
  function Splat(b: Vector, w: nat, uim: nat): Vector
    requires w > 0 && uim * w + w <= 16
  {
    seq(16, i requires 0 <= i < 16 => b[uim * w + i % w])
  }

  /** The low halfword of each word of a, then b. */
  function Vpkuwum(a: Vector, b: Vector): Vector {
    seq(16, i requires 0 <= i < 16 => Pick(a, b, i / 2 * 4 + 2 + i % 2))
  }

  // ----- agreement -----

  lemma ShiftedSelector(x: int, carried: int)
    requires 0 <= x && 0 <= carried < 8
    ensures (x * 8 + carried) % 0x100 == x % 32 * 8 + carried
  {
    assert x * 8 + carried == 0x100 * (x / 32) + (x % 32 * 8 + carried);
  }

  /** A 32-bit lane as a number; its first byte is the lowest. */
  function LaneOf(b0: Byte, b1: Byte, b2: Byte, b3: Byte): int {
    b0 as int + 0x100 * b1 as int + 0x1_0000 * b2 as int + 0x100_0000 * b3 as int
  }

  function Lane(c: Vector, lane: nat): int
    requires lane < 4
  {
    LaneOf(c[4 * lane], c[4 * lane + 1], c[4 * lane + 2], c[4 * lane + 3])
  }

  lemma ShiftedPart(x: Byte, carried: int, d: Byte)
    requires 0 <= carried < 8 && d == (x as int * 8 + carried) % 0x100
    ensures d as int == 8 * x as int + carried - 0x100 * (x as int / 32)
  {
  }

  lemma ShiftedLane(b0: Byte, b1: Byte, b2: Byte, b3: Byte, d0: Byte, d1: Byte, d2: Byte, d3: Byte)
    requires d0 == (b0 as int * 8) % 0x100 && d1 == (b1 as int * 8 + b0 as int / 32) % 0x100
    requires d2 == (b2 as int * 8 + b1 as int / 32) % 0x100 && d3 == (b3 as int * 8 + b2 as int / 32) % 0x100
    ensures LaneOf(d0, d1, d2, d3) == 8 * LaneOf(b0, b1, b2, b3) - 0x1_0000_0000 * (b3 as int / 32)
  {
    ShiftedPart(b0, 0, d0);
    ShiftedPart(b1, b0 as int / 32, d1);
    ShiftedPart(b2, b1 as int / 32, d2);
    ShiftedPart(b3, b2 as int / 32, d3);
  }

  lemma Reduced(x: int, q: int, d: int)
    requires d == x - 0x1_0000_0000 * q && 0 <= d < 0x1_0000_0000
    ensures d == x % 0x1_0000_0000
  {
  }

  lemma FirstByte(c: Vector, k: nat)
    requires k < 16 && k % 4 == 0
    ensures ShiftLanesLeft3(c)[k] == (c[k] as int * 8) % 0x100
  {
  }

  lemma NextByte(c: Vector, k: nat, next: nat)
    requires next == k + 1 < 16 && next % 4 != 0
    ensures ShiftLanesLeft3(c)[next] == (c[next] as int * 8 + c[k] as int / 32) % 0x100
  {
  }

  lemma LaneIsShifted(c: Vector, k: nat, k1: nat, k2: nat, k3: nat)
    requires k3 == k2 + 1 < 16 && k2 == k1 + 1 && k1 == k + 1 && k % 4 == 0
    ensures var d := ShiftLanesLeft3(c);
            LaneOf(d[k], d[k1], d[k2], d[k3]) == 8 * LaneOf(c[k], c[k1], c[k2], c[k3]) % 0x1_0000_0000
  {
    var d := ShiftLanesLeft3(c);
    FirstByte(c, k);
    NextByte(c, k, k1);
    NextByte(c, k1, k2);
    NextByte(c, k2, k3);
    ShiftedLane(c[k], c[k1], c[k2], c[k3], d[k], d[k1], d[k2], d[k3]);
    Reduced(8 * LaneOf(c[k], c[k1], c[k2], c[k3]), c[k3] as int / 32, LaneOf(d[k], d[k1], d[k2], d[k3]));
  }

  /** Byte by byte, each lane is multiplied by eight. */
  lemma LanesAreShifted(c: Vector, lane: nat)
    requires lane < 4
    ensures Lane(ShiftLanesLeft3(c), lane) == 8 * Lane(c, lane) % 0x1_0000_0000
  {
    LaneIsShifted(c, 4 * lane, 4 * lane + 1, 4 * lane + 2, 4 * lane + 3);
  }

  /** The bit that selects the second register ends up on top of its byte. */
  lemma SelectorBit(c: Vector, k: nat)
    requires k < 16
    ensures ShiftLanesLeft3(c)[k] >= 0x80 <==> c[k] % 32 >= 16
  {
    ShiftedSelector(c[k], if k % 4 == 0 then 0 else c[k - 1] as int / 32);
    assert ShiftLanesLeft3(c)[k] == ShiftedByte(c, k);
  }

  lemma VpermIsIsa(a: Vector, b: Vector, c: Vector)
    ensures EmittedVperm(Reversed(a), Reversed(b), Reversed(c)) == Reversed(Vperm(a, b, c))
  {
    var rc := Reversed(c);
    forall i | 0 <= i < 16
      ensures EmittedVperm(Reversed(a), Reversed(b), rc)[i] == Reversed(Vperm(a, b, c))[i]
    {
      SelectorBit(rc, i);
      VpermByte(a, b, c, i);
    }
    SameVector(EmittedVperm(Reversed(a), Reversed(b), rc), Reversed(Vperm(a, b, c)));
  }

  lemma VpermByte(a: Vector, b: Vector, c: Vector, i: nat)
    requires i < 16
    ensures Shuffle(Reversed(a), Flipped(Reversed(c)))[i] == a[c[15 - i] % 16]
    ensures Shuffle(Reversed(b), Flipped(Reversed(c)))[i] == b[c[15 - i] % 16]
    ensures Reversed(Vperm(a, b, c))[i] == Pick(a, b, c[15 - i] % 32)
    ensures c[15 - i] % 32 == c[15 - i] % 16 + if c[15 - i] % 32 >= 16 then 16 else 0
  {
    FlippedPick(a, c, i);
    FlippedPick(b, c, i);
    SelectorValue(c[15 - i]);
  }

  lemma SelectorValue(x: nat)
    ensures x % 32 == x % 16 + if x % 32 >= 16 then 16 else 0
  {
    var q, y := x / 32, x % 32;
    assert x == 16 * (2 * q) + y;
    if y < 16 {
      HalfOf(2 * q, y);
    } else {
      HalfOf(2 * q + 1, y - 16);
    }
  }

  lemma HalfOf(q: nat, y: nat)
    requires y < 16
    ensures (16 * q + y) % 16 == y
  {
  }

  lemma FlippedPick(a: Vector, c: Vector, i: nat)
    requires i < 16
    ensures Shuffle(Reversed(a), Flipped(Reversed(c)))[i] == a[c[15 - i] % 16]
  {
    var m := 15 - c[15 - i] % 16;
    assert Flipped(Reversed(c))[i] == m && m % 16 == m;
    assert Reversed(a)[m] == a[15 - m];
  }

  lemma VsldoiIsIsa(a: Vector, b: Vector, shb: nat)
    requires shb < 16
    ensures EmittedVsldoi(Reversed(a), Reversed(b), shb) == Reversed(Vsldoi(a, b, shb))
  {
  }

  lemma MergeByte1(i: nat)
    requires i < 16
    ensures (15 - i) / 1 % 2 == 1 - i / 1 % 2 && SourceByte(1, 15 - i) == 7 - SourceByte(1, i)
  {
  }

  lemma MergeByte2(i: nat)
    requires i < 16
    ensures (15 - i) / 2 % 2 == 1 - i / 2 % 2 && SourceByte(2, 15 - i) == 7 - SourceByte(2, i)
  {
    assert (15 - i) / 2 == 7 - i / 2 && (15 - i) / 4 == 3 - i / 4;
  }

  lemma MergeByte4(i: nat)
    requires i < 16
    ensures (15 - i) / 4 % 2 == 1 - i / 4 % 2 && SourceByte(4, 15 - i) == 7 - SourceByte(4, i)
  {
    assert (15 - i) / 4 == 3 - i / 4 && (15 - i) / 8 == 1 - i / 8;
  }

  /** Element widths: byte, halfword, word. */
  lemma MergeByte(w: nat, i: nat)
    requires i < 16 && (w == 1 || w == 2 || w == 4)
    ensures (15 - i) / w % 2 == 1 - i / w % 2
    ensures SourceByte(w, 15 - i) == 7 - SourceByte(w, i)
  {
    if w == 1 {
      MergeByte1(i);
    } else if w == 2 {
      MergeByte2(i);
    } else {
      MergeByte4(i);
    }
  }

  lemma InterleavedReversed(a: Vector, b: Vector, w: nat, from: nat, i: nat)
    requires i < 16 && (from == 0 || from == 8) && (w == 1 || w == 2 || w == 4)
    ensures Interleaved(Reversed(b), Reversed(a), w, 8 - from, i) == Interleaved(a, b, w, from, 15 - i)
  {
    MergeByte(w, i);
  }

  lemma MergeSource2(i: int, upper: bool)
    requires 0 <= i < 16
    ensures MergeSource(2, upper, i) == SourceByte(2, i) + if upper then 0 else 8
  {
    assert i / 2 / 2 == i / 4;
  }

  lemma MergeSource4(i: int, upper: bool)
    requires 0 <= i < 16
    ensures MergeSource(4, upper, i) == SourceByte(4, i) + if upper then 0 else 8
  {
    assert i / 4 / 2 == i / 8;
  }

  lemma MergeSourceIs(w: nat, upper: bool, i: int)
    requires 0 <= i < 16 && (w == 1 || w == 2 || w == 4)
    ensures MergeSource(w, upper, i) == SourceByte(w, i) + if upper then 0 else 8
  {
    MergeSource2(i, upper);
    MergeSource4(i, upper);
  }

  lemma MergedByteIs(a: Vector, b: Vector, w: nat, upper: bool, i: int)
    requires 0 <= i < 16 && (w == 1 || w == 2 || w == 4)
    ensures MergedByte(a, b, w, upper, i) == Interleaved(a, b, w, if upper then 0 else 8, i)
  {
    MergeSourceIs(w, upper, i);
  }

  lemma UnpackedByte(a: Vector, b: Vector, w: nat, high: bool, i: nat)
    requires i < 16 && (w == 1 || w == 2 || w == 4)
    ensures Unpack(a, b, w, high)[i] == Interleaved(a, b, w, if high then 8 else 0, i)
  {
  }

  lemma MergeReversedByte(a: Vector, b: Vector, w: nat, upper: bool, i: nat)
    requires i < 16 && (w == 1 || w == 2 || w == 4)
    ensures Reversed(Merge(a, b, w, upper))[i] == Interleaved(a, b, w, if upper then 0 else 8, 15 - i)
  {
    MergedByteIs(a, b, w, upper, 15 - i);
  }

  lemma MergeByteIsIsa(a: Vector, b: Vector, w: nat, upper: bool, i: nat, ra: Vector, rb: Vector)
    requires i < 16 && (w == 1 || w == 2 || w == 4) && ra == Reversed(a) && rb == Reversed(b)
    ensures Unpack(rb, ra, w, upper)[i] == Reversed(Merge(a, b, w, upper))[i]
  {
    UnpackedByte(rb, ra, w, upper, i);
    MergeReversedByte(a, b, w, upper, i);
    InterleavedReversed(a, b, w, if upper then 0 else 8, i);
  }

  lemma MergeIsIsa(a: Vector, b: Vector, w: nat)
    requires w == 1 || w == 2 || w == 4
    ensures EmittedVmrgh(Reversed(a), Reversed(b), w) == Reversed(Merge(a, b, w, true))
    ensures EmittedVmrgl(Reversed(a), Reversed(b), w) == Reversed(Merge(a, b, w, false))
  {
    forall i | 0 <= i < 16
      ensures EmittedVmrgh(Reversed(a), Reversed(b), w)[i] == Reversed(Merge(a, b, w, true))[i]
      ensures EmittedVmrgl(Reversed(a), Reversed(b), w)[i] == Reversed(Merge(a, b, w, false))[i]
    {
      MergeByteIsIsa(a, b, w, true, i, Reversed(a), Reversed(b));
      MergeByteIsIsa(a, b, w, false, i, Reversed(a), Reversed(b));
    }
    SameVector(EmittedVmrgh(Reversed(a), Reversed(b), w), Reversed(Merge(a, b, w, true)));
    SameVector(EmittedVmrgl(Reversed(a), Reversed(b), w), Reversed(Merge(a, b, w, false)));
  }

  lemma SplatByte(b: Vector, uim: nat, i: nat)
    requires uim < 16 && i < 16
    ensures EmittedVspltb(Reversed(b), uim)[i] == Reversed(Splat(b, 1, uim))[i]
  {
  }

  lemma SplatHalf(b: Vector, uim: nat, i: nat)
    requires uim < 8 && i < 16
    ensures EmittedVsplth(Reversed(b), uim)[i] == Reversed(Splat(b, 2, uim))[i]
  {
    assert (15 - i) % 2 == 1 - i % 2;
  }

  lemma SplatWord(b: Vector, uim: nat, i: nat)
    requires uim < 4 && i < 16
    ensures EmittedVspltw(Reversed(b), uim)[i] == Reversed(Splat(b, 4, uim))[i]
  {
    assert (15 - i) % 4 == 3 - i % 4;
    assert BroadcastLane(Reversed(b), 3 - uim)[i] == Reversed(b)[4 * (3 - uim) + i % 4];
  }

  lemma SplatBytes(b: Vector, uim: nat)
    requires uim < 16
    ensures EmittedVspltb(Reversed(b), uim) == Reversed(Splat(b, 1, uim))
  {
    forall i | 0 <= i < 16
      ensures EmittedVspltb(Reversed(b), uim)[i] == Reversed(Splat(b, 1, uim))[i]
    {
      SplatByte(b, uim, i);
    }
  }

  lemma SplatHalves(b: Vector, uim: nat)
    requires uim < 8
    ensures EmittedVsplth(Reversed(b), uim) == Reversed(Splat(b, 2, uim))
  {
    forall i | 0 <= i < 16
      ensures EmittedVsplth(Reversed(b), uim)[i] == Reversed(Splat(b, 2, uim))[i]
    {
      SplatHalf(b, uim, i);
    }
  }

  lemma SplatWords(b: Vector, uim: nat)
    requires uim < 4
    ensures EmittedVspltw(Reversed(b), uim) == Reversed(Splat(b, 4, uim))
  {
    forall i | 0 <= i < 16
      ensures EmittedVspltw(Reversed(b), uim)[i] == Reversed(Splat(b, 4, uim))[i]
    {
      SplatWord(b, uim, i);
    }
  }

  lemma SplatIsIsa(b: Vector, uim: nat)
    ensures uim < 16 ==> EmittedVspltb(Reversed(b), uim) == Reversed(Splat(b, 1, uim))
    ensures uim < 8 ==> EmittedVsplth(Reversed(b), uim) == Reversed(Splat(b, 2, uim))
    ensures uim < 4 ==> EmittedVspltw(Reversed(b), uim) == Reversed(Splat(b, 4, uim))
  {
    if uim < 16 {
      SplatBytes(b, uim);
    }
    if uim < 8 {
      SplatHalves(b, uim);
    }
    if uim < 4 {
      SplatWords(b, uim);
    }
  }

  lemma OrZero(x: Byte)
    ensures Or8(x, 0) == x && Or8(0, x) == x
  {
  }

  /** Byte i of the half that is packed from one register. */
  function PackedIndex(i: nat): nat { i / 2 * 4 + i % 2 }

  lemma PackIndices(i: nat)
    requires i < 8
    ensures PackedIndex(i) < 14
    ensures PACK_LOW[i] == PackedIndex(i) && PACK_LOW[i + 8] == 0x80
    ensures PACK_HIGH[i + 8] == PackedIndex(i) && PACK_HIGH[i] == 0x80
  {
  }

  lemma PackedLow(b: Vector, i: nat)
    requires i < 16
    ensures i < 8 ==> PackedIndex(i) < 14 && Shuffle(Reversed(b), PACK_LOW)[i] == b[15 - PackedIndex(i)]
    ensures i >= 8 ==> Shuffle(Reversed(b), PACK_LOW)[i] == 0
  {
    PackIndices(if i < 8 then i else i - 8);
  }

  lemma PackedHigh(a: Vector, i: nat)
    requires i < 16
    ensures i < 8 ==> Shuffle(Reversed(a), PACK_HIGH)[i] == 0
    ensures i >= 8 ==> PackedIndex(i - 8) < 14 && Shuffle(Reversed(a), PACK_HIGH)[i] == a[15 - PackedIndex(i - 8)]
  {
    PackIndices(if i < 8 then i else i - 8);
  }

  lemma PickedIndex(i: nat)
    requires i < 16
    ensures (15 - i) / 2 * 4 + 2 + (15 - i) % 2 == if i < 8 then 31 - PackedIndex(i) else 15 - PackedIndex(i - 8)
  {
    assert (15 - i) / 2 == 7 - i / 2 && (15 - i) % 2 == 1 - i % 2;
  }

  lemma VpkuwumByte(a: Vector, b: Vector, i: nat)
    requires i < 16
    ensures EmittedVpkuwum(Reversed(a), Reversed(b))[i] == Reversed(Vpkuwum(a, b))[i]
  {
    PackedLow(b, i);
    PackedHigh(a, i);
    PickedIndex(i);
    OrZero(if i < 8 then b[15 - PackedIndex(i)] else a[15 - PackedIndex(i - 8)]);
  }

  lemma VpkuwumIsIsa(a: Vector, b: Vector)
    ensures EmittedVpkuwum(Reversed(a), Reversed(b)) == Reversed(Vpkuwum(a, b))
  {
    forall i | 0 <= i < 16
      ensures EmittedVpkuwum(Reversed(a), Reversed(b))[i] == Reversed(Vpkuwum(a, b))[i]
    {
      VpkuwumByte(a, b, i);
    }
  }
}
