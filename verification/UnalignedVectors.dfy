/**
 Loads and stores of vectors at unaligned addresses: the emitted code, on reversed registers, and what
 pairs of such instructions do together.
 */
module UnalignedVectors {
  import opened Wrappers
  import opened VectorReversal
  import opened VectorTables

  // ----- loads -----

  /** Guest memory: whole quadwords. */
  type Memory = s: seq<Byte> | |s| % 16 == 0

  /** The address of the aligned quadword that holds ea. */
  function Aligned(ea: nat): nat { ea - ea % 16 }

  /** The sixteen bytes from address a on. */
  function BytesAt(mem: Memory, a: nat): Vector
    requires a + 16 <= |mem|
  {
    mem[a..a + 16]
  }

  /** A host load of the quadword around ea. */
  function Quadword(mem: Memory, ea: nat): Vector
    requires ea < |mem|
  {
    BytesAt(mem, Aligned(ea))
  }

  function EmittedLvx(mem: Memory, ea: nat): Vector
    requires ea < |mem|
  {
    Shuffle(Quadword(mem, ea), VECTOR_MASK_L[0])
  }

  function EmittedLvlx(mem: Memory, ea: nat): Vector
    requires ea < |mem|
  {
    Shuffle(Quadword(mem, ea), VECTOR_MASK_L[ea % 16])
  }

  /** Memory is not read at an aligned address. */
  function EmittedLvrx(mem: Memory, ea: nat): Vector
    requires ea % 16 != 0 ==> ea < |mem|
  {
    if ea % 16 != 0 then Shuffle(Quadword(mem, ea), VECTOR_MASK_R[ea % 16]) else Broadcast(0)
  }

  function EmittedLvsl(ea: nat): Vector { VECTOR_SHIFT_TABLE_L[ea % 16] }

  function EmittedLvsr(ea: nat): Vector { VECTOR_SHIFT_TABLE_R[ea % 16] }

  /** Sixteen bytes from sh on, by the architecture. */
  function Lvsl(ea: nat): Vector { seq(16, i requires 0 <= i < 16 => ea % 16 + i) }

  /** Sixteen bytes from 16 - sh on. */
  function Lvsr(ea: nat): Vector { seq(16, i requires 0 <= i < 16 => 16 - ea % 16 + i) }

  lemma RampReversed(v: Vector, first: nat)
    requires first <= 16 && forall i :: 0 <= i < 16 ==> v[i] == first + i
    ensures Ramp(first) == Reversed(v)
  {
    SameVector(Ramp(first), Reversed(v));
  }

  /** The shift tables hold what `lvsl` and `lvsr` load. */
  lemma LvslIsIsa(ea: nat)
    ensures EmittedLvsl(ea) == Reversed(Lvsl(ea))
    ensures EmittedLvsr(ea) == Reversed(Lvsr(ea))
  {
    ShiftLRow(ea % 16);
    ShiftRRow(ea % 16);
    RampReversed(Lvsl(ea), ea % 16);
    RampReversed(Lvsr(ea), 16 - ea % 16);
  }

  lemma ShuffledWhole(q: Vector)
    ensures Shuffle(q, MaskL(0)) == Reversed(q)
  {
    SameVector(Shuffle(q, MaskL(0)), Reversed(q));
  }

  /** A vector load from an aligned address is the reversal of the quadword. */
  lemma LvxIsReversed(mem: Memory, ea: nat)
    requires ea < |mem|
    ensures EmittedLvx(mem, ea) == Reversed(Quadword(mem, ea))
  {
    MaskLRow(0);
    ShuffledWhole(Quadword(mem, ea));
  }

  /** The left part: bytes n to the end of the quadword, in front. */
  lemma LeftByte(q: Vector, n: nat, i: nat)
    requires n < 16 && i < 16
    ensures Shuffle(q, MaskL(n))[i] == if i < n then 0 else q[15 - (i - n)]
  {
  }

  /** The right part: the bytes in front of n, behind. */
  lemma RightByte(q: Vector, n: nat, i: nat)
    requires n < 16 && i < 16
    ensures Shuffle(q, MaskR(n))[i] == if i < n then q[n - 1 - i] else 0
  {
  }

  /** What `lvlx` and `lvrx` read when they load sixteen bytes from ea on. */
  predicate Readable(mem: Memory, ea: nat) { ea + 16 <= |mem| }

  lemma QuadwordsFit(mem: Memory, ea: nat)
    requires Readable(mem, ea)
    ensures ea % 16 != 0 ==> ea + 16 < |mem|
    ensures (ea + 16) % 16 == ea % 16
    ensures Aligned(ea + 15) == if ea % 16 == 0 then ea else Aligned(ea) + 16
  {
  }

  /** Byte i of the sixteen from byte n of p on, which go over into q. */
  function Straddling(p: Vector, q: Vector, n: nat, i: nat): Byte
    requires n < 16 && i < 16
  {
    if n + i < 16 then p[n + i] else q[n + i - 16]
  }

  lemma JoinedByte(p: Vector, q: Vector, n: nat, i: nat)
    requires n < 16 && i < 16
    ensures Or8(Shuffle(p, MaskL(n))[i], Shuffle(q, MaskR(n))[i]) == Straddling(p, q, n, 15 - i)
  {
    LeftByte(p, n, i);
    RightByte(q, n, i);
    OrZero(Straddling(p, q, n, 15 - i));
  }

  lemma JoinedParts(p: Vector, q: Vector, n: nat, v: Vector)
    requires n < 16 && forall i :: 0 <= i < 16 ==> v[i] == Straddling(p, q, n, i)
    ensures Or(Shuffle(p, MaskL(n)), Shuffle(q, MaskR(n))) == Reversed(v)
  {
    var joined := Or(Shuffle(p, MaskL(n)), Shuffle(q, MaskR(n)));
    forall i | 0 <= i < 16
      ensures joined[i] == Reversed(v)[i]
    {
      JoinedByte(p, q, n, i);
    }
    SameVector(joined, Reversed(v));
  }

  lemma WholePart(p: Vector)
    ensures Or(Shuffle(p, MaskL(0)), Broadcast(0)) == Reversed(p)
  {
    var whole := Or(Shuffle(p, MaskL(0)), Broadcast(0));
    forall i | 0 <= i < 16
      ensures whole[i] == Reversed(p)[i]
    {
      LeftByte(p, 0, i);
      OrZero(p[15 - i]);
    }
    SameVector(whole, Reversed(p));
  }

  lemma SlicesStraddle(mem: Memory, a: nat, n: nat, i: nat)
    requires a + 32 <= |mem| && n < 16 && i < 16
    ensures BytesAt(mem, a + n)[i] == Straddling(BytesAt(mem, a), BytesAt(mem, a + 16), n, i)
  {
  }

  lemma StraddlesTwo(mem: Memory, ea: nat)
    requires Readable(mem, ea) && ea % 16 != 0
    ensures Aligned(ea + 16) == Aligned(ea) + 16 && Aligned(ea) + 32 <= |mem| && Aligned(ea) + ea % 16 == ea
  {
  }

  lemma BytesStraddle(mem: Memory, ea: nat, i: nat)
    requires Readable(mem, ea) && ea % 16 != 0 && i < 16
    ensures BytesAt(mem, ea)[i] == Straddling(Quadword(mem, ea), Quadword(mem, ea + 16), ea % 16, i)
  {
    StraddlesTwo(mem, ea);
    SlicesStraddle(mem, Aligned(ea), ea % 16, i);
  }

  lemma WholeIsLoaded(mem: Memory, ea: nat)
    requires Readable(mem, ea) && ea % 16 == 0
    ensures Or(EmittedLvlx(mem, ea), EmittedLvrx(mem, ea + 16)) == Reversed(BytesAt(mem, ea))
  {
    MaskLRow(0);
    WholePart(Quadword(mem, ea));
  }

  lemma StraddlingIsLoaded(mem: Memory, ea: nat)
    requires Readable(mem, ea) && ea % 16 != 0
    ensures Or(EmittedLvlx(mem, ea), EmittedLvrx(mem, ea + 16)) == Reversed(BytesAt(mem, ea))
  {
    QuadwordsFit(mem, ea);
    var p, q, n := Quadword(mem, ea), Quadword(mem, ea + 16), ea % 16;
    MaskLRow(n);
    MaskRRow(n);
    forall i | 0 <= i < 16
      ensures BytesAt(mem, ea)[i] == Straddling(p, q, n, i)
    {
      BytesStraddle(mem, ea, i);
    }
    JoinedParts(p, q, n, BytesAt(mem, ea));
  }

  /** `lvlx` at ea, or'ed with `lvrx` at ea + 16, loads the sixteen guest bytes at ea. */
  lemma LeftOrRightIsUnaligned(mem: Memory, ea: nat)
    requires Readable(mem, ea)
    ensures Or(EmittedLvlx(mem, ea), EmittedLvrx(mem, ea + 16)) == Reversed(BytesAt(mem, ea))
  {
    if ea % 16 == 0 {
      WholeIsLoaded(mem, ea);
    } else {
      StraddlingIsLoaded(mem, ea);
    }
  }

  lemma PermByte(mem: Memory, ea: nat, i: nat)
    requires Readable(mem, ea) && i < 16
    ensures Vperm(Quadword(mem, ea), Quadword(mem, ea + 15), Lvsl(ea))[i] == BytesAt(mem, ea)[i]
  {
    QuadwordsFit(mem, ea);
    PickedByte(mem, ea, ea % 16 + i);
  }

  lemma PickedByte(mem: Memory, ea: nat, k: nat)
    requires Readable(mem, ea) && ea % 16 <= k < ea % 16 + 16
    ensures Pick(Quadword(mem, ea), Quadword(mem, ea + 15), k) == mem[Aligned(ea) + k]
  {
    QuadwordsFit(mem, ea);
    if ea % 16 != 0 {
      StraddlesTwo(mem, ea);
    }
    PickedSlice(mem, Aligned(ea), Aligned(ea + 15), k);
  }

  lemma PickedSlice(mem: Memory, a: nat, b: nat, k: nat)
    requires a + 16 <= |mem| && b + 16 <= |mem| && k < 32 && (k < 16 || b == a + 16)
    ensures a + k < |mem| && Pick(BytesAt(mem, a), BytesAt(mem, b), k) == mem[a + k]
  {
  }

  lemma PermIsStraight(mem: Memory, ea: nat)
    requires Readable(mem, ea)
    ensures Vperm(Quadword(mem, ea), Quadword(mem, ea + 15), Lvsl(ea)) == BytesAt(mem, ea)
  {
    forall i | 0 <= i < 16
      ensures Vperm(Quadword(mem, ea), Quadword(mem, ea + 15), Lvsl(ea))[i] == BytesAt(mem, ea)[i]
    {
      PermByte(mem, ea, i);
    }
    SameVector(Vperm(Quadword(mem, ea), Quadword(mem, ea + 15), Lvsl(ea)), BytesAt(mem, ea));
  }

  /** `vperm` of the quadwords around ea and ea + 15, under `lvsl`, loads the same bytes. */
  lemma PermIsUnaligned(mem: Memory, ea: nat)
    requires Readable(mem, ea)
    ensures EmittedVperm(EmittedLvx(mem, ea), EmittedLvx(mem, ea + 15), EmittedLvsl(ea)) == Reversed(BytesAt(mem, ea))
  {
    LvxIsReversed(mem, ea);
    LvxIsReversed(mem, ea + 15);
    LvslIsIsa(ea);
    PermIsStraight(mem, ea);
    PermOfReversed(Quadword(mem, ea), Quadword(mem, ea + 15), Lvsl(ea), EmittedLvx(mem, ea), EmittedLvx(mem, ea + 15),
                   EmittedLvsl(ea), BytesAt(mem, ea));
  }

  lemma PermOfReversed(a: Vector, b: Vector, c: Vector, ra: Vector, rb: Vector, rc: Vector, v: Vector)
    requires ra == Reversed(a) && rb == Reversed(b) && rc == Reversed(c) && v == Vperm(a, b, c)
    ensures EmittedVperm(ra, rb, rc) == Reversed(v)
  {
    VpermIsIsa(a, b, c);
  }

  // ----- stores -----

  /** `stvlx`: as many bytes as are left in the quadword. */
  method StoreLeft(mem: array<Byte>, ea: nat, v: Vector)
    requires Aligned(ea) + 16 <= mem.Length
    modifies mem
    ensures forall k :: 0 <= k < mem.Length ==>
              mem[k] == if ea <= k < Aligned(ea) + 16 then v[15 - (k - ea)] else old(mem[k])
  {
    for i := 0 to 16 - ea % 16
      invariant forall k :: 0 <= k < mem.Length ==> mem[k] == if ea <= k < ea + i then v[15 - (k - ea)] else old(mem[k])
    {
      mem[ea + i] := v[15 - i];
    }
  }

  /** `stvrx`: the bytes in front of ea in its quadword. */
  method StoreRight(mem: array<Byte>, ea: nat, v: Vector)
    requires ea <= mem.Length
    modifies mem
    ensures forall k :: 0 <= k < mem.Length ==>
              mem[k] == if Aligned(ea) <= k < ea then v[ea - 1 - k] else old(mem[k])
  {
    for i := 0 to ea % 16
      invariant forall k :: 0 <= k < mem.Length ==> mem[k] == if ea - i <= k < ea then v[ea - 1 - k] else old(mem[k])
    {
      mem[ea - i - 1] := v[i];
    }
  }

  /** `stvlx` at ea, then `stvrx` at ea + 16: the sixteen guest bytes at ea become v, and nothing else changes. */
  method StoreUnaligned(mem: array<Byte>, ea: nat, v: Vector)
    requires mem.Length % 16 == 0 && Readable(mem[..], ea)
    modifies mem
    ensures mem[..] == old(mem[..ea]) + Reversed(v) + old(mem[ea + 16..])
    ensures BytesAt(mem[..], ea) == Reversed(v)
  {
    QuadwordsFit(mem[..], ea);
    StoreLeft(mem, ea, v);
    StoreRight(mem, ea + 16, v);
  }

  /** Storing and loading again, in either way, gives the register back. */
  lemma StoredIsLoaded(mem: Memory, ea: nat, v: Vector)
    requires Readable(mem, ea) && BytesAt(mem, ea) == Reversed(v)
    ensures Or(EmittedLvlx(mem, ea), EmittedLvrx(mem, ea + 16)) == v
    ensures EmittedVperm(EmittedLvx(mem, ea), EmittedLvx(mem, ea + 15), EmittedLvsl(ea)) == v
  {
    LeftOrRightIsUnaligned(mem, ea);
    PermIsUnaligned(mem, ea);
    ReversedTwice(v);
  }
}
