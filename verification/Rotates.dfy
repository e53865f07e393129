/**
 The mask of the rotate instructions, and the expressions emitted for them, against sections 1.3.4
 and 3.3.14 of Power ISA v3.0B Book I. A register is its 64 bits; as in the architecture, bit 0 is
 the highest.
 */
module Rotates {

  type Register = s: seq<bool> | |s| == 64 witness seq(64, _ => false)

  // ----- host operations on 64-bit values -----

  function Constant(b: bool): Register { seq(64, i requires 0 <= i < 64 => b) }

  function ShiftLeft(x: Register, n: nat): Register { seq(64, i requires 0 <= i < 64 => i + n < 64 && x[i + n]) }

  function ShiftRight(x: Register, n: nat): Register { seq(64, i requires 0 <= i < 64 => i >= n && x[i - n]) }

  function And(x: Register, y: Register): Register { seq(64, i requires 0 <= i < 64 => x[i] && y[i]) }

  function Or(x: Register, y: Register): Register { seq(64, i requires 0 <= i < 64 => x[i] || y[i]) }

  function Xor(x: Register, y: Register): Register { seq(64, i requires 0 <= i < 64 => x[i] != y[i]) }

  function Not(x: Register): Register { seq(64, i requires 0 <= i < 64 => !x[i]) }

  /** `u32` */
  function LowWord(x: Register): Register { seq(64, i requires 0 <= i < 64 => i >= 32 && x[i]) }

  /** `__builtin_rotateleft64` */
  function RotateLeft64(x: Register, n: nat): Register
    requires n < 64
  {
    Or(ShiftLeft(x, n), ShiftRight(x, 64 - n))
  }

  /** `__builtin_rotateleft32`, whose result is a word. */
  function RotateLeft32(x: Register, n: nat): Register
    requires n < 32
  {
    Or(LowWord(ShiftLeft(LowWord(x), n)), ShiftRight(LowWord(x), 32 - n))
  }

  /** Ones behind bit b. */
  function Behind(b: nat): Register { if b >= 63 then Constant(false) else ShiftRight(Constant(true), b + 1) }

  function FromTo(first: nat, last: nat): Register { Xor(ShiftRight(Constant(true), first), Behind(last)) }

  function ComputeMask(mstart: nat, mstop: nat): Register {
    if mstart % 64 <= mstop % 64 then FromTo(mstart % 64, mstop % 64) else Not(FromTo(mstart % 64, mstop % 64))
  }

  // ----- the architecture -----

  /** MASK: bits first to last, around the end if first is behind last. */
  predicate InMask(first: nat, last: nat, i: int) {
    if first <= last then first <= i <= last else i <= last || first <= i
  }

  function Mask(first: nat, last: nat): Register { seq(64, i requires 0 <= i < 64 => InMask(first, last, i)) }

  /** ROTL64 */
  function Rotl64(x: Register, n: nat): Register { seq(64, i requires 0 <= i < 64 => x[(i + n) % 64]) }

  /** ROTL32: the word is rotated as both halves of a doubleword. */
  function Rotl32(x: Register, n: nat): Register { seq(64, i requires 0 <= i < 64 => x[32 + (i + n) % 32]) }

  /** The bits of x under the mask, those of y elsewhere. */
  function Insert(x: Register, y: Register, mask: Register): Register {
    seq(64, i requires 0 <= i < 64 => if mask[i] then x[i] else y[i])
  }

  // ----- what the emitter writes -----

  /** `(x & mask) | (y & ~mask)` */
  function Under(x: Register, y: Register, mask: Register): Register { Or(And(x, mask), And(y, Not(mask))) }

  function EmittedRlwinm(rs: Register, sh: nat, mb: nat, me: nat): Register
    requires sh < 32
  {
    And(RotateLeft64(Or(LowWord(rs), ShiftLeft(rs, 32)), sh), ComputeMask(mb + 32, me + 32))
  }

  function EmittedRlwimi(ra: Register, rs: Register, sh: nat, mb: nat, me: nat): Register
    requires sh < 32
  {
    Under(RotateLeft32(rs, sh), ra, ComputeMask(mb + 32, me + 32))
  }

  function EmittedRldicl(rs: Register, sh: nat, mb: nat): Register
    requires sh < 64
  {
    And(RotateLeft64(rs, sh), ComputeMask(mb, 63))
  }

  function EmittedRldicr(rs: Register, sh: nat, me: nat): Register
    requires sh < 64
  {
    And(RotateLeft64(rs, sh), ComputeMask(0, me))
  }

  /** The complement of a `uint32_t` operand. */
  function Complement(x: nat): nat
    requires x < 0x1_0000_0000
  {
    0xFFFF_FFFF - x
  }

  function EmittedRldimi(ra: Register, rs: Register, sh: nat, mb: nat): Register
    requires sh < 64
  {
    Under(RotateLeft64(rs, sh), ra, ComputeMask(mb, Complement(sh)))
  }

  // ----- agreement -----

  /** The computed mask is the architecture's, for all arguments, of which six bits count. */
  lemma MaskIsIsa(mstart: nat, mstop: nat)
    ensures ComputeMask(mstart, mstop) == Mask(mstart % 64, mstop % 64)
  {
  }

  lemma RotationIsIsa(x: Register, n: nat)
    requires n < 64
    ensures RotateLeft64(x, n) == Rotl64(x, n)
  {
    forall i | 0 <= i < 64
      ensures RotateLeft64(x, n)[i] == x[(i + n) % 64]
    {
      assert (i + n) % 64 == if i + n < 64 then i + n else i + n - 64;
    }
  }

  function Doubled(x: Register): Register { Or(LowWord(x), ShiftLeft(x, 32)) }

  lemma DoubledBit(x: Register, j: nat)
    requires j < 64
    ensures Doubled(x)[j] == x[32 + j % 32]
  {
    assert j % 32 == if j >= 32 then j - 32 else j;
  }

  lemma DoubledRotationBit(x: Register, n: nat, i: nat)
    requires n < 32 && i < 64
    ensures Rotl64(Doubled(x), n)[i] == x[32 + (i + n) % 32]
  {
    var j := (i + n) % 64;
    DoubledBit(x, j);
    assert j % 32 == (i + n) % 32;
  }

  /** The emitter doubles the word with a shift of the whole register. */
  lemma DoubledRotationIsIsa(x: Register, n: nat)
    requires n < 32
    ensures RotateLeft64(Or(LowWord(x), ShiftLeft(x, 32)), n) == Rotl32(x, n)
  {
    RotationIsIsa(Doubled(x), n);
    forall i | 0 <= i < 64
      ensures Rotl64(Doubled(x), n)[i] == Rotl32(x, n)[i]
    {
      DoubledRotationBit(x, n, i);
    }
  }

  lemma WordRotationIsLow(x: Register, n: nat)
    requires n < 32
    ensures RotateLeft32(x, n) == LowWord(Rotl32(x, n))
  {
    forall i | 0 <= i < 64
      ensures RotateLeft32(x, n)[i] == LowWord(Rotl32(x, n))[i]
    {
      if i >= 32 {
        assert (i + n) % 32 == if i + n < 64 then i + n - 32 else i + n - 64;
      }
    }
  }

  lemma RlwinmIsIsa(rs: Register, sh: nat, mb: nat, me: nat)
    requires sh < 32 && mb < 32 && me < 32
    ensures EmittedRlwinm(rs, sh, mb, me) == And(Rotl32(rs, sh), Mask(mb + 32, me + 32))
  {
    DoubledRotationIsIsa(rs, sh);
    WordMaskIsIsa(mb, me);
  }

  lemma RldiclIsIsa(rs: Register, sh: nat, mb: nat)
    requires sh < 64 && mb < 64
    ensures EmittedRldicl(rs, sh, mb) == And(Rotl64(rs, sh), Mask(mb, 63))
  {
    RotationIsIsa(rs, sh);
    MaskIsIsa(mb, 63);
  }

  lemma RldicrIsIsa(rs: Register, sh: nat, me: nat)
    requires sh < 64 && me < 64
    ensures EmittedRldicr(rs, sh, me) == And(Rotl64(rs, sh), Mask(0, me))
  {
    RotationIsIsa(rs, sh);
    MaskIsIsa(0, me);
  }

  /** The complemented shift amount reduces to the architecture's 63 - sh. */
  lemma RldimiIsIsa(ra: Register, rs: Register, sh: nat, mb: nat)
    requires sh < 64 && mb < 64
    ensures EmittedRldimi(ra, rs, sh, mb) == Insert(Rotl64(rs, sh), ra, Mask(mb, 63 - sh))
  {
    RotationIsIsa(rs, sh);
    MaskIsIsa(mb, Complement(sh));
    assert Complement(sh) % 64 == 63 - sh;
  }

  predicate SameLowWord(x: Register, y: Register) { LowWord(x) == LowWord(y) }

  /** A mask within the low word needs no reduction. */
  lemma WordMaskIsIsa(mb: nat, me: nat)
    requires mb < 32 && me < 32
    ensures ComputeMask(mb + 32, me + 32) == Mask(mb + 32, me + 32)
  {
    MaskIsIsa(mb + 32, me + 32);
  }

  lemma UnderBit(x: Register, y: Register, mask: Register, i: nat)
    requires i < 64
    ensures Under(x, y, mask)[i] == if mask[i] then x[i] else y[i]
  {
  }

  lemma RlwimiLow(ra: Register, rs: Register, sh: nat, mb: nat, me: nat, i: nat)
    requires sh < 32 && mb < 32 && me < 32 && i < 64
    ensures EmittedRlwimi(ra, rs, sh, mb, me)[i] ==
              if InMask(mb + 32, me + 32, i) then i >= 32 && Rotl32(rs, sh)[i] else ra[i]
  {
    WordMaskIsIsa(mb, me);
    WordRotationIsLow(rs, sh);
    UnderBit(RotateLeft32(rs, sh), ra, Mask(mb + 32, me + 32), i);
  }

  lemma WordIsRotated(x: Register, n: nat)
    requires n < 32
    ensures LowWord(x) == Constant(false) <==> forall i :: 0 <= i < 32 ==> !Rotl32(x, n)[i]
  {
    if forall i :: 0 <= i < 32 ==> !Rotl32(x, n)[i] {
      forall j | 32 <= j < 64
        ensures !x[j]
      {
        var i := (j - n) % 32;
        assert (i + n) % 32 == j - 32;
        assert !Rotl32(x, n)[i];
      }
    }
    if LowWord(x) == Constant(false) {
      forall j | 32 <= j < 64
        ensures !x[j]
      {
        assert !LowWord(x)[j];
      }
    }
  }

  /**
   `rlwimi` is always the architecture's on the low word. On all 64 bits it is so if and only if the
   mask does not wrap, or the high word is to be cleared anyway because the source word is zero: the
   emitted rotation has no high word.
   */
  lemma RlwimiIsIsa(ra: Register, rs: Register, sh: nat, mb: nat, me: nat)
    requires sh < 32 && mb < 32 && me < 32
    ensures var isa := Insert(Rotl32(rs, sh), ra, Mask(mb + 32, me + 32));
            && SameLowWord(EmittedRlwimi(ra, rs, sh, mb, me), isa)
            && (EmittedRlwimi(ra, rs, sh, mb, me) == isa <==> mb <= me || LowWord(rs) == Constant(false))
  {
    var emitted, isa := EmittedRlwimi(ra, rs, sh, mb, me), Insert(Rotl32(rs, sh), ra, Mask(mb + 32, me + 32));
    forall i | 0 <= i < 64
      ensures emitted[i] == isa[i] <==> i >= 32 || mb <= me || !Rotl32(rs, sh)[i]
    {
      RlwimiLow(ra, rs, sh, mb, me, i);
    }
    WordIsRotated(rs, sh);
    if emitted == isa && mb > me {
      forall i | 0 <= i < 32
        ensures !Rotl32(rs, sh)[i]
      {
        assert emitted[i] == isa[i];
      }
    }
  }
}
