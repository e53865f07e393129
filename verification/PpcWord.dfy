/**
 Field extraction from a raw PowerPC instruction word: the `PPC_*` macros of `disasm/ppc.h`, the
 generic operand extraction of `disasm/ppc-dis.c`, and the agreement of the two on branch
 displacements.
 */
module PpcWord {

  type Word = bv32

  const OP_BC: bv32 := 0x10
  const OP_B: bv32 := 0x12
  const OP_CTR: bv32 := 0x13

  /** Extended opcodes of the branches to LR and to CTR. */
  const XOP_BCLR: bv32 := 16
  const XOP_BCCTR: bv32 := 528

  function Op(w: Word): bv32 { (w >> 26) & 0x3F }

  function Xop(w: Word): bv32 { (w >> 1) & 0x3FF }

  function Bo(w: Word): bv32 { (w >> 21) & 0x1F }

  function Bi(w: Word): bv32 { (w >> 16) & 0x1F }

  /** The BI field as a number: a bit of the condition register. */
  function BiOf(w: Word): (n: nat)
    ensures n < 32
  {
    (Bi(w) as bv5) as nat
  }

  predicate Link(w: Word) { w & 1 != 0 }

  predicate Absolute(w: Word) { w & 2 != 0 }

  /** A 32-bit pattern read as a C `int`. */
  function AsInt32(x: bv32): int {
    if x >= 0x8000_0000 then x as int - 0x1_0000_0000 else x as int
  }

  // ----- branch displacements -----

  /** The displacement bits of a conditional and of an unconditional branch. */
  function BdMask(w: Word): bv32 { w & 0xFFFC }

  function BiMask(w: Word): bv32 { w & 0x3FFFFFC }

  /** The macros' sign-extended byte displacements, as 32-bit patterns. */
  function BdBits(w: Word): bv32 { (BdMask(w) ^ 0x8000) - 0x8000 }

  function BiBits(w: Word): bv32 { (BiMask(w) ^ 0x200_0000) - 0x200_0000 }

  /** `PPC_BD`, a C `int` */
  function PpcBd(w: Word): int { AsInt32(BdBits(w)) }

  /** `PPC_BI` */
  function PpcBi(w: Word): int { AsInt32(BiBits(w)) }

  /** `size_t` addition of a signed displacement to an address. */
  function WrapAddress(a: int): int { a % 0x1_0000_0000_0000_0000 }

  /** The disassembler's generic extraction of a signed operand with bit mask `bitm` and shift 0. */
  function SignedOperand(w: Word, bitm: bv32): bv32 {
    var value := w & bitm;
    var filled := bitm | ((bitm & -bitm) - 1);
    var top := filled & !(filled >> 1);
    (value ^ top) - top
  }

  /** The bit masks of the operand table's BD and LI. */
  const BD_MASK: bv32 := 0xFFFC
  const LI_MASK: bv32 := 0x3FFFFFC

  /** A relative operand as the disassembler stores it in a `uint32_t`: the extracted value plus the address. */
  function RelativeOperand(a: nat, value: bv32): nat { (a + value as nat) % 0x1_0000_0000 }

  // The architecture's displacements, counted in instructions: the field BD or LI, sign-extended.

  function BdField(g: bv32): bv14 { ((g >> 2) & 0x3FFF) as bv14 }

  function BiField(g: bv32): bv24 { ((g >> 2) & 0xFF_FFFF) as bv24 }

  function SignedBd(f: bv14): (d: int)
    ensures -0x2000 <= d < 0x2000
  {
    var v := f as int;
    if v >= 0x2000 then v - 0x4000 else v
  }

  function SignedBi(f: bv24): (d: int)
    ensures -0x80_0000 <= d < 0x80_0000
  {
    var v := f as int;
    if v >= 0x80_0000 then v - 0x100_0000 else v
  }

  /** EXTS(BD) of a conditional branch. */
  function BdWords(w: Word): (d: int)
    ensures -0x2000 <= d < 0x2000
  {
    SignedBd(BdField(BdMask(w)))
  }

  /** EXTS(LI) of an unconditional branch. */
  function BiWords(w: Word): (d: int)
    ensures -0x80_0000 <= d < 0x80_0000
  {
    SignedBi(BiField(BiMask(w)))
  }

  /** `PPC_BD` counted in instructions. */
  function BdSteps(w: Word): (d: int)
    ensures -0x2000 <= d < 0x2000 && 4 * d == PpcBd(w)
  {
    BdBitsValue(w);
    Quarter(PpcBd(w), BdWords(w));
    PpcBd(w) / 4
  }

  /** `PPC_BI` counted in instructions. */
  function BiSteps(w: Word): (d: int)
    ensures -0x80_0000 <= d < 0x80_0000 && 4 * d == PpcBi(w)
  {
    BiBitsValue(w);
    Quarter(PpcBi(w), BiWords(w));
    PpcBi(w) / 4
  }

  // ----- the three readings of a displacement agree -----

  // g is a masked word, x the word with the sign bit flipped, b the word after the subtraction.

  lemma CancelledBd(g: bv32, x: bv32, b: bv32)
    requires x == g + 0x8000 && b == x - 0x8000
    ensures b == g
  {
  }

  lemma CancelledBi(g: bv32, x: bv32, b: bv32)
    requires x == g + 0x200_0000 && b == x - 0x200_0000
    ensures b == g
  {
  }

  lemma FlippedBdClear(g: bv32, x: bv32)
    requires g & 0xFFFC == g && g < 0x8000 && x == g ^ 0x8000
    ensures x == g + 0x8000
  {
  }

  lemma FlippedBiClear(g: bv32, x: bv32)
    requires g & 0x3FFFFFC == g && g < 0x200_0000 && x == g ^ 0x200_0000
    ensures x == g + 0x200_0000
  {
  }

  lemma FlippedBdSet(g: bv32, x: bv32)
    requires g & 0xFFFC == g && g >= 0x8000 && x == g ^ 0x8000
    ensures x < 0x8000 && x | 0xFFFF_8000 == g | 0xFFFF_0000
  {
  }

  lemma FlippedBiSet(g: bv32, x: bv32)
    requires g & 0x3FFFFFC == g && g >= 0x200_0000 && x == g ^ 0x200_0000
    ensures x < 0x200_0000 && x | 0xFE00_0000 == g | 0xFC00_0000
  {
  }

  lemma BorrowedBd(x: bv32, b: bv32)
    requires x < 0x8000 && b == x - 0x8000
    ensures b == x | 0xFFFF_8000
  {
  }

  lemma BorrowedBi(x: bv32, b: bv32)
    requires x < 0x200_0000 && b == x - 0x200_0000
    ensures b == x | 0xFE00_0000
  {
  }

  lemma PositiveBd(g: bv32, x: bv32, b: bv32)
    requires g & 0xFFFC == g && g < 0x8000 && x == g ^ 0x8000 && b == x - 0x8000
    ensures b == g
  {
    FlippedBdClear(g, x);
    CancelledBd(g, x, b);
  }

  lemma PositiveBi(g: bv32, x: bv32, b: bv32)
    requires g & 0x3FFFFFC == g && g < 0x200_0000 && x == g ^ 0x200_0000 && b == x - 0x200_0000
    ensures b == g
  {
    FlippedBiClear(g, x);
    CancelledBi(g, x, b);
  }

  lemma ExtendedBd(g: bv32, x: bv32, b: bv32)
    requires g & 0xFFFC == g && g >= 0x8000 && x == g ^ 0x8000 && b == x - 0x8000
    ensures b == g | 0xFFFF_0000
  {
    FlippedBdSet(g, x);
    BorrowedBd(x, b);
  }

  lemma ExtendedBi(g: bv32, x: bv32, b: bv32)
    requires g & 0x3FFFFFC == g && g >= 0x200_0000 && x == g ^ 0x200_0000 && b == x - 0x200_0000
    ensures b == g | 0xFC00_0000
  {
    FlippedBiSet(g, x);
    BorrowedBi(x, b);
  }

  lemma HighBd(g: bv32)
    requires g < 0x1_0000
    ensures (g | 0xFFFF_0000) as int == 0xFFFF_0000 + (g as int)
  {
  }

  lemma HighBi(g: bv32)
    requires g < 0x400_0000
    ensures (g | 0xFC00_0000) as int == 0xFC00_0000 + (g as int)
  {
  }

  lemma FieldBd(g: bv32)
    requires g & 0xFFFC == g
    ensures g == (BdField(g) as bv32) << 2 && g < 0x1_0000
    ensures BdField(g) >= 0x2000 <==> g >= 0x8000
  {
  }

  lemma FieldBi(g: bv32)
    requires g & 0x3FFFFFC == g
    ensures g == (BiField(g) as bv32) << 2 && g < 0x400_0000
    ensures BiField(g) >= 0x80_0000 <==> g >= 0x200_0000
  {
  }

  lemma ShiftBd(f: bv14)
    ensures ((f as bv32) << 2) as int == 4 * (f as int)
  {
  }

  lemma ShiftBi(f: bv24)
    ensures ((f as bv32) << 2) as int == 4 * (f as int)
  {
  }

  lemma FieldBdValue(g: bv32)
    requires g & 0xFFFC == g
    ensures g as int == 4 * (BdField(g) as int)
  {
    FieldBd(g);
    ShiftBd(BdField(g));
  }

  lemma FieldBiValue(g: bv32)
    requires g & 0x3FFFFFC == g
    ensures g as int == 4 * (BiField(g) as int)
  {
    FieldBi(g);
    ShiftBi(BiField(g));
  }

  lemma NegativeBd(g: bv32, b: bv32)
    requires 0x8000 <= g < 0x1_0000 && b == g | 0xFFFF_0000
    ensures AsInt32(b) == g as int - 0x1_0000
  {
    HighBd(g);
    HighIsNegativeBd(g, b);
  }

  lemma NegativeBi(g: bv32, b: bv32)
    requires 0x200_0000 <= g < 0x400_0000 && b == g | 0xFC00_0000
    ensures AsInt32(b) == g as int - 0x400_0000
  {
    HighBi(g);
    HighIsNegativeBi(g, b);
  }

  lemma HighIsNegativeBd(g: bv32, b: bv32)
    requires b == g | 0xFFFF_0000
    ensures b >= 0x8000_0000
  {
  }

  lemma HighIsNegativeBi(g: bv32, b: bv32)
    requires b == g | 0xFC00_0000
    ensures b >= 0x8000_0000
  {
  }

  lemma SmallIsPositive(b: bv32)
    requires b < 0x400_0000
    ensures AsInt32(b) == b as int
  {
  }

  lemma Quarter(x: int, d: int)
    requires x == 4 * d
    ensures x / 4 == d
  {
  }

  lemma BdFieldSign(g: bv32)
    requires g & 0xFFFC == g
    ensures g < 0x1_0000 && 4 * SignedBd(BdField(g)) == if g >= 0x8000 then g as int - 0x1_0000 else g as int
  {
    FieldBd(g);
    FieldBdValue(g);
  }

  lemma BiFieldSign(g: bv32)
    requires g & 0x3FFFFFC == g
    ensures g < 0x400_0000 && 4 * SignedBi(BiField(g)) == if g >= 0x200_0000 then g as int - 0x400_0000 else g as int
  {
    FieldBi(g);
    FieldBiValue(g);
  }

  lemma BdValue(g: bv32, x: bv32, b: bv32)
    requires g & 0xFFFC == g && x == g ^ 0x8000 && b == x - 0x8000
    ensures AsInt32(b) == 4 * SignedBd(BdField(g))
  {
    BdFieldSign(g);
    if g >= 0x8000 {
      ExtendedBd(g, x, b);
      NegativeBd(g, b);
    } else {
      PositiveBd(g, x, b);
      SmallIsPositive(b);
    }
  }

  lemma BiValue(g: bv32, x: bv32, b: bv32)
    requires g & 0x3FFFFFC == g && x == g ^ 0x200_0000 && b == x - 0x200_0000
    ensures AsInt32(b) == 4 * SignedBi(BiField(g))
  {
    BiFieldSign(g);
    if g >= 0x200_0000 {
      ExtendedBi(g, x, b);
      NegativeBi(g, b);
    } else {
      PositiveBi(g, x, b);
      SmallIsPositive(b);
    }
  }

  lemma MaskedBd(w: Word)
    ensures BdMask(w) & 0xFFFC == BdMask(w)
  {
  }

  lemma MaskedBi(w: Word)
    ensures BiMask(w) & 0x3FFFFFC == BiMask(w)
  {
  }

  /** `PPC_BD` is four times the architecture's displacement. */
  lemma BdBitsValue(w: Word)
    ensures PpcBd(w) == 4 * BdWords(w)
  {
    MaskedBd(w);
    BdValue(BdMask(w), BdMask(w) ^ 0x8000, BdBits(w));
  }

  /** `PPC_BI` is four times the architecture's displacement. */
  lemma BiBitsValue(w: Word)
    ensures PpcBi(w) == 4 * BiWords(w)
  {
    MaskedBi(w);
    BiValue(BiMask(w), BiMask(w) ^ 0x200_0000, BiBits(w));
  }

  /** The sign bit that the generic extraction derives from a mask. */
  lemma OperandTops()
    ensures (BD_MASK | ((BD_MASK & -BD_MASK) - 1)) & !((BD_MASK | ((BD_MASK & -BD_MASK) - 1)) >> 1) == 0x8000
    ensures (LI_MASK | ((LI_MASK & -LI_MASK) - 1)) & !((LI_MASK | ((LI_MASK & -LI_MASK) - 1)) >> 1) == 0x200_0000
  {
  }

  /** The macros and the disassembler extract the same bits. */
  lemma OperandsAgree(w: Word)
    ensures SignedOperand(w, BD_MASK) == BdBits(w)
    ensures SignedOperand(w, LI_MASK) == BiBits(w)
  {
    OperandTops();
  }

  /** Adding a pattern is adding the number it stands for, modulo 2^32. */
  lemma AddedPattern(a: nat, b: bv32)
    ensures RelativeOperand(a, b) == (a + AsInt32(b)) % 0x1_0000_0000
  {
    if b >= 0x8000_0000 {
      WrapsOnce(a + b as nat);
    }
  }

  lemma WrapsOnce(n: int)
    ensures (n - 0x1_0000_0000) % 0x1_0000_0000 == n % 0x1_0000_0000
  {
  }

  /** The operand that the disassembler stores is the address that the macros name, modulo 2^32. */
  lemma OperandIsMacro(a: nat, w: Word)
    ensures RelativeOperand(a, SignedOperand(w, BD_MASK)) == (a + PpcBd(w)) % 0x1_0000_0000
    ensures RelativeOperand(a, SignedOperand(w, LI_MASK)) == (a + PpcBi(w)) % 0x1_0000_0000
  {
    OperandsAgree(w);
    AddedPattern(a, BdBits(w));
    AddedPattern(a, BiBits(w));
  }

  /** And it is the architecture's target. */
  lemma OperandIsTarget(a: nat, w: Word)
    ensures RelativeOperand(a, SignedOperand(w, BD_MASK)) == (a + 4 * BdWords(w)) % 0x1_0000_0000
    ensures RelativeOperand(a, SignedOperand(w, LI_MASK)) == (a + 4 * BiWords(w)) % 0x1_0000_0000
  {
    OperandIsMacro(a, w);
    BdBitsValue(w);
    BiBitsValue(w);
  }

  // ----- encodings -----

  /** An instruction with two register fields and 16 immediate bits; BO and BI lie where the register fields do. */
  function DForm(op: bv32, rt: bv32, ra: bv32, low: bv32): Word { (op << 26) | (rt << 21) | (ra << 16) | low }

  /** One with three register fields and a ten-bit extended opcode. */
  function XForm(op: bv32, rt: bv32, ra: bv32, rb: bv32, xo: bv32, low: bv32): Word {
    (op << 26) | (rt << 21) | (ra << 16) | (rb << 11) | (xo << 1) | low
  }

  /** A branch with 24 displacement bits. */
  function IForm(op: bv32, li: bv32, low: bv32): Word { (op << 26) | (li << 2) | low }

  lemma DFormFields(op: bv32, rt: bv32, ra: bv32, low: bv32)
    requires op < 64 && rt < 32 && ra < 32 && low < 0x1_0000
    ensures var w := DForm(op, rt, ra, low);
            && Op(w) == op && Bo(w) == rt && Bi(w) == ra && w & 0xFFFF == low
            && (Link(w) <==> low & 1 == 1) && (Absolute(w) <==> low & 2 == 2) && BdMask(w) == low & 0xFFFC
  {
  }

  lemma XFormFields(op: bv32, rt: bv32, ra: bv32, rb: bv32, xo: bv32, low: bv32)
    requires op < 64 && rt < 32 && ra < 32 && rb < 32 && xo < 1024 && low < 2
    ensures var w := XForm(op, rt, ra, rb, xo, low);
            && Op(w) == op && Bo(w) == rt && Bi(w) == ra && Xop(w) == xo && (Link(w) <==> low == 1)
  {
  }

  lemma IFormFields(op: bv32, li: bv32, low: bv32)
    requires op < 64 && li < 0x100_0000 && low < 4
    ensures var w := IForm(op, li, low);
            && Op(w) == op && BiMask(w) == li << 2
            && (Link(w) <==> low & 1 == 1) && (Absolute(w) <==> low & 2 == 2)
  {
  }
}
