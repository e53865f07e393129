/**
 The tables of shuffle indices for unaligned vectors, as they are written out, and what each row says.
 */
module VectorTables {
  import opened Wrappers
  import opened VectorReversal

  // ----- the tables -----

  function Row(b0: Byte, b1: Byte, b2: Byte, b3: Byte, b4: Byte, b5: Byte, b6: Byte, b7: Byte,
               b8: Byte, b9: Byte, b10: Byte, b11: Byte, b12: Byte, b13: Byte, b14: Byte, b15: Byte): Vector
  {
    [b0, b1, b2, b3, b4, b5, b6, b7, b8, b9, b10, b11, b12, b13, b14, b15]
  }

  const VECTOR_MASK_L: seq<Vector> := [
    Row(0x0F, 0x0E, 0x0D, 0x0C, 0x0B, 0x0A, 0x09, 0x08, 0x07, 0x06, 0x05, 0x04, 0x03, 0x02, 0x01, 0x00),
    Row(0xFF, 0x0F, 0x0E, 0x0D, 0x0C, 0x0B, 0x0A, 0x09, 0x08, 0x07, 0x06, 0x05, 0x04, 0x03, 0x02, 0x01),
    Row(0xFF, 0xFF, 0x0F, 0x0E, 0x0D, 0x0C, 0x0B, 0x0A, 0x09, 0x08, 0x07, 0x06, 0x05, 0x04, 0x03, 0x02),
    Row(0xFF, 0xFF, 0xFF, 0x0F, 0x0E, 0x0D, 0x0C, 0x0B, 0x0A, 0x09, 0x08, 0x07, 0x06, 0x05, 0x04, 0x03),
    Row(0xFF, 0xFF, 0xFF, 0xFF, 0x0F, 0x0E, 0x0D, 0x0C, 0x0B, 0x0A, 0x09, 0x08, 0x07, 0x06, 0x05, 0x04),
    Row(0xFF, 0xFF, 0xFF, 0xFF, 0xFF, 0x0F, 0x0E, 0x0D, 0x0C, 0x0B, 0x0A, 0x09, 0x08, 0x07, 0x06, 0x05),
    Row(0xFF, 0xFF, 0xFF, 0xFF, 0xFF, 0xFF, 0x0F, 0x0E, 0x0D, 0x0C, 0x0B, 0x0A, 0x09, 0x08, 0x07, 0x06),
    Row(0xFF, 0xFF, 0xFF, 0xFF, 0xFF, 0xFF, 0xFF, 0x0F, 0x0E, 0x0D, 0x0C, 0x0B, 0x0A, 0x09, 0x08, 0x07),
    Row(0xFF, 0xFF, 0xFF, 0xFF, 0xFF, 0xFF, 0xFF, 0xFF, 0x0F, 0x0E, 0x0D, 0x0C, 0x0B, 0x0A, 0x09, 0x08),
    Row(0xFF, 0xFF, 0xFF, 0xFF, 0xFF, 0xFF, 0xFF, 0xFF, 0xFF, 0x0F, 0x0E, 0x0D, 0x0C, 0x0B, 0x0A, 0x09),
    Row(0xFF, 0xFF, 0xFF, 0xFF, 0xFF, 0xFF, 0xFF, 0xFF, 0xFF, 0xFF, 0x0F, 0x0E, 0x0D, 0x0C, 0x0B, 0x0A),
    Row(0xFF, 0xFF, 0xFF, 0xFF, 0xFF, 0xFF, 0xFF, 0xFF, 0xFF, 0xFF, 0xFF, 0x0F, 0x0E, 0x0D, 0x0C, 0x0B),
    Row(0xFF, 0xFF, 0xFF, 0xFF, 0xFF, 0xFF, 0xFF, 0xFF, 0xFF, 0xFF, 0xFF, 0xFF, 0x0F, 0x0E, 0x0D, 0x0C),
    Row(0xFF, 0xFF, 0xFF, 0xFF, 0xFF, 0xFF, 0xFF, 0xFF, 0xFF, 0xFF, 0xFF, 0xFF, 0xFF, 0x0F, 0x0E, 0x0D),
    Row(0xFF, 0xFF, 0xFF, 0xFF, 0xFF, 0xFF, 0xFF, 0xFF, 0xFF, 0xFF, 0xFF, 0xFF, 0xFF, 0xFF, 0x0F, 0x0E),
    Row(0xFF, 0xFF, 0xFF, 0xFF, 0xFF, 0xFF, 0xFF, 0xFF, 0xFF, 0xFF, 0xFF, 0xFF, 0xFF, 0xFF, 0xFF, 0x0F)
  ]

  const VECTOR_MASK_R: seq<Vector> := [
    Row(0xFF, 0xFF, 0xFF, 0xFF, 0xFF, 0xFF, 0xFF, 0xFF, 0xFF, 0xFF, 0xFF, 0xFF, 0xFF, 0xFF, 0xFF, 0xFF),
    Row(0x00, 0xFF, 0xFF, 0xFF, 0xFF, 0xFF, 0xFF, 0xFF, 0xFF, 0xFF, 0xFF, 0xFF, 0xFF, 0xFF, 0xFF, 0xFF),
    Row(0x01, 0x00, 0xFF, 0xFF, 0xFF, 0xFF, 0xFF, 0xFF, 0xFF, 0xFF, 0xFF, 0xFF, 0xFF, 0xFF, 0xFF, 0xFF),
    Row(0x02, 0x01, 0x00, 0xFF, 0xFF, 0xFF, 0xFF, 0xFF, 0xFF, 0xFF, 0xFF, 0xFF, 0xFF, 0xFF, 0xFF, 0xFF),
    Row(0x03, 0x02, 0x01, 0x00, 0xFF, 0xFF, 0xFF, 0xFF, 0xFF, 0xFF, 0xFF, 0xFF, 0xFF, 0xFF, 0xFF, 0xFF),
    Row(0x04, 0x03, 0x02, 0x01, 0x00, 0xFF, 0xFF, 0xFF, 0xFF, 0xFF, 0xFF, 0xFF, 0xFF, 0xFF, 0xFF, 0xFF),
    Row(0x05, 0x04, 0x03, 0x02, 0x01, 0x00, 0xFF, 0xFF, 0xFF, 0xFF, 0xFF, 0xFF, 0xFF, 0xFF, 0xFF, 0xFF),
    Row(0x06, 0x05, 0x04, 0x03, 0x02, 0x01, 0x00, 0xFF, 0xFF, 0xFF, 0xFF, 0xFF, 0xFF, 0xFF, 0xFF, 0xFF),
    Row(0x07, 0x06, 0x05, 0x04, 0x03, 0x02, 0x01, 0x00, 0xFF, 0xFF, 0xFF, 0xFF, 0xFF, 0xFF, 0xFF, 0xFF),
    Row(0x08, 0x07, 0x06, 0x05, 0x04, 0x03, 0x02, 0x01, 0x00, 0xFF, 0xFF, 0xFF, 0xFF, 0xFF, 0xFF, 0xFF),
    Row(0x09, 0x08, 0x07, 0x06, 0x05, 0x04, 0x03, 0x02, 0x01, 0x00, 0xFF, 0xFF, 0xFF, 0xFF, 0xFF, 0xFF),
    Row(0x0A, 0x09, 0x08, 0x07, 0x06, 0x05, 0x04, 0x03, 0x02, 0x01, 0x00, 0xFF, 0xFF, 0xFF, 0xFF, 0xFF),
    Row(0x0B, 0x0A, 0x09, 0x08, 0x07, 0x06, 0x05, 0x04, 0x03, 0x02, 0x01, 0x00, 0xFF, 0xFF, 0xFF, 0xFF),
    Row(0x0C, 0x0B, 0x0A, 0x09, 0x08, 0x07, 0x06, 0x05, 0x04, 0x03, 0x02, 0x01, 0x00, 0xFF, 0xFF, 0xFF),
    Row(0x0D, 0x0C, 0x0B, 0x0A, 0x09, 0x08, 0x07, 0x06, 0x05, 0x04, 0x03, 0x02, 0x01, 0x00, 0xFF, 0xFF),
    Row(0x0E, 0x0D, 0x0C, 0x0B, 0x0A, 0x09, 0x08, 0x07, 0x06, 0x05, 0x04, 0x03, 0x02, 0x01, 0x00, 0xFF)
  ]

  const VECTOR_SHIFT_TABLE_L: seq<Vector> := [
    Row(0x0F, 0x0E, 0x0D, 0x0C, 0x0B, 0x0A, 0x09, 0x08, 0x07, 0x06, 0x05, 0x04, 0x03, 0x02, 0x01, 0x00),
    Row(0x10, 0x0F, 0x0E, 0x0D, 0x0C, 0x0B, 0x0A, 0x09, 0x08, 0x07, 0x06, 0x05, 0x04, 0x03, 0x02, 0x01),
    Row(0x11, 0x10, 0x0F, 0x0E, 0x0D, 0x0C, 0x0B, 0x0A, 0x09, 0x08, 0x07, 0x06, 0x05, 0x04, 0x03, 0x02),
    Row(0x12, 0x11, 0x10, 0x0F, 0x0E, 0x0D, 0x0C, 0x0B, 0x0A, 0x09, 0x08, 0x07, 0x06, 0x05, 0x04, 0x03),
    Row(0x13, 0x12, 0x11, 0x10, 0x0F, 0x0E, 0x0D, 0x0C, 0x0B, 0x0A, 0x09, 0x08, 0x07, 0x06, 0x05, 0x04),
    Row(0x14, 0x13, 0x12, 0x11, 0x10, 0x0F, 0x0E, 0x0D, 0x0C, 0x0B, 0x0A, 0x09, 0x08, 0x07, 0x06, 0x05),
    Row(0x15, 0x14, 0x13, 0x12, 0x11, 0x10, 0x0F, 0x0E, 0x0D, 0x0C, 0x0B, 0x0A, 0x09, 0x08, 0x07, 0x06),
    Row(0x16, 0x15, 0x14, 0x13, 0x12, 0x11, 0x10, 0x0F, 0x0E, 0x0D, 0x0C, 0x0B, 0x0A, 0x09, 0x08, 0x07),
    Row(0x17, 0x16, 0x15, 0x14, 0x13, 0x12, 0x11, 0x10, 0x0F, 0x0E, 0x0D, 0x0C, 0x0B, 0x0A, 0x09, 0x08),
    Row(0x18, 0x17, 0x16, 0x15, 0x14, 0x13, 0x12, 0x11, 0x10, 0x0F, 0x0E, 0x0D, 0x0C, 0x0B, 0x0A, 0x09),
    Row(0x19, 0x18, 0x17, 0x16, 0x15, 0x14, 0x13, 0x12, 0x11, 0x10, 0x0F, 0x0E, 0x0D, 0x0C, 0x0B, 0x0A),
    Row(0x1A, 0x19, 0x18, 0x17, 0x16, 0x15, 0x14, 0x13, 0x12, 0x11, 0x10, 0x0F, 0x0E, 0x0D, 0x0C, 0x0B),
    Row(0x1B, 0x1A, 0x19, 0x18, 0x17, 0x16, 0x15, 0x14, 0x13, 0x12, 0x11, 0x10, 0x0F, 0x0E, 0x0D, 0x0C),
    Row(0x1C, 0x1B, 0x1A, 0x19, 0x18, 0x17, 0x16, 0x15, 0x14, 0x13, 0x12, 0x11, 0x10, 0x0F, 0x0E, 0x0D),
    Row(0x1D, 0x1C, 0x1B, 0x1A, 0x19, 0x18, 0x17, 0x16, 0x15, 0x14, 0x13, 0x12, 0x11, 0x10, 0x0F, 0x0E),
    Row(0x1E, 0x1D, 0x1C, 0x1B, 0x1A, 0x19, 0x18, 0x17, 0x16, 0x15, 0x14, 0x13, 0x12, 0x11, 0x10, 0x0F)
  ]

  const VECTOR_SHIFT_TABLE_R: seq<Vector> := [
    Row(0x1F, 0x1E, 0x1D, 0x1C, 0x1B, 0x1A, 0x19, 0x18, 0x17, 0x16, 0x15, 0x14, 0x13, 0x12, 0x11, 0x10),
    Row(0x1E, 0x1D, 0x1C, 0x1B, 0x1A, 0x19, 0x18, 0x17, 0x16, 0x15, 0x14, 0x13, 0x12, 0x11, 0x10, 0x0F),
    Row(0x1D, 0x1C, 0x1B, 0x1A, 0x19, 0x18, 0x17, 0x16, 0x15, 0x14, 0x13, 0x12, 0x11, 0x10, 0x0F, 0x0E),
    Row(0x1C, 0x1B, 0x1A, 0x19, 0x18, 0x17, 0x16, 0x15, 0x14, 0x13, 0x12, 0x11, 0x10, 0x0F, 0x0E, 0x0D),
    Row(0x1B, 0x1A, 0x19, 0x18, 0x17, 0x16, 0x15, 0x14, 0x13, 0x12, 0x11, 0x10, 0x0F, 0x0E, 0x0D, 0x0C),
    Row(0x1A, 0x19, 0x18, 0x17, 0x16, 0x15, 0x14, 0x13, 0x12, 0x11, 0x10, 0x0F, 0x0E, 0x0D, 0x0C, 0x0B),
    Row(0x19, 0x18, 0x17, 0x16, 0x15, 0x14, 0x13, 0x12, 0x11, 0x10, 0x0F, 0x0E, 0x0D, 0x0C, 0x0B, 0x0A),
    Row(0x18, 0x17, 0x16, 0x15, 0x14, 0x13, 0x12, 0x11, 0x10, 0x0F, 0x0E, 0x0D, 0x0C, 0x0B, 0x0A, 0x09),
    Row(0x17, 0x16, 0x15, 0x14, 0x13, 0x12, 0x11, 0x10, 0x0F, 0x0E, 0x0D, 0x0C, 0x0B, 0x0A, 0x09, 0x08),
    Row(0x16, 0x15, 0x14, 0x13, 0x12, 0x11, 0x10, 0x0F, 0x0E, 0x0D, 0x0C, 0x0B, 0x0A, 0x09, 0x08, 0x07),
    Row(0x15, 0x14, 0x13, 0x12, 0x11, 0x10, 0x0F, 0x0E, 0x0D, 0x0C, 0x0B, 0x0A, 0x09, 0x08, 0x07, 0x06),
    Row(0x14, 0x13, 0x12, 0x11, 0x10, 0x0F, 0x0E, 0x0D, 0x0C, 0x0B, 0x0A, 0x09, 0x08, 0x07, 0x06, 0x05),
    Row(0x13, 0x12, 0x11, 0x10, 0x0F, 0x0E, 0x0D, 0x0C, 0x0B, 0x0A, 0x09, 0x08, 0x07, 0x06, 0x05, 0x04),
    Row(0x12, 0x11, 0x10, 0x0F, 0x0E, 0x0D, 0x0C, 0x0B, 0x0A, 0x09, 0x08, 0x07, 0x06, 0x05, 0x04, 0x03),
    Row(0x11, 0x10, 0x0F, 0x0E, 0x0D, 0x0C, 0x0B, 0x0A, 0x09, 0x08, 0x07, 0x06, 0x05, 0x04, 0x03, 0x02),
    Row(0x10, 0x0F, 0x0E, 0x0D, 0x0C, 0x0B, 0x0A, 0x09, 0x08, 0x07, 0x06, 0x05, 0x04, 0x03, 0x02, 0x01)
  ]

  // ----- the rows -----

  /** Row n of `VectorMaskL`: the quadword from byte n on, reversed; 0xFF makes a zero. */
  function MaskL(n: nat): Vector
    requires n < 16
  {
    seq(16, j requires 0 <= j < 16 => if j < n then 0xFF else 15 - (j - n))
  }

  /** Row n of `VectorMaskR`: the n bytes in front of byte n, reversed. */
  function MaskR(n: nat): Vector
    requires n < 16
  {
    seq(16, j requires 0 <= j < 16 => if j < n then n - 1 - j else 0xFF)
  }

  /** Sixteen indices from `first` on, reversed. */
  function Ramp(first: nat): Vector
    requires first <= 16
  {
    seq(16, j requires 0 <= j < 16 => first + 15 - j)
  }

  lemma MaskLRows0To3()
    ensures VECTOR_MASK_L[0] == MaskL(0)
    ensures VECTOR_MASK_L[1] == MaskL(1)
    ensures VECTOR_MASK_L[2] == MaskL(2)
    ensures VECTOR_MASK_L[3] == MaskL(3)
  {
  }

  lemma MaskLRows4To7()
    ensures VECTOR_MASK_L[4] == MaskL(4)
    ensures VECTOR_MASK_L[5] == MaskL(5)
    ensures VECTOR_MASK_L[6] == MaskL(6)
    ensures VECTOR_MASK_L[7] == MaskL(7)
  {
  }

  lemma MaskLRows8To11()
    ensures VECTOR_MASK_L[8] == MaskL(8)
    ensures VECTOR_MASK_L[9] == MaskL(9)
    ensures VECTOR_MASK_L[10] == MaskL(10)
    ensures VECTOR_MASK_L[11] == MaskL(11)
  {
  }

  lemma MaskLRows12To15()
    ensures VECTOR_MASK_L[12] == MaskL(12)
    ensures VECTOR_MASK_L[13] == MaskL(13)
    ensures VECTOR_MASK_L[14] == MaskL(14)
    ensures VECTOR_MASK_L[15] == MaskL(15)
  {
  }

  lemma MaskLRow(n: nat)
    requires n < 16
    ensures VECTOR_MASK_L[n] == MaskL(n)
  {
    MaskLRows0To3();
    MaskLRows4To7();
    MaskLRows8To11();
    MaskLRows12To15();
  }

  lemma MaskRRows0To3()
    ensures VECTOR_MASK_R[0] == MaskR(0)
    ensures VECTOR_MASK_R[1] == MaskR(1)
    ensures VECTOR_MASK_R[2] == MaskR(2)
    ensures VECTOR_MASK_R[3] == MaskR(3)
  {
  }

  lemma MaskRRows4To7()
    ensures VECTOR_MASK_R[4] == MaskR(4)
    ensures VECTOR_MASK_R[5] == MaskR(5)
    ensures VECTOR_MASK_R[6] == MaskR(6)
    ensures VECTOR_MASK_R[7] == MaskR(7)
  {
  }

  lemma MaskRRows8To11()
    ensures VECTOR_MASK_R[8] == MaskR(8)
    ensures VECTOR_MASK_R[9] == MaskR(9)
    ensures VECTOR_MASK_R[10] == MaskR(10)
    ensures VECTOR_MASK_R[11] == MaskR(11)
  {
  }

  lemma MaskRRows12To15()
    ensures VECTOR_MASK_R[12] == MaskR(12)
    ensures VECTOR_MASK_R[13] == MaskR(13)
    ensures VECTOR_MASK_R[14] == MaskR(14)
    ensures VECTOR_MASK_R[15] == MaskR(15)
  {
  }

  lemma MaskRRow(n: nat)
    requires n < 16
    ensures VECTOR_MASK_R[n] == MaskR(n)
  {
    MaskRRows0To3();
    MaskRRows4To7();
    MaskRRows8To11();
    MaskRRows12To15();
  }

  lemma ShiftLRows0To3()
    ensures VECTOR_SHIFT_TABLE_L[0] == Ramp(0)
    ensures VECTOR_SHIFT_TABLE_L[1] == Ramp(1)
    ensures VECTOR_SHIFT_TABLE_L[2] == Ramp(2)
    ensures VECTOR_SHIFT_TABLE_L[3] == Ramp(3)
  {
  }

  lemma ShiftLRows4To7()
    ensures VECTOR_SHIFT_TABLE_L[4] == Ramp(4)
    ensures VECTOR_SHIFT_TABLE_L[5] == Ramp(5)
    ensures VECTOR_SHIFT_TABLE_L[6] == Ramp(6)
    ensures VECTOR_SHIFT_TABLE_L[7] == Ramp(7)
  {
  }

  lemma ShiftLRows8To11()
    ensures VECTOR_SHIFT_TABLE_L[8] == Ramp(8)
    ensures VECTOR_SHIFT_TABLE_L[9] == Ramp(9)
    ensures VECTOR_SHIFT_TABLE_L[10] == Ramp(10)
    ensures VECTOR_SHIFT_TABLE_L[11] == Ramp(11)
  {
  }

  lemma ShiftLRows12To15()
    ensures VECTOR_SHIFT_TABLE_L[12] == Ramp(12)
    ensures VECTOR_SHIFT_TABLE_L[13] == Ramp(13)
    ensures VECTOR_SHIFT_TABLE_L[14] == Ramp(14)
    ensures VECTOR_SHIFT_TABLE_L[15] == Ramp(15)
  {
  }

  lemma ShiftLRow(n: nat)
    requires n < 16
    ensures VECTOR_SHIFT_TABLE_L[n] == Ramp(n)
  {
    ShiftLRows0To3();
    ShiftLRows4To7();
    ShiftLRows8To11();
    ShiftLRows12To15();
  }

  lemma ShiftRRows0To3()
    ensures VECTOR_SHIFT_TABLE_R[0] == Ramp(16 - 0)
    ensures VECTOR_SHIFT_TABLE_R[1] == Ramp(16 - 1)
    ensures VECTOR_SHIFT_TABLE_R[2] == Ramp(16 - 2)
    ensures VECTOR_SHIFT_TABLE_R[3] == Ramp(16 - 3)
  {
  }

  lemma ShiftRRows4To7()
    ensures VECTOR_SHIFT_TABLE_R[4] == Ramp(16 - 4)
    ensures VECTOR_SHIFT_TABLE_R[5] == Ramp(16 - 5)
    ensures VECTOR_SHIFT_TABLE_R[6] == Ramp(16 - 6)
    ensures VECTOR_SHIFT_TABLE_R[7] == Ramp(16 - 7)
  {
  }

  lemma ShiftRRows8To11()
    ensures VECTOR_SHIFT_TABLE_R[8] == Ramp(16 - 8)
    ensures VECTOR_SHIFT_TABLE_R[9] == Ramp(16 - 9)
    ensures VECTOR_SHIFT_TABLE_R[10] == Ramp(16 - 10)
    ensures VECTOR_SHIFT_TABLE_R[11] == Ramp(16 - 11)
  {
  }

  lemma ShiftRRows12To15()
    ensures VECTOR_SHIFT_TABLE_R[12] == Ramp(16 - 12)
    ensures VECTOR_SHIFT_TABLE_R[13] == Ramp(16 - 13)
    ensures VECTOR_SHIFT_TABLE_R[14] == Ramp(16 - 14)
    ensures VECTOR_SHIFT_TABLE_R[15] == Ramp(16 - 15)
  {
  }

  lemma ShiftRRow(n: nat)
    requires n < 16
    ensures VECTOR_SHIFT_TABLE_R[n] == Ramp(16 - n)
  {
    ShiftRRows0To3();
    ShiftRRows4To7();
    ShiftRRows8To11();
    ShiftRRows12To15();
  }
}
