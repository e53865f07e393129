/**
 Decoding of the branch instructions: from the BO and BI fields to the extended mnemonics of the
 disassembler's opcode table, against section 2.4 of Power ISA v3.0B Book I.
 */
module BranchDecoding {
  import opened Wrappers

  datatype CrName = Lt | Gt | Eq | So {
    function Index(): nat {
      match this
      case Lt => 0
      case Gt => 1
      case Eq => 2
      case So => 3
    }
  }

  function CrNameOf(bi: nat): (n: CrName)
    ensures n.Index() == bi % 4
  {
    match bi % 4
    case 0 => Lt
    case 1 => Gt
    case 2 => Eq
    case _ => So
  }

  /**
   What an extended branch mnemonic tests: a bit of a CR field (beq, bge, ...), the decremented CTR
   (bdz, bdnz), or both (bdzt, bdnzf, ...).
   */
  datatype Test =
    | Always
    | Bit(field: nat, name: CrName, want: bool)
    | Count(zero: bool)
    | CountAndBit(zero: bool, field: nat, name: CrName, want: bool)
  {
    predicate Decrements() { Count? || CountAndBit? }

    /** `ctr` is the count after any decrement, `cr` the 32 condition bits. */
    predicate Holds(ctr: nat, cr: seq<bool>)
      requires |cr| == 32
    {
      match this
      case Always => true
      case Bit(f, n, want) => CrBit(cr, f, n) == want
      case Count(zero) => (LowWord(ctr) == 0) == zero
      case CountAndBit(zero, f, n, want) => (LowWord(ctr) == 0) == zero && CrBit(cr, f, n) == want
    }
  }

  predicate CrBit(cr: seq<bool>, field: nat, name: CrName)
    requires |cr| == 32
  {
    field < 8 && cr[4 * field + name.Index()]
  }

  function LowWord(x: nat): nat { x % 0x1_0000_0000 }

  /** `--ctr.u64`. */
  function Decremented(ctr: nat): nat { (ctr + 0xFFFF_FFFF_FFFF_FFFF) % 0x1_0000_0000_0000_0000 }

  /** The counter goes down by one, and around from zero. */
  lemma CounterGoesDown(ctr: nat)
    requires ctr < 0x1_0000_0000_0000_0000
    ensures Decremented(ctr) == if ctr == 0 then 0xFFFF_FFFF_FFFF_FFFF else ctr - 1
  {
  }

  lemma LowWordIsLow(high: nat, low: nat)
    requires low < 0x1_0000_0000
    ensures LowWord(0x1_0000_0000 * high + low) == low
  {
  }

  function BitOf(bi: nat, want: bool): Test { Bit(bi / 4, CrNameOf(bi), want) }

  function CountAndBitOf(zero: bool, bi: nat, want: bool): Test { CountAndBit(zero, bi / 4, CrNameOf(bi), want) }

  /**
   The mnemonic that the opcode table gives to the BO and BI fields, with the prediction hints
   masked out; the table has no mnemonic of its own for the remaining encodings.
   */
  function MnemonicTest(bo: bv32, bi: nat): Option<Test> {
    if bo & 0x16 == 0x10 && bi == 0 then Some(Count(false))
    else if bo & 0x16 == 0x12 && bi == 0 then Some(Count(true))
    else if bo & 0x1C == 0x0C then Some(BitOf(bi, true))
    else if bo & 0x1C == 0x04 then Some(BitOf(bi, false))
    else if bo & 0x1E == 0x08 then Some(CountAndBitOf(false, bi, true))
    else if bo & 0x1E == 0x00 then Some(CountAndBitOf(false, bi, false))
    else if bo & 0x1E == 0x0A then Some(CountAndBitOf(true, bi, true))
    else if bo & 0x1E == 0x02 then Some(CountAndBitOf(true, bi, false))
    else None
  }

  // ----- the architecture -----

  /** BO bit 2 clear: the branch decrements CTR. */
  predicate IsaDecrements(bo: bv32) { bo & 0x04 == 0 }

  predicate IsaTaken(bo: bv32, bi: nat, ctr: nat, cr: seq<bool>)
    requires |cr| == 32 && bi < 32
  {
    var ctrOk := bo & 0x04 != 0 || ((LowWord(ctr) != 0) != (bo & 0x02 != 0));
    var condOk := bo & 0x10 != 0 || cr[bi] == (bo & 0x08 != 0);
    ctrOk && condOk
  }

  lemma CrBitIndex(cr: seq<bool>, bi: nat)
    requires |cr| == 32 && bi < 32
    ensures CrBit(cr, bi / 4, CrNameOf(bi)) == cr[bi]
  {
    assert 4 * (bi / 4) + bi % 4 == bi;
  }

  /** Every mnemonic means what the architecture says its BO and BI fields mean. */
  lemma MnemonicIsIsa(bo: bv32, bi: nat, ctr: nat, cr: seq<bool>)
    requires bo & 0x1F == bo && |cr| == 32 && bi < 32
    requires MnemonicTest(bo, bi).Some?
    ensures MnemonicTest(bo, bi).value.Decrements() <==> IsaDecrements(bo)
    ensures MnemonicTest(bo, bi).value.Holds(ctr, cr) <==> IsaTaken(bo, bi, ctr, cr)
  {
    CrBitIndex(cr, bi);
    BoBits(bo);
  }

  /** The hint bits, which the masks drop, are bits that the architecture's conditions do not read either. */
  lemma BoBits(bo: bv32)
    requires bo & 0x1F == bo
    ensures bo & 0x16 == 0x10 ==> bo & 0x04 == 0 && bo & 0x02 == 0 && bo & 0x10 != 0
    ensures bo & 0x16 == 0x12 ==> bo & 0x04 == 0 && bo & 0x02 != 0 && bo & 0x10 != 0
    ensures bo & 0x1C == 0x0C ==> bo & 0x04 != 0 && bo & 0x10 == 0 && bo & 0x08 != 0
    ensures bo & 0x1C == 0x04 ==> bo & 0x04 != 0 && bo & 0x10 == 0 && bo & 0x08 == 0
    ensures bo & 0x1E == 0x08 ==> bo & 0x04 == 0 && bo & 0x02 == 0 && bo & 0x10 == 0 && bo & 0x08 != 0
    ensures bo & 0x1E == 0x00 ==> bo & 0x04 == 0 && bo & 0x02 == 0 && bo & 0x10 == 0 && bo & 0x08 == 0
    ensures bo & 0x1E == 0x0A ==> bo & 0x04 == 0 && bo & 0x02 != 0 && bo & 0x10 == 0 && bo & 0x08 != 0
    ensures bo & 0x1E == 0x02 ==> bo & 0x04 == 0 && bo & 0x02 != 0 && bo & 0x10 == 0 && bo & 0x08 == 0
  {
  }
}
