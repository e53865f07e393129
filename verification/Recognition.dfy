/**
 Which words the translator recognises, told from their fields, and when it reports a function complete.
 */
module Recognition {
  import opened PpcWord
  import opened BranchDecoding
  import opened Translator
  import opened GuestRuns

  // ----- the fields -----

  /**
   Branches that test something and have a mnemonic: BO is not "always", BI is zero where only CTR is tested, and a
   test of CTR and no tested bit is not of summary overflow.
   */
  predicate TestsPlainly(bo: bv32, bi: nat) {
    && bo & 0x14 != 0x14
    && (bo & 0x10 != 0 ==> bi == 0)
    && !(bo & 0x14 == 0x04 && bi % 4 == 3)
  }

  predicate Unconditionally(w: Word) { Bo(w) == 0x14 && BiOf(w) == 0 }

  /** BB, which the extended mnemonics of branches to registers need zero. */
  predicate NoBb(w: Word) { (w >> 11) & 0x1F == 0 }

  /** bdnz has no form that returns. */
  predicate IsBdnz(bo: bv32) { bo & 0x16 == 0x10 }

  /** bne of some field: the only conditional branch to CTR. */
  predicate IsBne(bo: bv32, bi: nat) { bo & 0x1C == 0x04 && bi % 4 == 2 }

  predicate RecognisedWord(e: Env, w: Word) {
    var op, linked := Op(w), w & 1 != 0;
    if op == 18 then w & 2 == 0
    else if op == 16 then !linked && w & 2 == 0 && TestsPlainly(Bo(w), BiOf(w))
    else if op == 19 && Xop(w) == 16 then
      NoBb(w) && !linked && (Unconditionally(w) || (TestsPlainly(Bo(w), BiOf(w)) && !IsBdnz(Bo(w))))
    else if op == 19 && Xop(w) == 528 then
      NoBb(w) && (Unconditionally(w) || (!linked && IsBne(Bo(w), BiOf(w))))
    else e.decodes(w) && e.handled(w)
  }

  /** blrl, emitted as a trap */
  predicate TrapWord(w: Word) { Op(w) == 19 && Xop(w) == 16 && NoBb(w) && w & 1 != 0 && Unconditionally(w) }

  predicate IsBranch(w: Word) { Op(w) == 16 || Op(w) == 18 || (Op(w) == 19 && (Xop(w) == 16 || Xop(w) == 528)) }

  /** Passed over without complaint. */
  predicate PassedOver(e: Env, w: Word) { !IsBranch(w) && !e.decodes(w) }

  // ----- the iff -----

  lemma FieldBits(bo: bv32)
    requires bo & 0x1F == bo
    ensures bo & 0x16 == 0x10 || bo & 0x16 == 0x12 ==> bo & 0x10 != 0 && bo & 0x14 != 0x14
    ensures bo & 0x1C == 0x0C || bo & 0x1C == 0x04 <==> bo & 0x14 == 0x04
    ensures bo & 0x14 == 0x04 ==> bo & 0x10 == 0
    ensures bo & 0x10 != 0 && bo & 0x14 != 0x14 <==> bo & 0x16 == 0x10 || bo & 0x16 == 0x12
    ensures bo & 0x1E == 0x08 || bo & 0x1E == 0x00 || bo & 0x1E == 0x0A || bo & 0x1E == 0x02 <==> bo & 0x14 == 0
  {
  }

  /** The mnemonics with an emitter case. */
  lemma TestIsPlain(bo: bv32, bi: nat)
    requires bo & 0x1F == bo && bi < 32
    ensures MnemonicTest(bo, bi).Some? && NamesNoOverflow(MnemonicTest(bo, bi).value) <==> TestsPlainly(bo, bi)
    ensures MnemonicTest(bo, bi).Some? ==> (MnemonicTest(bo, bi).value == Count(false) <==> IsBdnz(bo) && bi == 0)
  {
    FieldBits(bo);
  }

  lemma TestIsBne(bo: bv32, bi: nat)
    requires bo & 0x1F == bo && bi < 32
    ensures (MnemonicTest(bo, bi).Some? && var t := MnemonicTest(bo, bi).value; t.Bit? && t.name == Eq && !t.want)
        <==> IsBne(bo, bi)
  {
    FieldBits(bo);
    BneBits(bo);
  }

  lemma BneBits(bo: bv32)
    ensures bo & 0x1C == 0x04 ==> bo & 0x16 != 0x10 && bo & 0x16 != 0x12 && bo & 0x1C != 0x0C
  {
  }

  lemma BcRecognised(e: Env, a: nat, w: Word)
    requires Op(w) == 16
    ensures Recognised(Decode(e, a, w)) <==> RecognisedWord(e, w)
    ensures Decode(e, a, w).Unhandled? <==> !RecognisedWord(e, w)
  {
    BoIsFiveBits(w);
    TestIsPlain(Bo(w), BiOf(w));
  }

  lemma BclrRecognised(e: Env, a: nat, w: Word)
    requires Op(w) == 19 && Xop(w) == 16
    ensures Recognised(Decode(e, a, w)) <==> RecognisedWord(e, w)
    ensures Decode(e, a, w).Unhandled? <==> !RecognisedWord(e, w) && !TrapWord(w)
  {
    BoIsFiveBits(w);
    TestIsPlain(Bo(w), BiOf(w));
  }

  lemma BcctrRecognised(e: Env, a: nat, w: Word)
    requires Op(w) == 19 && Xop(w) == 528
    ensures Recognised(Decode(e, a, w)) <==> RecognisedWord(e, w)
    ensures Decode(e, a, w).Unhandled? <==> !RecognisedWord(e, w)
  {
    BoIsFiveBits(w);
    TestIsBne(Bo(w), BiOf(w));
  }

  /** A word is recognised if and only if its fields say so. */
  lemma RecognisedExactly(e: Env, a: nat, w: Word)
    ensures Recognised(Decode(e, a, w)) <==> RecognisedWord(e, w)
    ensures Decode(e, a, w).Unhandled? <==> !RecognisedWord(e, w) && !TrapWord(w) && !PassedOver(e, w)
  {
    if Op(w) == 16 {
      BcRecognised(e, a, w);
    } else if Op(w) == 19 && Xop(w) == 16 {
      BclrRecognised(e, a, w);
    } else if Op(w) == 19 && Xop(w) == 528 {
      BcctrRecognised(e, a, w);
    }
  }

  // ----- what a function is reported -----

  ghost predicate AllHandled(e: Env, k: nat)
    requires k <= |e.code|
  {
    forall j :: 0 <= j < k ==> !e.code[j].insn.Unhandled?
  }

  lemma {:induction false} CompleteUpTo(e: Env, labels: set<int>, k: nat)
    requires k <= |e.code|
    ensures EmitUpTo(e, labels, k).complete <==> AllHandled(e, k)
  {
    if k > 0 {
      var j := k - 1;
      CompleteUpTo(e, labels, j);
      EmitStep(e, labels, j, k, EmitUpTo(e, labels, j));
    }
  }

  /**
   The translator reports a function complete if and only if each of its words is recognised, is blrl, or is
   no branch and unknown to the disassembler.
   */
  lemma CompleteExactly(e: Env)
    requires e.Valid() && e.Disassembled()
    ensures Emitted(e).complete <==>
            forall k :: 0 <= k < e.Count() ==>
              RecognisedWord(e, e.code[k].word) || TrapWord(e.code[k].word) || PassedOver(e, e.code[k].word)
  {
    CompleteUpTo(e, LabelsUpTo(e, e.Count()), e.Count());
    forall k | 0 <= k < e.Count()
      ensures e.code[k].insn.Unhandled?
         <==> !RecognisedWord(e, e.code[k].word) && !TrapWord(e.code[k].word) && !PassedOver(e, e.code[k].word)
    {
      RecognisedExactly(e, e.Addr(k), e.code[k].word);
    }
  }

  // ----- how far the function reaches -----

  /** A word is translated if and only if it begins in front of the function's end and of the section's. */
  lemma CountExactly(e: Env, k: nat)
    ensures k < e.Count() <==> e.base + 4 * k < e.base + e.size && e.base + 4 * k < e.sectionEnd
  {
  }

  predicate Inside(e: Env, t: int) { e.base <= t < e.base + e.size }

  /**
   A jump is a goto if and only if its target lies in the function, whose size then counts in full; so is a branch on
   a bit, and a case of a switch. A branch that decrements CTR is one wherever it goes.
   */
  lemma GotosExactly(e: Env, a: nat, w: Word, insn: Insn, c: Carry)
    ensures insn.Jump? ==> (StmtsFor(e, a, w, insn, c) == [Goto(insn.target)] <==> Inside(e, insn.target))
    ensures insn.JumpIf? && !insn.test.Decrements() ==>
              (StmtsFor(e, a, w, insn, c) == [If(insn.test, GotoThen(insn.target))] <==> Inside(e, insn.target))
    ensures insn.JumpIf? && insn.test.Decrements() ==>
              StmtsFor(e, a, w, insn, c) == [DecrementCtr, If(insn.test, GotoThen(insn.target))]
  {
  }

  lemma CasesExactly(e: Env, table: Table, i: nat)
    requires i < |table.labels|
    ensures |CasesOf(e, table)| == |table.labels|
    ensures CasesOf(e, table)[i] == GotoCase(table.labels[i]) <==> Inside(e, table.labels[i])
    ensures CasesOf(e, table)[i] == ErrorCase <==> !Inside(e, table.labels[i])
  {
  }

  /** What is called at an address: longjmp comes before setjmp, and they before the functions that have symbols. */
  lemma CalleeExactly(e: Env, a: nat)
    ensures CalleeOf(e, a) == LongJmp <==> a == e.longJmp
    ensures CalleeOf(e, a) == SetJmp <==> a == e.setJmp && a != e.longJmp
    ensures CalleeOf(e, a).Function? <==> a in e.symbols && a != e.setJmp && a != e.longJmp
    ensures CalleeOf(e, a).Function? ==> CalleeOf(e, a).address == a
  {
  }
}
