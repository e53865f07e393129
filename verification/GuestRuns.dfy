/**
 The guest's own view of a function: one step per instruction word, by the branch semantics of
 section 2.4 of Power ISA v3.0B Book I, and the agreement of that step with the decoded instruction.
 */
module GuestRuns {
  import opened Wrappers
  import opened PpcWord
  import opened BranchDecoding
  import opened Translator
  import opened Fpscr
  import opened HostRuns

  /** At an instruction, or gone back to the caller. */
  datatype Guest = At(address: int, ctx: Ctx) | Returned(ctx: Ctx)

  /** The architecture's target of a branch at address a, in 32-bit mode. */
  function TargetOf(a: nat, words: int): nat { (a + 4 * words) % 0x1_0000_0000 }

  /** A branch that leaves the function is a tail call; its callee returns to the caller. */
  function GoTo(e: Env, w: World, t: nat, ctx: Ctx): Guest {
    if e.InRange(t) then At(t, ctx) else Returned(w.call(t, ctx))
  }

  /** The configuration says whether LR is part of the state that the program observes. */
  function WithLr(e: Env, a: nat, ctx: Ctx): Ctx { if e.skipLr then ctx else ctx.(lr := a + 4) }

  function Counted(bo: bv32, ctx: Ctx): Ctx {
    if IsaDecrements(bo) then ctx.(ctr := Decremented(ctx.ctr)) else ctx
  }

  /** Scalar instructions need a host that keeps denormals, vector instructions one that flushes them. */
  function ModeBits(w: World, word: Word): Option<bv32> {
    match w.need(word)
    case AnyMode => None
    case Scalar => Some(BitsFor(w.arch, false))
    case Vector => Some(BitsFor(w.arch, true))
  }

  /** A branch to t, which with LK set is a call and writes LR whether it is taken or not. */
  function Branched(e: Env, w: World, a: nat, word: Word, taken: bool, t: nat, ctx: Ctx): Guest {
    if Link(word) then At(a + 4, if taken then w.call(t, WithLr(e, a, ctx)) else WithLr(e, a, ctx))
    else if taken then GoTo(e, w, t, ctx)
    else At(a + 4, ctx)
  }

  /** The word at address a, by the architecture. */
  function IsaStep(e: Env, w: World, a: nat, word: Word, ctx: Ctx): Guest {
    if Op(word) == OP_B then Branched(e, w, a, word, true, TargetOf(a, BiWords(word)), ctx)
    else if Op(word) == OP_BC then
      var counted := Counted(Bo(word), ctx);
      Branched(e, w, a, word, IsaTaken(Bo(word), BiOf(word), counted.ctr, ctx.cr), TargetOf(a, BdWords(word)), counted)
    else if Op(word) == OP_CTR && Xop(word) == XOP_BCLR then
      var counted := Counted(Bo(word), ctx);
      if Link(word) || !IsaTaken(Bo(word), BiOf(word), counted.ctr, ctx.cr) then
        Branched(e, w, a, word, IsaTaken(Bo(word), BiOf(word), counted.ctr, ctx.cr), LowWord(ctx.lr), counted)
      else Returned(counted)
    else if Op(word) == OP_CTR && Xop(word) == XOP_BCCTR then
      Branched(e, w, a, word, IsaTaken(Bo(word), BiOf(word), ctx.ctr, ctx.cr), LowWord(ctx.ctr), ctx)
    else At(a + 4, w.effect(word, ctx, ModeBits(w, word)))
  }

  /** The same step, told from the decoded instruction. */
  function InsnStep(e: Env, w: World, a: nat, word: Word, insn: Insn, ctx: Ctx): Guest {
    match insn
    case Jump(t) => GoTo(e, w, t, ctx)
    case Call(t) => At(a + 4, w.call(t, WithLr(e, a, ctx)))
    case JumpIf(test, t) =>
      var counted := TestCounted(test, ctx);
      if test.Holds(counted.ctr, ctx.cr) then GoTo(e, w, t, counted) else At(a + 4, counted)
    case ReturnIf(test) =>
      var counted := TestCounted(test, ctx);
      if test.Holds(counted.ctr, ctx.cr) then Returned(counted) else At(a + 4, counted)
    case JumpCtr => GoTo(e, w, LowWord(ctx.ctr), ctx)
    case CallCtr => At(a + 4, w.call(LowWord(ctx.ctr), WithLr(e, a, ctx)))
    case JumpCtrIf(test) =>
      if test.Holds(ctx.ctr, ctx.cr) then GoTo(e, w, LowWord(ctx.ctr), ctx) else At(a + 4, ctx)
    case _ => At(a + 4, w.effect(word, ctx, ModeBits(w, word)))
  }

  function TestCounted(test: Test, ctx: Ctx): Ctx {
    if test.Decrements() then ctx.(ctr := Decremented(ctx.ctr)) else ctx
  }

  predicate Recognised(insn: Insn) { !insn.Unhandled? && !insn.Undecodable? && !insn.Trap? }

  lemma BranchAlways(bo: bv32, bi: nat, ctr: nat, cr: CrBits)
    requires bo == 0x14 && bi < 32
    ensures !IsaDecrements(bo) && IsaTaken(bo, bi, ctr, cr)
  {
  }

  lemma BoIsFiveBits(w: Word)
    ensures Bo(w) & 0x1F == Bo(w)
  {
  }

  lemma TestIsIsa(word: Word, test: Test, ctx: Ctx)
    requires MnemonicTest(Bo(word), BiOf(word)) == Some(test)
    ensures Counted(Bo(word), ctx) == TestCounted(test, ctx)
    ensures IsaTaken(Bo(word), BiOf(word), TestCounted(test, ctx).ctr, ctx.cr)
        <==> test.Holds(TestCounted(test, ctx).ctr, ctx.cr)
  {
    BoIsFiveBits(word);
    MnemonicIsIsa(Bo(word), BiOf(word), TestCounted(test, ctx).ctr, ctx.cr);
  }

  lemma AlwaysIsIsa(word: Word, ctx: Ctx)
    requires Unconditional(word)
    ensures Counted(Bo(word), ctx) == ctx && IsaTaken(Bo(word), BiOf(word), ctx.ctr, ctx.cr)
  {
    BranchAlways(Bo(word), BiOf(word), ctx.ctr, ctx.cr);
  }

  lemma BcIsIsa(e: Env, w: World, a: nat, word: Word, ctx: Ctx)
    requires Op(word) == OP_BC && Recognised(DecodeBc(a, word))
    ensures InsnStep(e, w, a, word, DecodeBc(a, word), ctx) == IsaStep(e, w, a, word, ctx)
  {
    TestIsIsa(word, DecodeBc(a, word).test, ctx);
    OperandIsTarget(a, word);
  }

  lemma BclrIsIsa(e: Env, w: World, a: nat, word: Word, ctx: Ctx)
    requires Op(word) == OP_CTR && Xop(word) == XOP_BCLR && Recognised(DecodeBclr(word))
    ensures InsnStep(e, w, a, word, DecodeBclr(word), ctx) == IsaStep(e, w, a, word, ctx)
  {
    if Unconditional(word) {
      AlwaysIsIsa(word, ctx);
    } else {
      TestIsIsa(word, DecodeBclr(word).test, ctx);
    }
  }

  lemma BcctrIsIsa(e: Env, w: World, a: nat, word: Word, ctx: Ctx)
    requires Op(word) == OP_CTR && Xop(word) == XOP_BCCTR && Recognised(DecodeBcctr(word))
    ensures InsnStep(e, w, a, word, DecodeBcctr(word), ctx) == IsaStep(e, w, a, word, ctx)
  {
    if Unconditional(word) {
      AlwaysIsIsa(word, ctx);
    } else {
      TestIsIsa(word, DecodeBcctr(word).test, ctx);
    }
  }

  lemma BIsIsa(e: Env, w: World, a: nat, word: Word, ctx: Ctx)
    requires Op(word) == OP_B && Recognised(Decode(e, a, word))
    ensures InsnStep(e, w, a, word, Decode(e, a, word), ctx) == IsaStep(e, w, a, word, ctx)
  {
    var t := Operand(a, word, LI_MASK);
    OperandIsTarget(a, word);
    assert Decode(e, a, word) == if Link(word) then Call(t) else Jump(t);
  }

  lemma OtherIsIsa(e: Env, w: World, a: nat, word: Word, ctx: Ctx)
    requires Op(word) != OP_B && Op(word) != OP_BC && !(Op(word) == OP_CTR && (Xop(word) == XOP_BCLR || Xop(word) == XOP_BCCTR))
    requires Recognised(Decode(e, a, word))
    ensures InsnStep(e, w, a, word, Decode(e, a, word), ctx) == IsaStep(e, w, a, word, ctx)
  {
  }

  /** Decoding keeps the meaning of every recognised word. */
  lemma DecodedIsIsa(e: Env, w: World, a: nat, word: Word, ctx: Ctx)
    requires Recognised(Decode(e, a, word))
    ensures InsnStep(e, w, a, word, Decode(e, a, word), ctx) == IsaStep(e, w, a, word, ctx)
  {
    if Op(word) == OP_B {
      BIsIsa(e, w, a, word, ctx);
    } else if Op(word) == OP_BC {
      BcIsIsa(e, w, a, word, ctx);
    } else if Op(word) == OP_CTR && Xop(word) == XOP_BCLR {
      BclrIsIsa(e, w, a, word, ctx);
    } else if Op(word) == OP_CTR && Xop(word) == XOP_BCCTR {
      BcctrIsIsa(e, w, a, word, ctx);
    } else {
      OtherIsIsa(e, w, a, word, ctx);
    }
  }
}
