/**
 What the analyser takes a word to do, against the steps that the architecture lets it make: the next word and
 the branch target, with the exact words for which the two differ.
 */
module ArchitectureFlow {
  import opened PpcWord
  import opened BranchDecoding
  import opened Translator
  import opened HostRuns
  import opened GuestRuns
  import ControlFlow
  import BlockWalk

  // ----- steps of the architecture -----

  /** In state ctx the word at address a leads to t, and not because CTR names t. Calls come back to the next word. */
  ghost predicate StepsFrom(e: Env, w: World, a: nat, word: Word, ctx: Ctx, t: int) {
    var g := IsaStep(e, w, a, word, ctx);
    LowWord(ctx.ctr) != t && g.At? && g.address == t
  }

  /** In some state the word at address a leads to t. */
  ghost predicate StepsTo(e: Env, w: World, a: nat, word: Word, t: int) {
    exists ctx :: StepsFrom(e, w, a, word, ctx, t)
  }

  predicate IsConditional(word: Word) { Op(word) == 16 }

  predicate IsJump(word: Word) { Op(word) == 18 }

  predicate IsRegisterBranch(word: Word) { Op(word) == 19 && (Xop(word) == 16 || Xop(word) == 528) }

  predicate IsAbsolute(word: Word) { (IsConditional(word) || IsJump(word)) && word & 2 != 0 }

  // ----- the words that the analyser takes for something else -----

  /** bdnzlr, bdzlr and their like: branches to LR or CTR that test CTR alone, taken for unconditional ones. */
  predicate TestsCtrAlone(word: Word) {
    IsRegisterBranch(word) && word & 1 == 0 && Bo(word) & 0x10 != 0 && Bo(word) & 0x04 == 0
  }

  /** A zero word, or one that the disassembler does not know, where the analyser stops. */
  predicate Unread(word: Word, decodes: Word -> bool) {
    word == 0 || (!IsConditional(word) && !IsJump(word) && !IsRegisterBranch(word) && !decodes(word))
  }

  /** A bc that is always taken, and not to the next word. */
  predicate NeverFallsThrough(word: Word) {
    IsConditional(word) && word & 1 == 0 && Bo(word) & 0x14 == 0x14 && BdWords(word) != 1
  }

  /** The analyser goes on to the next word. */
  predicate NamesNext(f: ControlFlow.Flow) { f.Next? || f.Fork? || f.MayReturn? || (f.Jump? && f.disp == 1) }

  /** The analyser's branch target. */
  predicate NamesTarget(f: ControlFlow.Flow, a: nat, t: int) {
    (f.Fork? || f.Jump?) && (a + 4 * f.disp) % 0x1_0000_0000 == t
  }

  // ----- states in which a branch is taken, or not -----

  function CtxWith(ctr: nat, cr: CrBits): Ctx { Ctx([], [], [], map[], ctr, 0, cr) }

  function AllCr(b: bool): CrBits { seq(32, _ => b) }

  /** Counting down from one gives zero, from two one. */
  function CountFor(bo: bv32, taken: bool): nat {
    if taken == (bo & 0x02 != 0) then 1 else 2
  }

  function CrFor(bo: bv32, taken: bool): CrBits { AllCr(taken == (bo & 0x08 != 0)) }

  lemma TakenWhen(bo: bv32, bi: nat)
    requires bi < 32
    ensures IsaTaken(bo, bi, Decremented(CountFor(bo, true)), CrFor(bo, true))
    ensures IsaTaken(bo, bi, CountFor(bo, true) - 1, CrFor(bo, true))
    ensures bo & 0x04 != 0 ==> forall ctr: nat :: IsaTaken(bo, bi, ctr, CrFor(bo, true))
    ensures bo & 0x14 != 0x14 ==> !IsaTaken(bo, bi, Decremented(CountFor(bo, false)), CrFor(bo, false))
    ensures bo & 0x14 != 0x14 ==> !IsaTaken(bo, bi, CountFor(bo, false) - 1, CrFor(bo, false))
    ensures bo & 0x10 == 0 ==> forall ctr: nat :: !IsaTaken(bo, bi, ctr, CrFor(bo, false))
    ensures bo & 0x14 == 0x14 ==> forall ctr: nat, cr: CrBits :: IsaTaken(bo, bi, ctr, cr)
  {
    AlwaysBits(bo);
    CounterGoesDown(1);
    CounterGoesDown(2);
    LowWordIsLow(0, 0);
    LowWordIsLow(0, 1);
  }

  lemma AlwaysBits(bo: bv32)
    ensures bo & 0x14 == 0x14 <==> bo & 0x10 != 0 && bo & 0x04 != 0
  {
  }

  // ----- where each kind of word leads -----

  lemma ConditionalTakes(e: Env, w: World, a: nat, word: Word, t: int)
    requires IsConditional(word) && !Link(word) && e.InRange(t) && t % 4 == 0 && t == TargetOf(a, BdWords(word))
    ensures StepsTo(e, w, a, word, t)
  {
    TakenWhen(Bo(word), BiOf(word));
    assert StepsFrom(e, w, a, word, CtxWith(CountFor(Bo(word), true), CrFor(Bo(word), true)), t);
  }

  lemma ConditionalContinues(e: Env, w: World, a: nat, word: Word)
    requires IsConditional(word) && !Link(word) && a % 4 == 0 && Bo(word) & 0x14 != 0x14
    ensures StepsTo(e, w, a, word, a + 4)
  {
    TakenWhen(Bo(word), BiOf(word));
    assert StepsFrom(e, w, a, word, CtxWith(CountFor(Bo(word), false), CrFor(Bo(word), false)), a + 4);
  }

  lemma ConditionalSteps(e: Env, w: World, a: nat, word: Word, t: int)
    requires IsConditional(word) && !Link(word) && e.InRange(t) && t % 4 == 0
    ensures StepsTo(e, w, a, word, t) <==> t == TargetOf(a, BdWords(word)) || (t == a + 4 && Bo(word) & 0x14 != 0x14)
  {
    if StepsTo(e, w, a, word, t) {
      TakenWhen(Bo(word), BiOf(word));
      var ctx :| StepsFrom(e, w, a, word, ctx, t);
    }
    if t == TargetOf(a, BdWords(word)) {
      ConditionalTakes(e, w, a, word, t);
    }
    if t == a + 4 && Bo(word) & 0x14 != 0x14 {
      ConditionalContinues(e, w, a, word);
    }
  }

  lemma JumpSteps(e: Env, w: World, a: nat, word: Word, t: int)
    requires IsJump(word) && !Link(word) && e.InRange(t) && t % 4 == 0
    ensures StepsTo(e, w, a, word, t) <==> t == TargetOf(a, BiWords(word))
  {
    if t == TargetOf(a, BiWords(word)) {
      assert StepsFrom(e, w, a, word, CtxWith(1, AllCr(true)), t);
    }
  }

  lemma LinkedSteps(e: Env, w: World, a: nat, word: Word, t: int)
    requires (IsConditional(word) || IsJump(word) || IsRegisterBranch(word)) && Link(word) && t % 4 == 0
    ensures StepsTo(e, w, a, word, t) <==> t == a + 4
  {
    if t == a + 4 {
      assert StepsFrom(e, w, a, word, CtxWith(1, AllCr(true)), t);
    }
  }

  lemma RegisterSteps(e: Env, w: World, a: nat, word: Word, t: int)
    requires IsRegisterBranch(word) && !Link(word) && t % 4 == 0
    ensures StepsTo(e, w, a, word, t) <==> t == a + 4 && Bo(word) & 0x14 != 0x14
  {
    var bo := Bo(word);
    TakenWhen(bo, BiOf(word));
    if StepsTo(e, w, a, word, t) {
      var ctx :| StepsFrom(e, w, a, word, ctx, t);
    }
    if t == a + 4 && bo & 0x14 != 0x14 {
      if Xop(word) == 16 {
        assert StepsFrom(e, w, a, word, CtxWith(CountFor(bo, false), CrFor(bo, false)), t);
      } else {
        assert StepsFrom(e, w, a, word, CtxWith(CountFor(bo, false) - 1, CrFor(bo, false)), t);
      }
    }
  }

  lemma OtherSteps(e: Env, w: World, a: nat, word: Word, t: int)
    requires !IsConditional(word) && !IsJump(word) && !IsRegisterBranch(word) && t % 4 == 0
    ensures StepsTo(e, w, a, word, t) <==> t == a + 4
  {
    if t == a + 4 {
      assert StepsFrom(e, w, a, word, CtxWith(1, AllCr(true)), t);
    }
  }

  // ----- the flow of each kind of word -----

  lemma ConditionalFlow(word: Word, decodes: Word -> bool)
    requires IsConditional(word)
    ensures ControlFlow.FlowOf(word, decodes)
         == if Link(word) then ControlFlow.Next else ControlFlow.Fork(BdWords(word))
  {
    BdBitsValue(word);
  }

  lemma JumpFlow(word: Word, decodes: Word -> bool)
    requires IsJump(word)
    ensures ControlFlow.FlowOf(word, decodes)
         == if Link(word) then ControlFlow.Next else ControlFlow.Jump(BiWords(word))
  {
    BiBitsValue(word);
  }

  lemma RegisterFlow(word: Word, decodes: Word -> bool)
    requires IsRegisterBranch(word)
    ensures ControlFlow.FlowOf(word, decodes)
         == if Link(word) then ControlFlow.Next else if Bo(word) & 0x10 == 0 then ControlFlow.MayReturn else ControlFlow.Stop
  {
  }

  lemma OtherFlow(word: Word, decodes: Word -> bool)
    requires !IsConditional(word) && !IsJump(word) && !IsRegisterBranch(word)
    ensures ControlFlow.FlowOf(word, decodes) == if Unread(word, decodes) then ControlFlow.Stop else ControlFlow.Next
  {
    ZeroIsUnlinked(word);
  }

  lemma ZeroIsUnlinked(word: Word)
    ensures word == 0 ==> !Link(word) && Op(word) == 0
  {
  }

  lemma BranchIsNotZero(word: Word)
    requires IsConditional(word) || IsJump(word) || IsRegisterBranch(word)
    ensures word != 0
  {
    ZeroIsUnlinked(word);
  }

  /** A displacement is short, so only one of a single word names the next word. */
  lemma TargetIsNext(a: nat, d: int)
    requires -0x100_0000 <= d < 0x100_0000 && a + 4 < 0x1_0000_0000
    ensures TargetOf(a, d) == a + 4 <==> d == 1
  {
    var x := a + 4 * d;
    if x < 0 {
      assert x % 0x1_0000_0000 == x + 0x1_0000_0000;
    } else if x >= 0x1_0000_0000 {
      assert x % 0x1_0000_0000 == x - 0x1_0000_0000;
    }
  }

  /**
   The analyser goes on to the next word exactly when the architecture can, calls included, if and only if the
   word is not one of those: branches to registers that test CTR alone, words that it does not read, and
   conditional branches that are always taken.
   */
  lemma NextIsIsa(e: Env, w: World, a: nat, word: Word, decodes: Word -> bool)
    requires !IsAbsolute(word) && e.Valid() && e.InRange(a + 4) && a % 4 == 0
    ensures (StepsTo(e, w, a, word, a + 4) <==> NamesNext(ControlFlow.FlowOf(word, decodes)))
            <==> !TestsCtrAlone(word) && !Unread(word, decodes) && !NeverFallsThrough(word)
  {
    LowBitIsLink(word);
    if !IsConditional(word) && !IsJump(word) && !IsRegisterBranch(word) {
      OtherSteps(e, w, a, word, a + 4);
      OtherFlow(word, decodes);
    } else {
      BranchIsNotZero(word);
      if Link(word) {
        LinkedSteps(e, w, a, word, a + 4);
      }
      if IsConditional(word) {
        ConditionalNext(e, w, a, word, decodes);
      } else if IsJump(word) {
        JumpNext(e, w, a, word, decodes);
      } else {
        RegisterNext(e, w, a, word, decodes);
      }
    }
  }

  lemma LowBitIsLink(word: Word)
    ensures Link(word) <==> word & 1 != 0
    ensures word & 1 == 0 || word & 1 == 1
  {
  }

  lemma ConditionalNext(e: Env, w: World, a: nat, word: Word, decodes: Word -> bool)
    requires IsConditional(word) && e.Valid() && e.InRange(a + 4) && a % 4 == 0
    requires Link(word) ==> StepsTo(e, w, a, word, a + 4)
    ensures (StepsTo(e, w, a, word, a + 4) <==> NamesNext(ControlFlow.FlowOf(word, decodes))) <==> !NeverFallsThrough(word)
  {
    ConditionalFlow(word, decodes);
    LowBitIsLink(word);
    if !Link(word) {
      ConditionalSteps(e, w, a, word, a + 4);
      TargetIsNext(a, BdWords(word));
    }
  }

  lemma JumpNext(e: Env, w: World, a: nat, word: Word, decodes: Word -> bool)
    requires IsJump(word) && e.Valid() && e.InRange(a + 4) && a % 4 == 0
    requires Link(word) ==> StepsTo(e, w, a, word, a + 4)
    ensures StepsTo(e, w, a, word, a + 4) <==> NamesNext(ControlFlow.FlowOf(word, decodes))
  {
    JumpFlow(word, decodes);
    if !Link(word) {
      JumpSteps(e, w, a, word, a + 4);
      TargetIsNext(a, BiWords(word));
    }
  }

  lemma RegisterNext(e: Env, w: World, a: nat, word: Word, decodes: Word -> bool)
    requires IsRegisterBranch(word) && a % 4 == 0
    requires Link(word) ==> StepsTo(e, w, a, word, a + 4)
    ensures (StepsTo(e, w, a, word, a + 4) <==> NamesNext(ControlFlow.FlowOf(word, decodes))) <==> !TestsCtrAlone(word)
  {
    RegisterFlow(word, decodes);
    LowBitIsLink(word);
    AlwaysBits(Bo(word));
    if !Link(word) {
      RegisterSteps(e, w, a, word, a + 4);
    }
  }

  lemma ConditionalTarget(e: Env, w: World, a: nat, word: Word, decodes: Word -> bool, t: int)
    requires IsConditional(word) && !Link(word) && e.InRange(t) && t % 4 == 0 && t != a + 4
    ensures StepsTo(e, w, a, word, t) <==> NamesTarget(ControlFlow.FlowOf(word, decodes), a, t)
  {
    ConditionalFlow(word, decodes);
    ForkNames(BdWords(word), a, t);
    ConditionalSteps(e, w, a, word, t);
  }

  lemma ForkNames(d: int, a: nat, t: int)
    ensures NamesTarget(ControlFlow.Fork(d), a, t) <==> t == TargetOf(a, d)
    ensures NamesTarget(ControlFlow.Jump(d), a, t) <==> t == TargetOf(a, d)
  {
  }

  lemma JumpTarget(e: Env, w: World, a: nat, word: Word, decodes: Word -> bool, t: int)
    requires IsJump(word) && !Link(word) && e.InRange(t) && t % 4 == 0
    ensures StepsTo(e, w, a, word, t) <==> NamesTarget(ControlFlow.FlowOf(word, decodes), a, t)
  {
    JumpFlow(word, decodes);
    ForkNames(BiWords(word), a, t);
    JumpSteps(e, w, a, word, t);
  }

  lemma NoTarget(word: Word, decodes: Word -> bool, a: nat, t: int)
    requires IsConditional(word) || IsJump(word) ==> Link(word)
    ensures !NamesTarget(ControlFlow.FlowOf(word, decodes), a, t)
  {
    if IsConditional(word) {
      ConditionalFlow(word, decodes);
    } else if IsJump(word) {
      JumpFlow(word, decodes);
    } else if IsRegisterBranch(word) {
      RegisterFlow(word, decodes);
    } else {
      OtherFlow(word, decodes);
    }
  }

  /** Elsewhere the architecture can go exactly where the analyser's branch goes, whatever the word. */
  lemma TargetIsIsa(e: Env, w: World, a: nat, word: Word, decodes: Word -> bool, t: int)
    requires !IsAbsolute(word) && e.Valid() && e.InRange(t) && t % 4 == 0 && t != a + 4
    ensures StepsTo(e, w, a, word, t) <==> NamesTarget(ControlFlow.FlowOf(word, decodes), a, t)
  {
    if (IsConditional(word) || IsJump(word)) && !Link(word) {
      if IsConditional(word) {
        ConditionalTarget(e, w, a, word, decodes, t);
      } else {
        JumpTarget(e, w, a, word, decodes, t);
      }
    } else {
      NoTarget(word, decodes, a, t);
      if IsConditional(word) || IsJump(word) || (IsRegisterBranch(word) && Link(word)) {
        LinkedSteps(e, w, a, word, t);
      } else if IsRegisterBranch(word) {
        RegisterSteps(e, w, a, word, t);
      } else {
        OtherSteps(e, w, a, word, t);
      }
    }
  }

  // ----- regions -----

  /** The function that a region of code would be. */
  ghost predicate Covers(e: Env, r: ControlFlow.Region) { e.Valid() && r.Valid() && e.base == r.base && e.size == r.size }

  /** A word that the analyser takes as the architecture means it. */
  predicate Regular(word: Word, decodes: Word -> bool) {
    !IsAbsolute(word) && !TestsCtrAlone(word) && !Unread(word, decodes) && !NeverFallsThrough(word)
  }

  /** Inside a function no branch wraps around the address space. */
  lemma NoWrapInside(e: Env, a: nat, d: int, t: int)
    requires e.Valid() && e.InRange(a) && e.InRange(t) && -0x80_0000 <= d < 0x80_0000
    ensures (a + 4 * d) % 0x1_0000_0000 == t <==> a + 4 * d == t
  {
    var x := a + 4 * d;
    if x < 0 {
      assert x % 0x1_0000_0000 == x + 0x1_0000_0000;
    } else if x >= 0x1_0000_0000 {
      assert x % 0x1_0000_0000 == x - 0x1_0000_0000;
    }
  }

  lemma EdgeOfFlow(e: Env, r: ControlFlow.Region, k: nat, j: nat)
    requires Covers(e, r) && k < r.Limit() && j < r.Limit()
    ensures r.Edge(k, j) <==> (j == k + 1 && NamesNext(r.flow[k])) || (j != k + 1 && NamesTarget(r.flow[k], e.Addr(k), e.Addr(j)))
  {
    var f, a, t := r.flow[k], e.Addr(k), e.Addr(j);
    if f.Fork? || f.Jump? {
      NoWrapInside(e, a, f.disp, t);
    }
  }

  lemma StepOfWord(e: Env, w: World, a: nat, t: nat, word: Word, decodes: Word -> bool, f: ControlFlow.Flow)
    requires e.Valid() && e.InRange(t) && a % 4 == 0 && t % 4 == 0
    requires f == ControlFlow.FlowOf(word, decodes) && Regular(word, decodes)
    ensures StepsTo(e, w, a, word, t) <==> if t == a + 4 then NamesNext(f) else NamesTarget(f, a, t)
  {
    if t == a + 4 {
      NextIsIsa(e, w, a, word, decodes);
    } else {
      TargetIsIsa(e, w, a, word, decodes, t);
    }
  }

  lemma EdgeOfWord(e: Env, w: World, r: ControlFlow.Region, k: nat, j: nat, word: Word, decodes: Word -> bool)
    requires Covers(e, r) && k < r.Limit() && j < r.Limit()
    requires r.flow[k] == ControlFlow.FlowOf(word, decodes) && Regular(word, decodes)
    ensures r.Edge(k, j) <==> StepsTo(e, w, e.Addr(k), word, e.Addr(j))
  {
    EdgeOfFlow(e, r, k, j);
    StepOfWord(e, w, e.Addr(k), e.Addr(j), word, decodes, r.flow[k]);
  }

  /** The architecture leads from word u of the code to word v, in some state. */
  ghost predicate IsaEdge(e: Env, w: World, code: seq<Word>, u: int, v: int) {
    0 <= u < |code| && StepsTo(e, w, e.base + 4 * u, code[u], e.base + 4 * v)
  }

  /** Inside a region of regular words the analyser's edges are the steps of the architecture. */
  lemma EdgeIsIsa(e: Env, w: World, r: ControlFlow.Region, code: seq<Word>, decodes: Word -> bool, k: int, j: int)
    requires Covers(e, r) && BlockWalk.Describes(r, code, r.size, r.base, decodes)
    requires 0 <= k < r.Limit() && 0 <= j < r.Limit() && Regular(code[k], decodes)
    ensures r.Edge(k, j) <==> IsaEdge(e, w, code, k, j)
  {
    EdgeOfWord(e, w, r, k, j, code[k], decodes);
  }

  /** A run of the architecture from the first word on. */
  ghost predicate IsaPath(e: Env, w: World, code: seq<Word>, p: seq<int>) {
    && p != [] && p[0] == 0
    && forall k :: 0 <= k < |p| - 1 ==> IsaEdge(e, w, code, p[k], p[k + 1])
  }

  ghost predicate StaysIn(p: seq<int>, n: nat) { forall k :: 0 <= k < |p| ==> 0 <= p[k] < n }

  ghost predicate AllRegular(code: seq<Word>, n: nat, decodes: Word -> bool)
    requires n <= |code|
  {
    forall k :: 0 <= k < n ==> Regular(code[k], decodes)
  }

  /** The analyser's paths through a region of regular words are the runs of the architecture. */
  lemma PathIsIsa(e: Env, w: World, r: ControlFlow.Region, code: seq<Word>, decodes: Word -> bool, p: seq<int>)
    requires Covers(e, r) && BlockWalk.Describes(r, code, r.size, r.base, decodes)
    requires StaysIn(p, r.Limit()) && AllRegular(code, r.Limit(), decodes)
    ensures r.IsPath(p) <==> IsaPath(e, w, code, p)
  {
    forall k | 0 <= k < |p| - 1
      ensures r.Edge(p[k], p[k + 1]) <==> IsaEdge(e, w, code, p[k], p[k + 1])
    {
      EdgeIsIsa(e, w, r, code, decodes, p[k], p[k + 1]);
    }
  }
}
