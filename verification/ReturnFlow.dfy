/**
 Branches to LR and CTR, as the boundary analyser takes them and as the architecture means them.
 */
module ReturnFlow {
  import opened PpcWord
  import opened BranchDecoding
  import opened ControlFlow

  /** Some machine state does not take the branch. */
  ghost predicate CanFallThrough(w: Word) {
    exists ctr: nat, cr: seq<bool> :: |cr| == 32 && !IsaTaken(Bo(w), BiOf(w), ctr, cr)
  }

  lemma NotTaken(w: Word, ctr: nat, cr: seq<bool>)
    requires |cr| == 32 && !IsaTaken(Bo(w), BiOf(w), ctr, cr)
    ensures CanFallThrough(w)
  {
  }

  /** Falling through is possible unless BO says "always", with both of its two bits. */
  lemma FallsThroughUnlessAlways(w: Word)
    ensures CanFallThrough(w) <==> Bo(w) & 0x10 == 0 || Bo(w) & 0x04 == 0
  {
    var bo, bi := Bo(w), BiOf(w);
    if bo & 0x10 == 0 {
      var cr := seq(32, i => bo & 0x08 == 0);
      assert cr[bi] == (bo & 0x08 == 0);
      NotTaken(w, 0, cr);
    } else if bo & 0x04 == 0 {
      NotTaken(w, if bo & 0x02 == 0 then 0 else 1, seq(32, i => false));
    }
  }

  /**
   The analyser goes on behind a branch to LR or CTR exactly when control can fall through it, if and
   only if the branch is not one that tests CTR alone: those it takes to be unconditional.
   */
  lemma ReturnIsIsa(w: Word, decodes: Word -> bool)
    requires Op(w) == OP_CTR && (Xop(w) == XOP_BCLR || Xop(w) == XOP_BCCTR) && !Link(w)
    ensures (FlowOf(w, decodes).MayReturn? <==> CanFallThrough(w)) <==> !(Bo(w) & 0x10 != 0 && Bo(w) & 0x04 == 0)
  {
    FallsThroughUnlessAlways(w);
  }
}
