/**
 Functions that fall off their end: when the emitted function, which then returns, agrees with the guest.
 */
module FallOff {
  import opened Wrappers
  import opened PpcWord
  import opened BranchDecoding
  import opened Translator
  import opened LabelClosure
  import opened HostRuns
  import opened GuestRuns
  import opened Simulation

  // ----- the exact condition -----

  /** The guest never gets behind the last instruction. */
  ghost predicate NeverFallsOff(e: Env, w: World, g: Guest)
    requires e.Valid()
  {
    forall m: nat :: !AtEnd(e, GuestRun(e, w, g, m))
  }

  ghost predicate ReturnsMatch(e: Env, w: World, h: Host)
    requires e.Valid()
  {
    forall ctx :: GuestReturns(e, w, At(e.base, h.ctx), ctx) <==> HostReturns(e, w, Running(0, h), ctx)
  }

  /** A guest that falls off never returns. */
  lemma FallenDoesNotReturn(e: Env, w: World, g: Guest, m: nat, ctx: Ctx)
    requires e.Valid() && AtEnd(e, GuestRun(e, w, g, m))
    ensures !GuestReturns(e, w, g, ctx)
  {
    forall n: nat
      ensures GuestRun(e, w, g, n) != Returned(ctx)
    {
      if m <= n {
        HaltedStays(e, w, g, m, n);
      } else if GuestRun(e, w, g, n).Returned? {
        HaltedStays(e, w, g, n, m);
      }
    }
  }

  /** Emitted and guest function return alike if and only if the guest never falls off the end. */
  lemma ReturnsMatchExactly(e: Env, w: World, h: Host)
    requires WellPlaced(e) && e.Count() > 0 && w.need == e.need && h.csr.Coherent()
    requires AlwaysSupported(e, w, At(e.base, h.ctx))
    ensures ReturnsMatch(e, w, h) <==> NeverFallsOff(e, w, At(e.base, h.ctx))
  {
    var g := At(e.base, h.ctx);
    if NeverFallsOff(e, w, g) {
      forall ctx
        ensures GuestReturns(e, w, g, ctx) <==> HostReturns(e, w, Running(0, h), ctx)
      {
        ReturnsExactly(e, w, h, ctx);
      }
    } else {
      var m: nat :| AtEnd(e, GuestRun(e, w, g, m));
      var ctx := GuestRun(e, w, g, m).ctx;
      FallenDoesNotReturn(e, w, g, m, ctx);
      assert GuestFallsOff(e, w, g, ctx);
      ReturnsExactly(e, w, h, ctx);
    }
  }

  // ----- a guard on the last instruction -----

  /** b, bctr, blr: what the disabled check of the translator asks of the last instruction. */
  predicate EndsRun(insn: Insn) { insn.Jump? || insn.JumpCtr? || insn == ReturnIf(Always) }

  predicate EndsInBranch(e: Env)
    requires e.Count() <= |e.code|
  {
    e.Count() > 0 && EndsRun(e.code[e.Count() - 1].insn)
  }

  /** Only the last instruction leads behind itself to the end, and b, bctr and blr do not. */
  lemma StepToEnd(e: Env, w: World, k: nat, ctx: Ctx)
    requires WellPlaced(e) && k < e.Count() && Recognised(e.code[k].insn)
    requires AtEnd(e, IsaStep(e, w, e.Addr(k), e.code[k].word, ctx))
    ensures k == e.Count() - 1 && !EndsRun(e.code[k].insn)
  {
    DecodedIsIsa(e, w, e.Addr(k), e.code[k].word, ctx);
  }

  lemma GuardKeepsInside(e: Env, w: World, g: Guest)
    requires WellPlaced(e) && EndsInBranch(e) && Proceeds(e, g)
    ensures !AtEnd(e, GuestStep(e, w, g))
  {
    if g.At? {
      var k := Index(e, g.address);
      SupportedIsRecognised(e, k, g.ctx);
      if AtEnd(e, GuestStep(e, w, g)) {
        StepToEnd(e, w, k, g.ctx);
        assert false;
      }
    }
  }

  /** A function that ends in b, bctr or blr never falls off, whatever it runs on. */
  lemma {:induction false} GuardHolds(e: Env, w: World, ctx: Ctx, m: nat)
    requires WellPlaced(e) && EndsInBranch(e) && AlwaysSupported(e, w, At(e.base, ctx))
    ensures !AtEnd(e, GuestRun(e, w, At(e.base, ctx), m))
  {
    if m > 0 {
      GuardHolds(e, w, ctx, m - 1);
      GuardKeepsInside(e, w, GuestRun(e, w, At(e.base, ctx), m - 1));
    }
  }

  /** With the guard, emitted and guest function return alike. */
  lemma GuardedReturnsMatch(e: Env, w: World, h: Host)
    requires WellPlaced(e) && EndsInBranch(e) && w.need == e.need && h.csr.Coherent()
    requires AlwaysSupported(e, w, At(e.base, h.ctx))
    ensures ReturnsMatch(e, w, h)
  {
    forall m: nat
      ensures !AtEnd(e, GuestRun(e, w, At(e.base, h.ctx), m))
    {
      GuardHolds(e, w, h.ctx, m);
    }
    ReturnsMatchExactly(e, w, h);
  }

  // ----- the guard asks no more than it must -----

  /** A condition register in which bit (field, name) is not `want`. */
  function Refuting(want: bool): CrBits { seq(32, _ => !want) }

  /** A state in which a test fails; `ctr` is the count in front of a decrement. */
  function FailingCtx(test: Test): Ctx {
    match test
    case Bit(_, _, want) => Ctx([], [], [], map[], 1, 0, Refuting(want))
    case Count(zero) => Ctx([], [], [], map[], if zero then 2 else 1, 0, Refuting(true))
    case CountAndBit(zero, _, _, _) => Ctx([], [], [], map[], if zero then 2 else 1, 0, Refuting(true))
    case Always => Ctx([], [], [], map[], 1, 0, Refuting(true))
  }

  lemma TestFails(test: Test)
    requires test != Always && (test.Bit? ==> test.field < 8)
    ensures var counted := TestCounted(test, FailingCtx(test)); !test.Holds(counted.ctr, counted.cr)
  {
    assert Decremented(1) == 0 && Decremented(2) == 1;
  }

  /** Tests of decoded words name existing bits. */
  lemma DecodedTest(e: Env, a: nat, w: Word)
    ensures var insn := Decode(e, a, w);
            insn.JumpIf? || insn.ReturnIf? || insn.JumpCtrIf? ==>
              (insn.test.Bit? ==> insn.test.field < 8) && (!insn.ReturnIf? ==> insn.test != Always)
  {
  }

  /** In state ctx the last instruction leads behind itself. */
  ghost predicate LastFalls(e: Env, w: World, ctx: Ctx)
    requires e.Valid() && e.Count() > 0
  {
    AtEnd(e, IsaStep(e, w, e.Addr(e.Count() - 1), e.code[e.Count() - 1].word, ctx))
  }

  /** The last instruction can lead behind itself, in some state, if and only if it is not b, bctr or blr. */
  lemma GuardIsExact(e: Env, w: World)
    requires WellPlaced(e) && e.Count() > 0 && Recognised(e.code[e.Count() - 1].insn)
    ensures EndsInBranch(e) <==> forall ctx :: !LastFalls(e, w, ctx)
  {
    var k := e.Count() - 1;
    var a, f := e.Addr(k), e.code[k];
    if EndsInBranch(e) {
      forall ctx
        ensures !LastFalls(e, w, ctx)
      {
        if LastFalls(e, w, ctx) {
          StepToEnd(e, w, k, ctx);
          assert false;
        }
      }
    } else {
      var test := if f.insn.JumpIf? || f.insn.ReturnIf? || f.insn.JumpCtrIf? then f.insn.test else Always;
      var ctx := FailingCtx(test);
      DecodedTest(e, a, f.word);
      if test != Always {
        TestFails(test);
      }
      DecodedIsIsa(e, w, a, f.word, ctx);
      assert LastFalls(e, w, ctx);
    }
  }

  // ----- a function that falls off -----

  const NOP: Word := 0x6000_0000

  /** One `nop` at 0x1000, and other code behind it. */
  const NOP_FUNCTION: Env :=
    Env(0x1000, 4, 0x2000, [Fetched(NOP, Plain)], {}, map[], map[], true, 0, 0,
        (_: Word) => true, (_: Word) => true, (_: Word) => AnyMode)

  lemma NopFunction()
    ensures WellPlaced(NOP_FUNCTION) && NOP_FUNCTION.Count() == 1
  {
    assert Op(NOP) == 0x18;
    assert Decode(NOP_FUNCTION, 0x1000, NOP) == Plain;
  }

  lemma {:induction false} NopFalls(w: World, ctx: Ctx, m: nat)
    ensures NOP_FUNCTION.Valid()
    ensures GuestRun(NOP_FUNCTION, w, At(0x1000, ctx), m)
         == if m == 0 then At(0x1000, ctx) else At(0x1004, w.effect(NOP, ctx, ModeBits(w, NOP)))
  {
    NopFunction();
    if m > 0 {
      NopFalls(w, ctx, m - 1);
      assert Op(NOP) == 0x18;
    }
  }

  /** The emitted function returns behind the `nop`; the guest function never returns. */
  lemma NopFallsOff(w: World, h: Host, ctx: Ctx)
    requires w.need == NOP_FUNCTION.need && h.csr.Coherent()
    ensures NOP_FUNCTION.Valid()
    ensures HostReturns(NOP_FUNCTION, w, Running(0, h), w.effect(NOP, h.ctx, None))
    ensures !GuestReturns(NOP_FUNCTION, w, At(0x1000, h.ctx), ctx)
  {
    var e, g := NOP_FUNCTION, At(0x1000, h.ctx);
    var after := w.effect(NOP, h.ctx, None);
    NopFunction();
    forall i: nat
      ensures Proceeds(e, GuestRun(e, w, g, i)) || AtEnd(e, GuestRun(e, w, g, i))
    {
      NopFalls(w, h.ctx, i);
    }
    NopFalls(w, h.ctx, 1);
    assert GuestFallsOff(e, w, g, after);
    ReturnsExactly(e, w, h, after);
    FallenDoesNotReturn(e, w, g, 1, ctx);
  }
}
