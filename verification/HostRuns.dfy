/**
 What emitted statements do when the host runs them, and the soundness of leaving out mode switches:
 on every run, every statement that asked for a floating-point mode executes in it.
 */
module HostRuns {
  import opened Wrappers
  import opened PpcWord
  import opened BranchDecoding
  import opened Translator
  import opened Fpscr

  /**
   The code around the function. `effect` is what an instruction other than a branch does to the
   context, given the host's flush bits if its case asked for a mode; `rounding` is the mode that it
   makes the host round in, if it sets one. `call` is what a callee does to the context and `leaves`
   the control register it leaves behind, of which nothing is known.
   */
  datatype World = World(
    arch: Arch,
    effect: (Word, Ctx, Option<bv32>) -> Ctx,
    rounding: (Word, Ctx) -> Option<bv2>,
    call: (nat, Ctx) -> Ctx,
    leaves: (nat, Ctx, bv32) -> bv32,
    need: Word -> Need)

  datatype Host = Host(ctx: Ctx, csr: Csr)

  datatype Run = Running(pc: nat, host: Host) | Done(host: Host) | Stuck

  ghost predicate IsFirstLabel(stmts: seq<Stmt>, t: int, i: nat) {
    i < |stmts| && stmts[i] == Label(t) && forall j :: 0 <= j < i ==> stmts[j] != Label(t)
  }

  /** A jump goes on behind its label. */
  ghost function JumpTo(stmts: seq<Stmt>, t: int, h: Host): Run {
    if exists i: nat :: IsFirstLabel(stmts, t, i) then
      var i: nat :| IsFirstLabel(stmts, t, i);
      Running(i + 1, h)
    else Stuck
  }

  /** Callees keep the cached register equal to the host's. */
  function Called(w: World, a: nat, h: Host): Host {
    var csr := w.leaves(a, h.ctx, h.csr.host);
    Host(w.call(a, h.ctx), Csr(csr, csr))
  }

  /** A callee without a symbol is emitted as a comment. */
  function CallOf(w: World, callee: Callee, h: Host): Option<Host> {
    match callee
    case Function(a) => Some(Called(w, a, h))
    case Missing(_) => Some(h)
    case SetJmp => None
    case LongJmp => None
  }

  function Performed(w: World, word: Word, h: Host): Host {
    var flush := if w.need(word) == AnyMode then None else Some(FlushBits(w.arch, h.csr));
    var csr :=
      match w.rounding(word, h.ctx)
      case Some(mode) => RoundingStored(w.arch, h.csr, mode)
      case None => h.csr;
    Host(w.effect(word, h.ctx, flush), csr)
  }

  ghost function ThenRun(w: World, stmts: seq<Stmt>, body: Then, h: Host): Run {
    match body
    case GotoThen(t) => JumpTo(stmts, t, h)
    case ReturnThen => Done(h)
    case CallThen(callee) => (match CallOf(w, callee, h) case Some(after) => Done(after) case None => Stuck)
    case CallCtrThen => Done(Called(w, LowWord(h.ctx.ctr), h))
  }

  ghost function SwitchRun(stmts: seq<Stmt>, index: nat, cases: seq<Case>, h: Host): Run {
    if h.ctx.Gpr(index) < |cases| then
      match cases[h.ctx.Gpr(index)]
      case GotoCase(t) => JumpTo(stmts, t, h)
      case ErrorCase => Done(h)
    else Stuck
  }

  /** The statement at pc runs. */
  ghost function Exec(w: World, stmts: seq<Stmt>, pc: nat, h: Host): Run
    requires pc < |stmts|
  {
    match stmts[pc]
    case Label(_) => Running(pc + 1, h)
    case SetFlush(enable, unconditional) => Running(pc + 1, h.(csr := SwitchFlush(w.arch, h.csr, enable, unconditional)))
    case Do(word) => Running(pc + 1, Performed(w, word, h))
    case SetLr(a) => Running(pc + 1, h.(ctx := h.ctx.(lr := a)))
    case Invoke(callee) => (match CallOf(w, callee, h) case Some(after) => Running(pc + 1, after) case None => Stuck)
    case InvokeCtr => Running(pc + 1, Called(w, LowWord(h.ctx.ctr), h))
    case DecrementCtr => Running(pc + 1, h.(ctx := h.ctx.(ctr := Decremented(h.ctx.ctr))))
    case Goto(t) => JumpTo(stmts, t, h)
    case Return => Done(h)
    case If(test, body) => if test.Holds(h.ctx.ctr, h.ctx.cr) then ThenRun(w, stmts, body, h) else Running(pc + 1, h)
    case Switch(index, cases) => SwitchRun(stmts, index, cases, h)
    case DebugTrap => Stuck
  }

  /** One step; the closing brace of the function returns. */
  ghost function HostStep(w: World, stmts: seq<Stmt>, r: Run): Run {
    match r
    case Running(pc, h) => if pc < |stmts| then Exec(w, stmts, pc, h) else Done(h)
    case _ => r
  }

  ghost function HostRun(w: World, stmts: seq<Stmt>, r: Run, n: nat): Run {
    if n == 0 then r else HostStep(w, stmts, HostRun(w, stmts, r, n - 1))
  }

  lemma HostRunUnfolds(w: World, stmts: seq<Stmt>, r: Run, n: nat, next: nat)
    requires next == n + 1
    ensures HostRun(w, stmts, r, next) == HostStep(w, stmts, HostRun(w, stmts, r, n))
  {
  }

  lemma {:induction false} HostRunJoin(w: World, stmts: seq<Stmt>, r: Run, m: nat, n: nat, total: nat)
    requires total == m + n
    ensures HostRun(w, stmts, r, total) == HostRun(w, stmts, HostRun(w, stmts, r, m), n)
    decreases n
  {
    if n > 0 {
      var k, before := n - 1, total - 1;
      HostRunJoin(w, stmts, r, m, k, before);
      HostRunUnfolds(w, stmts, r, before, total);
      HostRunUnfolds(w, stmts, HostRun(w, stmts, r, m), k, n);
    }
  }

  // ----- what the text says about the mode -----

  /** The mode in front of a statement, as far as the text shows; no run falls into a dead one. */
  datatype Mode = Dead | Live(csr: CsrState)

  function Transfer(s: Stmt, m: Mode): Mode {
    if s.Label? then Live(Unknown)
    else if m == Dead then Dead
    else
      match s
      case SetFlush(enable, _) => Live(if enable then Vmx else Fpu)
      case Invoke(_) => Live(Unknown)
      case InvokeCtr => Live(Unknown)
      case Goto(_) => Dead
      case Return => Dead
      case Switch(_, _) => Dead
      case DebugTrap => Dead
      case _ => m
  }

  function ModeAfter(stmts: seq<Stmt>, m: Mode): Mode {
    if stmts == [] then m else Transfer(stmts[|stmts| - 1], ModeAfter(stmts[..|stmts| - 1], m))
  }

  function ModeAt(stmts: seq<Stmt>, pc: nat): Mode
    requires pc <= |stmts|
  {
    ModeAfter(stmts[..pc], Live(Unknown))
  }

  lemma ModeAtNext(stmts: seq<Stmt>, pc: nat)
    requires pc < |stmts|
    ensures ModeAt(stmts, pc + 1) == Transfer(stmts[pc], ModeAt(stmts, pc))
  {
    assert stmts[..pc + 1][..pc] == stmts[..pc];
  }

  lemma {:induction false} ModeAfterSum(x: seq<Stmt>, y: seq<Stmt>, m: Mode)
    ensures ModeAfter(x + y, m) == ModeAfter(y, ModeAfter(x, m))
  {
    if y == [] {
      assert x + y == x;
    } else {
      assert (x + y)[..|x + y| - 1] == x + y[..|y| - 1];
      ModeAfterSum(x, y[..|y| - 1], m);
    }
  }

  /** The host is in the mode. */
  predicate InMode(arch: Arch, m: Mode, c: Csr) {
    && c.Coherent()
    && m != Dead
    && (m.csr == Fpu ==> FlushBits(arch, c) == BitsFor(arch, false))
    && (m.csr == Vmx ==> FlushBits(arch, c) == BitsFor(arch, true))
  }

  ghost predicate RunInMode(arch: Arch, stmts: seq<Stmt>, r: Run) {
    match r
    case Running(pc, h) => pc <= |stmts| && InMode(arch, ModeAt(stmts, pc), h.csr)
    case Done(h) => h.csr.Coherent()
    case Stuck => true
  }

  lemma JumpInMode(arch: Arch, stmts: seq<Stmt>, t: int, h: Host)
    requires h.csr.Coherent()
    ensures RunInMode(arch, stmts, JumpTo(stmts, t, h))
  {
    if exists i: nat :: IsFirstLabel(stmts, t, i) {
      var i: nat :| IsFirstLabel(stmts, t, i) && JumpTo(stmts, t, h) == Running(i + 1, h);
      ModeAtNext(stmts, i);
    }
  }

  lemma PerformedInMode(w: World, word: Word, m: Mode, h: Host)
    requires InMode(w.arch, m, h.csr)
    ensures InMode(w.arch, m, Performed(w, word, h).csr)
  {
    if w.rounding(word, h.ctx).Some? {
      RoundingKeepsFlush(w.arch, h.csr, w.rounding(word, h.ctx).value);
    }
  }

  lemma FlushInMode(w: World, stmts: seq<Stmt>, pc: nat, h: Host)
    requires pc < |stmts| && InMode(w.arch, ModeAt(stmts, pc), h.csr) && stmts[pc].SetFlush?
    ensures RunInMode(w.arch, stmts, Exec(w, stmts, pc, h))
  {
    ModeAtNext(stmts, pc);
    SwitchFlushSwitches(w.arch, h.csr, stmts[pc].enable, stmts[pc].unconditional);
  }

  lemma BranchInMode(w: World, stmts: seq<Stmt>, pc: nat, h: Host)
    requires pc < |stmts| && InMode(w.arch, ModeAt(stmts, pc), h.csr)
    requires stmts[pc].If? || stmts[pc].Switch?
    ensures RunInMode(w.arch, stmts, Exec(w, stmts, pc, h))
  {
    ModeAtNext(stmts, pc);
    match stmts[pc] {
      case If(test, body) =>
        if body.GotoThen? {
          JumpInMode(w.arch, stmts, body.address, h);
        }
      case Switch(index, cases) =>
        if h.ctx.Gpr(index) < |cases| && cases[h.ctx.Gpr(index)].GotoCase? {
          JumpInMode(w.arch, stmts, cases[h.ctx.Gpr(index)].address, h);
        }
    }
  }

  /** One statement keeps the host in the mode that the text shows. */
  lemma ExecInMode(w: World, stmts: seq<Stmt>, pc: nat, h: Host)
    requires pc < |stmts| && InMode(w.arch, ModeAt(stmts, pc), h.csr)
    ensures RunInMode(w.arch, stmts, Exec(w, stmts, pc, h))
  {
    ModeAtNext(stmts, pc);
    match stmts[pc] {
      case SetFlush(_, _) =>
        FlushInMode(w, stmts, pc, h);
      case Do(word) =>
        PerformedInMode(w, word, ModeAt(stmts, pc), h);
      case Goto(t) =>
        JumpInMode(w.arch, stmts, t, h);
      case If(_, _) =>
        BranchInMode(w, stmts, pc, h);
      case Switch(_, _) =>
        BranchInMode(w, stmts, pc, h);
      case _ =>
    }
  }

  lemma {:induction false} EveryRunInMode(w: World, stmts: seq<Stmt>, r: Run, n: nat)
    requires RunInMode(w.arch, stmts, r)
    ensures RunInMode(w.arch, stmts, HostRun(w, stmts, r, n))
  {
    if n > 0 {
      EveryRunInMode(w, stmts, r, n - 1);
      var before := HostRun(w, stmts, r, n - 1);
      if before.Running? && before.pc < |stmts| {
        ExecInMode(w, stmts, before.pc, before.host);
      }
    }
  }

  // ----- the emitter's own idea of the mode -----

  /** The text shows what the emitter remembers. */
  predicate Remembers(m: Mode, csr: CsrState) { m == Dead || m == Live(csr) }

  /** A switch of the mode is to another mode, and its test is left out if the mode in front of it is known. */
  predicate SwitchIsNeeded(s: Stmt, m: Mode) {
    s.SetFlush? && m.Live? ==> m.csr != (if s.enable then Vmx else Fpu) && (s.unconditional <==> m.csr != Unknown)
  }

  /** A statement that needs a mode stands where the text shows that mode, or where nothing gets to. */
  predicate NeedIsMet(need: Word -> Need, s: Stmt, m: Mode) {
    s.Do? && need(s.word) != AnyMode ==> Remembers(m, ModeFor(need(s.word)))
  }

  /** Every need is met, and no switch is idle. */
  ghost predicate NeedsMet(need: Word -> Need, stmts: seq<Stmt>, m: Mode) {
    forall i :: 0 <= i < |stmts| ==>
      NeedIsMet(need, stmts[i], ModeAfter(stmts[..i], m)) && SwitchIsNeeded(stmts[i], ModeAfter(stmts[..i], m))
  }

  lemma NeedsMetSum(need: Word -> Need, x: seq<Stmt>, y: seq<Stmt>, m: Mode)
    requires NeedsMet(need, x, m) && NeedsMet(need, y, ModeAfter(x, m))
    ensures NeedsMet(need, x + y, m)
  {
    forall i | 0 <= i < |x + y|
      ensures var s, mode := (x + y)[i], ModeAfter((x + y)[..i], m); NeedIsMet(need, s, mode) && SwitchIsNeeded(s, mode)
    {
      if i < |x| {
        assert (x + y)[..i] == x[..i];
      } else {
        assert (x + y)[..i] == x + y[..i - |x|];
        ModeAfterSum(x, y[..i - |x|], m);
      }
    }
  }

  lemma ModeAfterOne(s: Stmt, m: Mode)
    ensures ModeAfter([s], m) == Transfer(s, m)
  {
    assert [s][..0] == [];
  }

  lemma ModeAfterTwo(s: Stmt, t: Stmt, m: Mode)
    ensures ModeAfter([s, t], m) == Transfer(t, Transfer(s, m))
  {
    assert [s, t] == [s] + [t];
    ModeAfterSum([s], [t], m);
    ModeAfterOne(s, m);
    ModeAfterOne(t, Transfer(s, m));
  }

  /** A vector or scalar instruction, switched to its mode if the emitter's is another one. */
  lemma SwitchedKeepsMode(need: Word -> Need, w: Word, csr: CsrState, m: Mode)
    requires Remembers(m, csr) && need(w) != AnyMode && csr != ModeFor(need(w))
    ensures var stmts := [SetFlush(ModeFor(need(w)) == Vmx, csr != Unknown), Do(w)];
            Remembers(ModeAfter(stmts, m), ModeFor(need(w))) && NeedsMet(need, stmts, m)
  {
    var switch := SetFlush(ModeFor(need(w)) == Vmx, csr != Unknown);
    ModeAfterTwo(switch, Do(w), m);
    ModeAfterOne(switch, m);
    assert [switch, Do(w)][..1] == [switch];
  }

  lemma BareKeepsMode(need: Word -> Need, w: Word, csr: CsrState, m: Mode)
    requires Remembers(m, csr) && (need(w) == AnyMode || csr == ModeFor(need(w)))
    ensures Remembers(ModeAfter([Do(w)], m), csr) && NeedsMet(need, [Do(w)], m)
  {
    ModeAfterOne(Do(w), m);
    assert [Do(w)][..0] == [];
  }

  lemma PlainKeepsMode(e: Env, a: nat, w: Word, c: Carry, m: Mode)
    requires Remembers(m, c.csr)
    ensures Remembers(ModeAfter(StmtsFor(e, a, w, Plain, c), m), CarryAfter(e, w, Plain, c).csr)
    ensures NeedsMet(e.need, StmtsFor(e, a, w, Plain, c), m)
  {
    if e.need(w) == AnyMode || c.csr == ModeFor(e.need(w)) {
      BareKeepsMode(e.need, w, c.csr, m);
      assert StmtsFor(e, a, w, Plain, c) == [Do(w)];
    } else {
      SwitchedKeepsMode(e.need, w, c.csr, m);
      assert StmtsFor(e, a, w, Plain, c) == [SetFlush(ModeFor(e.need(w)) == Vmx, c.csr != Unknown), Do(w)];
    }
  }

  lemma BranchHasNoNeed(e: Env, a: nat, w: Word, insn: Insn, c: Carry, m: Mode)
    requires !insn.Plain?
    ensures NeedsMet(e.need, StmtsFor(e, a, w, insn, c), m)
  {
    var stmts := StmtsFor(e, a, w, insn, c);
    assert forall i :: 0 <= i < |stmts| ==> !stmts[i].Do? && !stmts[i].SetFlush?;
  }

  lemma PairKeepsMode(s: Stmt, t: Stmt, m: Mode)
    ensures ModeAfter([s, t], m) == Transfer(t, Transfer(s, m)) && ModeAfter([s], m) == Transfer(s, m)
  {
    ModeAfterTwo(s, t, m);
    ModeAfterOne(s, m);
  }

  lemma CallKeepsMode(e: Env, a: nat, w: Word, insn: Insn, c: Carry, m: Mode)
    requires Remembers(m, c.csr) && (insn.Call? || insn.CallCtr?)
    ensures Remembers(ModeAfter(StmtsFor(e, a, w, insn, c), m), Unknown)
  {
    var call := if insn.Call? then Invoke(CalleeOf(e, insn.target)) else InvokeCtr;
    PairKeepsMode(SetLr(a + 4), call, m);
    ModeAfterOne(call, m);
    assert StmtsFor(e, a, w, insn, c) == if e.skipLr then [call] else [SetLr(a + 4), call];
  }

  lemma BranchKeepsMode(e: Env, a: nat, w: Word, insn: Insn, c: Carry, m: Mode)
    requires Remembers(m, c.csr) && !insn.Plain?
    ensures Remembers(ModeAfter(StmtsFor(e, a, w, insn, c), m), CarryAfter(e, w, insn, c).csr)
  {
    var stmts := StmtsFor(e, a, w, insn, c);
    if insn.Call? || insn.CallCtr? {
      CallKeepsMode(e, a, w, insn, c, m);
    } else if |stmts| == 2 {
      assert stmts == [stmts[0], stmts[1]];
      PairKeepsMode(stmts[0], stmts[1], m);
      assert stmts[1].Return? || (stmts[0].DecrementCtr? && stmts[1].If?);
    } else if |stmts| == 1 {
      assert stmts == [stmts[0]];
      ModeAfterOne(stmts[0], m);
    }
  }

  lemma InsnKeepsMode(e: Env, a: nat, w: Word, insn: Insn, c: Carry, m: Mode)
    requires Remembers(m, c.csr)
    ensures Remembers(ModeAfter(StmtsFor(e, a, w, insn, c), m), CarryAfter(e, w, insn, c).csr)
    ensures NeedsMet(e.need, StmtsFor(e, a, w, insn, c), m)
  {
    if insn.Plain? {
      PlainKeepsMode(e, a, w, c, m);
    } else {
      BranchKeepsMode(e, a, w, insn, c, m);
      BranchHasNoNeed(e, a, w, insn, c, m);
    }
  }

  lemma LabelKeepsMode(need: Word -> Need, labels: set<int>, a: nat, csr: CsrState, m: Mode)
    requires Remembers(m, csr)
    ensures Remembers(ModeAfter(LabelStmts(labels, a), m), if a as int in labels then Unknown else csr)
    ensures NeedsMet(need, LabelStmts(labels, a), m)
  {
    if a as int in labels {
      ModeAfterOne(Label(a), m);
    }
  }

  ghost predicate KeepsMode(need: Word -> Need, o: Output) {
    Remembers(ModeAfter(o.stmts, Live(Unknown)), o.carry.csr) && NeedsMet(need, o.stmts, Live(Unknown))
  }

  lemma EmitNextKeepsMode(e: Env, labels: set<int>, a: nat, f: Fetched, o: Output)
    requires KeepsMode(e.need, o)
    ensures KeepsMode(e.need, EmitNext(e, labels, a, f, o))
  {
    var c := AtInsn(e, labels, a, o.carry);
    var m := ModeAfter(o.stmts, Live(Unknown));
    var mark, text := LabelStmts(labels, a), InsnStmts(e, a, f, c);
    LabelKeepsMode(e.need, labels, a, o.carry.csr, m);
    InsnKeepsMode(e, a, f.word, f.insn, c, ModeAfter(mark, m));
    ModeAfterSum(o.stmts, mark, Live(Unknown));
    ModeAfterSum(o.stmts + mark, text, Live(Unknown));
    NeedsMetSum(e.need, o.stmts, mark, Live(Unknown));
    NeedsMetSum(e.need, o.stmts + mark, text, Live(Unknown));
  }

  ghost predicate KeepsModeAt(e: Env, labels: set<int>, k: nat)
    requires k <= |e.code|
  {
    KeepsMode(e.need, EmitUpTo(e, labels, k))
  }

  lemma NextKeepsMode(e: Env, labels: set<int>, k: nat, next: nat)
    requires next == k + 1 <= |e.code| && KeepsModeAt(e, labels, k)
    ensures KeepsModeAt(e, labels, next)
  {
    var o := EmitUpTo(e, labels, k);
    assert KeepsMode(e.need, o);
    EmitNextKeepsMode(e, labels, e.Addr(k), e.code[k], o);
    EmitStep(e, labels, k, next, o);
  }

  lemma NothingKeepsMode(e: Env, labels: set<int>, k: nat)
    requires k == 0
    ensures KeepsModeAt(e, labels, k)
  {
  }

  /** The emitter's `csrState` is the mode that the text shows, wherever a run can get to. */
  lemma {:induction false} EmittedKeepsMode(e: Env, labels: set<int>, k: nat)
    requires k <= |e.code|
    ensures KeepsModeAt(e, labels, k)
  {
    if k == 0 {
      NothingKeepsMode(e, labels, k);
    } else {
      var j := k - 1;
      EmittedKeepsMode(e, labels, j);
      NextKeepsMode(e, labels, j, k);
    }
  }

  /** The run is about to execute a statement that asked for a mode. */
  ghost predicate AtNeed(w: World, stmts: seq<Stmt>, r: Run) {
    r.Running? && r.pc < |stmts| && stmts[r.pc].Do? && w.need(stmts[r.pc].word) != AnyMode
  }

  /**
   Leaving out mode switches is sound. For every function, whatever callees leave in the control
   register, and after every number of steps: a statement that asked for scalar mode runs with all
   flush bits clear, and one that asked for vector mode with all of them set.
   */
  lemma FlushModeIsSound(e: Env, w: World, h: Host, n: nat)
    requires e.Count() <= |e.code| && w.need == e.need && h.csr.Coherent()
    ensures var stmts := Emitted(e).stmts;
            var r := HostRun(w, stmts, Running(0, h), n);
            AtNeed(w, stmts, r) ==>
              FlushBits(w.arch, r.host.csr) == BitsFor(w.arch, w.need(stmts[r.pc].word) == Vector)
  {
    var stmts := Emitted(e).stmts;
    var r := HostRun(w, stmts, Running(0, h), n);
    assert stmts[..0] == [];
    EveryRunInMode(w, stmts, Running(0, h), n);
    if AtNeed(w, stmts, r) {
      EmittedKeepsMode(e, LabelsUpTo(e, e.Count()), e.Count());
      assert Remembers(ModeAfter(stmts[..r.pc], Live(Unknown)), ModeFor(w.need(stmts[r.pc].word)));
    }
  }

  /**
   And no switch is emitted that the text shows to be idle: in front of each, as far as anything gets there, the
   text shows another mode, or none, and then the switch tests for itself.
   */
  lemma NoSwitchIsIdle(e: Env, i: nat)
    requires e.Count() <= |e.code| && i < |Emitted(e).stmts| && Emitted(e).stmts[i].SetFlush?
    ensures var s, m := Emitted(e).stmts[i], ModeAt(Emitted(e).stmts, i);
            && (m == Live(Fpu) ==> s == SetFlush(true, true))
            && (m == Live(Vmx) ==> s == SetFlush(false, true))
            && (m == Live(Unknown) ==> !s.unconditional)
  {
    EmittedKeepsMode(e, LabelsUpTo(e, e.Count()), e.Count());
    assert SwitchIsNeeded(Emitted(e).stmts[i], ModeAfter(Emitted(e).stmts[..i], Live(Unknown)));
  }
}
