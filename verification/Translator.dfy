/**
 `Recompiler::Recompile(const Function&)`: the label scan, the emission loop and the cases of the
 per-instruction emitter that shape control flow or the floating-point mode. Emitted C++ is a list
 of statements.
 */
module Translator {
  import opened Wrappers
  import opened PpcWord
  import opened BranchDecoding

  type CrBits = s: seq<bool> | |s| == 32 witness seq(32, _ => false)

  /** Guest register state and memory; the emitted code keeps it in `ctx` and behind `base`. */
  datatype Ctx = Ctx(
    gpr: seq<nat>, fpr: seq<nat>, vr: seq<seq<Byte>>, memory: map<nat, Byte>,
    ctr: nat, lr: nat, cr: CrBits)
  {
    function Gpr(i: nat): nat { if i < |gpr| then gpr[i] else 0 }
  }

  /** The mode that an emitter case asks for with `printSetFlushMode`. */
  datatype Need = AnyMode | Scalar | Vector

  datatype Table = Table(index: nat, labels: seq<nat>)

  /** Where the code of a mid-asm hook jumps to, zero if nowhere. */
  datatype Hook = Hook(jump: nat, jumpOnTrue: nat, jumpOnFalse: nat)

  /** A word and what the disassembler makes of it. */
  datatype Fetched = Fetched(word: Word, insn: Insn)

  /** One function to translate, its surroundings in the image, and the configuration. */
  datatype Env = Env(
    base: nat, size: nat, sectionEnd: nat,
    code: seq<Fetched>,                  // from `base` on
    symbols: set<nat>,                   // addresses at which a function symbol starts
    tables: map<nat, Table>,
    hooks: map<nat, Hook>,
    skipLr: bool, longJmp: nat, setJmp: nat,
    decodes: Word -> bool,               // the disassembler finds an opcode
    handled: Word -> bool,               // a non-branch opcode that has an emitter case
    need: Word -> Need)
  {
    /** The end of the function, cut at the end of its section. */
    function End(): nat { if base + size > sectionEnd then sectionEnd else base + size }

    function Count(): nat { if End() <= base then 0 else (End() - base + 3) / 4 }

    ghost predicate Valid() {
      && base % 4 == 0
      && size < 0x8000_0000
      && base + size <= 0x1_0000_0000
      && Count() <= |code|
    }

    function Addr(k: nat): nat { base + 4 * k }

    ghost predicate Disassembled() {
      forall k :: 0 <= k < |code| ==> code[k].insn == Decode(this, Addr(k), code[k].word)
    }

    /** The range test of the emitter; it uses the untruncated size. */
    predicate InRange(a: int) { base <= a < base + size }
  }

  // ----- decoded instructions -----

  datatype Insn =
    | Jump(target: nat)
    | Call(target: nat)
    | JumpIf(test: Test, target: nat)
    | ReturnIf(test: Test)
    | JumpCtr
    | CallCtr
    | JumpCtrIf(test: Test)
    | Trap                       // blrl
    | Plain                      // any other instruction with an emitter case
    | Unhandled                  // an opcode without an emitter case
    | Undecodable

  /** A branch operand as the disassembler stores it in a `uint32_t`. */
  function Operand(a: nat, w: Word, bitm: bv32): nat { RelativeOperand(a, SignedOperand(w, bitm)) }

  predicate NamesNoOverflow(t: Test) { t.Bit? ==> t.name != So }

  function DecodeBc(a: nat, w: Word): Insn {
    if Link(w) || Absolute(w) then Unhandled
    else
      match MnemonicTest(Bo(w), BiOf(w))
      case Some(t) => if NamesNoOverflow(t) then JumpIf(t, Operand(a, w, BD_MASK)) else Unhandled
      case None => Unhandled
  }

  /** BB of a branch to LR or CTR; the extended mnemonics need it zero. */
  function Bb(w: Word): bv32 { (w >> 11) & 0x1F }

  predicate Unconditional(w: Word) { Bo(w) == 0x14 && BiOf(w) == 0 }

  function DecodeBclr(w: Word): Insn {
    if Bb(w) != 0 then Unhandled
    else if Link(w) then (if Unconditional(w) then Trap else Unhandled)
    else if Unconditional(w) then ReturnIf(Always)
    else
      match MnemonicTest(Bo(w), BiOf(w))
      case Some(t) => if NamesNoOverflow(t) && t != Count(false) then ReturnIf(t) else Unhandled
      case None => Unhandled
  }

  function DecodeBcctr(w: Word): Insn {
    if Bb(w) != 0 then Unhandled
    else if Link(w) then (if Unconditional(w) then CallCtr else Unhandled)
    else if Unconditional(w) then JumpCtr
    else
      match MnemonicTest(Bo(w), BiOf(w))
      case Some(t) => if t.Bit? && t.name == Eq && !t.want then JumpCtrIf(t) else Unhandled
      case None => Unhandled
  }

  function Decode(e: Env, a: nat, w: Word): Insn {
    if Op(w) == OP_BC then DecodeBc(a, w)
    else if Op(w) == OP_B then
      if Absolute(w) then Unhandled
      else if Link(w) then Call(Operand(a, w, LI_MASK))
      else Jump(Operand(a, w, LI_MASK))
    else if Op(w) == OP_CTR && Xop(w) == XOP_BCLR then DecodeBclr(w)
    else if Op(w) == OP_CTR && Xop(w) == XOP_BCCTR then DecodeBcctr(w)
    else if !e.decodes(w) then Undecodable
    else if e.handled(w) then Plain
    else Unhandled
  }

  // ----- emitted statements -----

  datatype Callee = Function(address: nat) | Missing(address: nat) | SetJmp | LongJmp

  datatype Then = GotoThen(address: int) | ReturnThen | CallThen(callee: Callee) | CallCtrThen

  datatype Case = GotoCase(address: int) | ErrorCase

  datatype Stmt =
    | Label(address: int)
    | SetFlush(enable: bool, unconditional: bool)
    | Do(word: Word)
    | SetLr(lr: nat)
    | Invoke(callee: Callee)
    | InvokeCtr
    | DecrementCtr
    | Goto(address: int)
    | Return
    | If(test: Test, body: Then)
    | Switch(index: nat, cases: seq<Case>)
    | DebugTrap

  datatype CsrState = Unknown | Fpu | Vmx

  /** What the emission loop carries from one instruction to the next. */
  datatype Carry = Carry(csr: CsrState, table: Option<Table>)

  /** `printFunctionCall`. */
  function CalleeOf(e: Env, a: nat): Callee {
    if a == e.longJmp then LongJmp
    else if a == e.setJmp then SetJmp
    else if a in e.symbols then Function(a)
    else Missing(a)
  }

  /** `printSetFlushMode`. */
  function FlushStmts(csr: CsrState, newState: CsrState): seq<Stmt> {
    if csr != newState then [SetFlush(newState == Vmx, csr != Unknown)] else []
  }

  function ModeFor(need: Need): CsrState { if need == Vector then Vmx else Fpu }

  function SwitchCase(e: Env, target: nat): Case {
    if e.InRange(target) then GotoCase(target) else ErrorCase
  }

  function CasesOf(e: Env, table: Table): seq<Case> {
    seq(|table.labels|, i requires 0 <= i < |table.labels| => SwitchCase(e, table.labels[i]))
  }

  function LrStmts(e: Env, a: nat): seq<Stmt> {
    if e.skipLr then [] else [SetLr(a + 4)]
  }

  /** The statements of the instruction f at address a. */
  function InsnStmts(e: Env, a: nat, f: Fetched, c: Carry): seq<Stmt> {
    StmtsFor(e, a, f.word, f.insn, c)
  }

  function AfterInsn(e: Env, f: Fetched, c: Carry): Carry {
    CarryAfter(e, f.word, f.insn, c)
  }

  /** The statements of the instruction `insn`, which w encodes at address a. */
  function StmtsFor(e: Env, a: nat, w: Word, insn: Insn, c: Carry): seq<Stmt> {
    match insn
    case Jump(t) => if e.InRange(t) then [Goto(t)] else [Invoke(CalleeOf(e, t)), Return]
    case Call(t) => LrStmts(e, a) + [Invoke(CalleeOf(e, t))]
    case JumpIf(test, t) =>
      if test.Decrements() then [DecrementCtr, If(test, GotoThen(t))]
      else if e.InRange(t) then [If(test, GotoThen(t))]
      else [If(test, CallThen(CalleeOf(e, t)))]
    case ReturnIf(test) =>
      if test == Always then [Return]
      else if test.Decrements() then [DecrementCtr, If(test, ReturnThen)]
      else [If(test, ReturnThen)]
    case JumpCtr =>
      (match c.table
       case Some(t) => [Switch(t.index, CasesOf(e, t))]
       case None => [InvokeCtr, Return])
    case CallCtr => LrStmts(e, a) + [InvokeCtr]
    case JumpCtrIf(test) => [If(test, CallCtrThen)]
    case Trap => [DebugTrap]
    case Plain => if e.need(w) == AnyMode then [Do(w)] else FlushStmts(c.csr, ModeFor(e.need(w))) + [Do(w)]
    case Unhandled => []
    case Undecodable => []
  }

  function CarryAfter(e: Env, w: Word, insn: Insn, c: Carry): Carry {
    match insn
    case Call(_) => c.(csr := Unknown)
    case CallCtr => c.(csr := Unknown)
    case JumpCtr => c.(table := None)
    case Plain => if e.need(w) == AnyMode then c else c.(csr := ModeFor(e.need(w)))
    case _ => c
  }

  /** The switch table that an instruction at address a sees: a pending one stays until a bctr takes it. */
  function PendingTable(e: Env, a: nat, c: Carry): Carry {
    if c.table.None? && a in e.tables then c.(table := Some(e.tables[a])) else c
  }

  // ----- the label scan -----

  function HookLabels(h: Hook): set<int> { {h.jump, h.jumpOnTrue, h.jumpOnFalse} - {0} }

  /** The target of an unlinked branch at address a, with the displacements of the raw macros. */
  function BranchLabels(a: nat, link: bool, op: bv32, li: int, bd: int): set<int> {
    if link then {}
    else if op == OP_B then {WrapAddress(a + li)}
    else if op == OP_BC then {WrapAddress(a + bd)}
    else {}
  }

  /** The labels of the table and the hook at address a. */
  function ConfiguredLabels(e: Env, a: nat): set<int> {
    (if a in e.tables then set l | l in e.tables[a].labels else {})
    + (if a in e.hooks then HookLabels(e.hooks[a]) else {})
  }

  /** The labels that the word at index k asks for, and its table and hook. */
  function WordLabels(e: Env, k: nat): set<int>
    requires k < |e.code|
  {
    var w, a := e.code[k].word, e.Addr(k);
    BranchLabels(a, Link(w), Op(w), PpcBi(w), PpcBd(w)) + ConfiguredLabels(e, a)
  }

  function LabelsUpTo(e: Env, k: nat): set<int>
    requires k <= |e.code|
  {
    if k == 0 then {} else LabelsUpTo(e, k - 1) + WordLabels(e, k - 1)
  }

  lemma ScanStep(e: Env, k: nat)
    requires k < |e.code|
    ensures LabelsUpTo(e, k + 1) == LabelsUpTo(e, k) + WordLabels(e, k)
  {
  }

  method ScanLabels(e: Env) returns (labels: set<int>)
    requires e.Valid()
    ensures labels == LabelsUpTo(e, e.Count())
  {
    labels := {};
    var addr := e.base;
    var k := 0;
    while addr < e.End()
      invariant addr == e.Addr(k) && k <= e.Count()
      invariant labels == LabelsUpTo(e, k)
    {
      ScanStep(e, k);
      var found := ScanWord(e, k, addr);
      labels := labels + found;
      addr := addr + 4;
      k := k + 1;
    }
  }

  /** The body of the scan. */
  method ScanWord(e: Env, k: nat, addr: nat) returns (found: set<int>)
    requires k < |e.code| && addr == e.Addr(k)
    ensures found == WordLabels(e, k)
  {
    found := {};
    var instruction := e.code[k].word;
    if !Link(instruction) {
      if Op(instruction) == OP_B {
        found := {WrapAddress(addr + PpcBi(instruction))};
      } else if Op(instruction) == OP_BC {
        found := {WrapAddress(addr + PpcBd(instruction))};
      }
    }
    var configured := LabelsOfConfiguration(e, addr);
    found := found + configured;
  }

  method LabelsOfConfiguration(e: Env, addr: nat) returns (found: set<int>)
    ensures found == ConfiguredLabels(e, addr)
  {
    found := {};
    if addr in e.tables {
      var tableLabels := e.tables[addr].labels;
      found := found + set l | l in tableLabels;
    }
    if addr in e.hooks {
      var asked := LabelsOfHook(e.hooks[addr]);
      found := found + asked;
    }
  }

  method LabelsOfHook(hook: Hook) returns (found: set<int>)
    ensures found == HookLabels(hook)
  {
    found := {};
    if hook.jump != 0 {
      found := found + {hook.jump};
    }
    if hook.jumpOnTrue != 0 {
      found := found + {hook.jumpOnTrue};
    }
    if hook.jumpOnFalse != 0 {
      found := found + {hook.jumpOnFalse};
    }
  }

  // ----- the emission loop -----

  datatype Output = Output(stmts: seq<Stmt>, carry: Carry, complete: bool)

  const EMPTY: Output := Output([], Carry(Unknown, None), true)

  function LabelStmts(labels: set<int>, a: nat): seq<Stmt> {
    if a as int in labels then [Label(a)] else []
  }

  /** The carry after the label and the table lookup, just before the instruction at address a. */
  function AtInsn(e: Env, labels: set<int>, a: nat, c: Carry): Carry {
    PendingTable(e, a, if a as int in labels then c.(csr := Unknown) else c)
  }

  /** The output after one more instruction, f at address a. */
  function EmitNext(e: Env, labels: set<int>, a: nat, f: Fetched, o: Output): Output {
    var c := AtInsn(e, labels, a, o.carry);
    Output(o.stmts + LabelStmts(labels, a) + InsnStmts(e, a, f, c),
           AfterInsn(e, f, c),
           o.complete && f.insn != Unhandled)
  }

  /** The output after the first k instructions. */
  function EmitUpTo(e: Env, labels: set<int>, k: nat): Output
    requires k <= |e.code|
  {
    if k == 0 then EMPTY
    else EmitNext(e, labels, e.Addr(k - 1), e.code[k - 1], EmitUpTo(e, labels, k - 1))
  }

  /** The statements of the whole function, with the labels of its own scan. */
  function Emitted(e: Env): Output
    requires e.Count() <= |e.code|
  {
    EmitUpTo(e, LabelsUpTo(e, e.Count()), e.Count())
  }

  /** The per-instruction emitter: appends statements, updates the mode and the pending table. */
  method RecompileInsn(e: Env, a: nat, w: Word, insn: Insn, csrState: CsrState, switchTable: Option<Table>)
    returns (out: seq<Stmt>, newCsr: CsrState, newTable: Option<Table>, recognised: bool)
    ensures out == StmtsFor(e, a, w, insn, Carry(csrState, switchTable))
    ensures Carry(newCsr, newTable) == CarryAfter(e, w, insn, Carry(csrState, switchTable))
    ensures recognised <==> insn != Unhandled
  {
    out, newCsr, newTable, recognised := [], csrState, switchTable, true;
    match insn {
      case Jump(t) =>
        if e.InRange(t) {
          out := [Goto(t)];
        } else {
          out := [Invoke(CalleeOf(e, t)), Return];
        }
      case Call(t) =>
        if !e.skipLr {
          out := [SetLr(a + 4)];
        }
        out := out + [Invoke(CalleeOf(e, t))];
        newCsr := Unknown;
      case JumpIf(test, t) =>
        if test.Decrements() {
          out := [DecrementCtr, If(test, GotoThen(t))];
        } else if e.InRange(t) {
          out := [If(test, GotoThen(t))];
        } else {
          out := [If(test, CallThen(CalleeOf(e, t)))];
        }
      case ReturnIf(test) =>
        if test == Always {
          out := [Return];
        } else if test.Decrements() {
          out := [DecrementCtr, If(test, ReturnThen)];
        } else {
          out := [If(test, ReturnThen)];
        }
      case JumpCtr =>
        if switchTable != None {
          var cases := SwitchCases(e, switchTable.value);
          out := [Switch(switchTable.value.index, cases)];
          newTable := None;
        } else {
          out := [InvokeCtr, Return];
        }
      case CallCtr =>
        if !e.skipLr {
          out := [SetLr(a + 4)];
        }
        out := out + [InvokeCtr];
        newCsr := Unknown;
      case JumpCtrIf(test) =>
        out := [If(test, CallCtrThen)];
      case Trap =>
        out := [DebugTrap];
      case Plain =>
        if e.need(w) != AnyMode {
          var newState := ModeFor(e.need(w));
          if csrState != newState {
            out := [SetFlush(newState == Vmx, csrState != Unknown)];
            newCsr := newState;
          }
        }
        out := out + [Do(w)];
      case Unhandled =>
        recognised := false;
      case Undecodable =>
    }
  }

  /** One `case` per label of the switch table. */
  method SwitchCases(e: Env, table: Table) returns (cases: seq<Case>)
    ensures cases == CasesOf(e, table)
  {
    cases := [];
    for i := 0 to |table.labels|
      invariant |cases| == i
      invariant forall j :: 0 <= j < i ==> cases[j] == SwitchCase(e, table.labels[j])
    {
      var target := table.labels[i];
      if target < e.base || target >= e.base + e.size {
        cases := cases + [ErrorCase];
      } else {
        cases := cases + [GotoCase(target)];
      }
    }
  }

  /** The label of an address and its table, in front of its instruction. */
  method EmitFront(e: Env, labels: set<int>, base: nat, out0: seq<Stmt>, csr0: CsrState, table0: Option<Table>)
    returns (out: seq<Stmt>, csrState: CsrState, switchTable: Option<Table>)
    ensures out == out0 + LabelStmts(labels, base)
    ensures Carry(csrState, switchTable) == AtInsn(e, labels, base, Carry(csr0, table0))
  {
    out, csrState, switchTable := out0, csr0, table0;
    if base as int in labels {
      out := out + [Label(base)];
      csrState := Unknown;
    }
    if switchTable == None && base in e.tables {
      switchTable := Some(e.tables[base]);
    }
  }

  lemma EmitNextIs(e: Env, labels: set<int>, a: nat, f: Fetched, o: Output, c: Carry, text: seq<Stmt>)
    requires c == AtInsn(e, labels, a, o.carry) && text == StmtsFor(e, a, f.word, f.insn, c)
    ensures EmitNext(e, labels, a, f, o)
         == Output(o.stmts + LabelStmts(labels, a) + text, CarryAfter(e, f.word, f.insn, c), o.complete && f.insn != Unhandled)
  {
  }

  /** The body of the emission loop. */
  method EmitOne(e: Env, labels: set<int>, base: nat, f: Fetched, out0: seq<Stmt>,
                 csr0: CsrState, table0: Option<Table>, complete0: bool)
    returns (out: seq<Stmt>, csrState: CsrState, switchTable: Option<Table>, complete: bool)
    requires f.insn == Decode(e, base, f.word)
    ensures Output(out, Carry(csrState, switchTable), complete)
         == EmitNext(e, labels, base, f, Output(out0, Carry(csr0, table0), complete0))
  {
    out, csrState, switchTable := EmitFront(e, labels, base, out0, csr0, table0);
    ghost var c := Carry(csrState, switchTable);
    complete := complete0;
    var insn := Decode(e, base, f.word);
    var text, recognised;
    text, csrState, switchTable, recognised := RecompileInsn(e, base, f.word, insn, csrState, switchTable);
    EmitNextIs(e, labels, base, f, Output(out0, Carry(csr0, table0), complete0), c, text);
    out := out + text;
    if !recognised {
      complete := false;
    }
  }

  lemma EmitStep(e: Env, labels: set<int>, k: nat, next: nat, o: Output)
    requires next == k + 1 <= |e.code| && o == EmitUpTo(e, labels, k)
    ensures EmitUpTo(e, labels, next) == EmitNext(e, labels, e.Addr(k), e.code[k], o)
  {
  }

  /** One turn of the emission loop. */
  method EmitAt(e: Env, labels: set<int>, k: nat, base: nat, out0: seq<Stmt>,
                csr0: CsrState, table0: Option<Table>, complete0: bool)
    returns (out: seq<Stmt>, csrState: CsrState, switchTable: Option<Table>, complete: bool)
    requires e.Valid() && e.Disassembled() && k < e.Count() && base == e.Addr(k)
    requires Output(out0, Carry(csr0, table0), complete0) == EmitUpTo(e, labels, k)
    ensures Output(out, Carry(csrState, switchTable), complete) == EmitUpTo(e, labels, k + 1)
  {
    EmitStep(e, labels, k, k + 1, Output(out0, Carry(csr0, table0), complete0));
    out, csrState, switchTable, complete := EmitOne(e, labels, base, e.code[k], out0, csr0, table0, complete0);
  }

  lemma EmitEnds(e: Env, labels: set<int>, k: nat, o: Output)
    requires e.Valid() && k == e.Count() && labels == LabelsUpTo(e, k) && o == EmitUpTo(e, labels, k)
    ensures o == Emitted(e)
  {
  }

  lemma CountIsReached(e: Env, k: nat)
    requires e.Valid() && k <= e.Count() && e.Addr(k) >= e.End()
    ensures k == e.Count()
  {
  }

  method Recompile(e: Env) returns (out: seq<Stmt>, allRecompiled: bool)
    requires e.Valid() && e.Disassembled()
    ensures out == Emitted(e).stmts
    ensures allRecompiled == Emitted(e).complete
  {
    var labels := ScanLabels(e);
    out := [];
    allRecompiled := true;
    var csrState := Unknown;
    var switchTable: Option<Table> := None;
    var base := e.base;
    var k := 0;
    while base < e.End()
      invariant base == e.Addr(k) && k <= e.Count()
      invariant Output(out, Carry(csrState, switchTable), allRecompiled) == EmitUpTo(e, labels, k)
    {
      out, csrState, switchTable, allRecompiled :=
        EmitAt(e, labels, k, base, out, csrState, switchTable, allRecompiled);
      base := base + 4;
      k := k + 1;
    }
    CountIsReached(e, k);
    EmitEnds(e, labels, k, Output(out, Carry(csrState, switchTable), allRecompiled));
  }
}
