/**
 The emitted gotos and labels fit together: every target that lies in the function was found by the
 label scan, and each label is emitted once.
 */
module LabelClosure {
  import opened Wrappers
  import opened PpcWord
  import opened Translator

  /** The labels that a statement jumps to. */
  ghost function Targets(s: Stmt): set<int> {
    match s
    case Goto(t) => {t}
    case If(_, GotoThen(t)) => {t}
    case Switch(_, cases) => set i | 0 <= i < |cases| && cases[i].GotoCase? :: cases[i].address
    case _ => {}
  }

  ghost predicate JumpsTo(stmts: seq<Stmt>, t: int) {
    exists i :: 0 <= i < |stmts| && t in Targets(stmts[i])
  }

  /** What the emitter carries just before instruction k. */
  ghost function CarryBefore(e: Env, labels: set<int>, k: nat): Carry
    requires k < |e.code|
  {
    AtInsn(e, labels, e.Addr(k), EmitUpTo(e, labels, k).carry)
  }

  /** The table that it then holds. */
  ghost function TableAt(e: Env, labels: set<int>, k: nat): Option<Table>
    requires k < |e.code|
  {
    CarryBefore(e, labels, k).table
  }

  ghost predicate InsnJumpsTo(e: Env, labels: set<int>, k: nat, t: int)
    requires k < |e.code|
  {
    JumpsTo(InsnStmts(e, e.Addr(k), e.code[k], CarryBefore(e, labels, k)), t)
  }

  /** How many labels for address t the statements hold. */
  ghost function LabelCount(stmts: seq<Stmt>, t: int): nat {
    if stmts == [] then 0
    else LabelCount(stmts[..|stmts| - 1], t) + if stmts[|stmts| - 1] == Label(t) then 1 else 0
  }

  // ----- which table a branch to CTR takes -----

  /** A branch to CTR stands at an index from i on and in front of j. */
  ghost predicate BranchBetween(e: Env, i: nat, j: nat)
    requires j <= |e.code|
  {
    exists m :: i <= m < j && e.code[m].insn.JumpCtr?
  }

  /** A table begins at index j, no branch to CTR up to k has taken it, and all earlier tables had been taken. */
  ghost predicate Open(e: Env, j: nat, k: nat)
    requires j <= k <= |e.code|
  {
    && e.Addr(j) in e.tables
    && !BranchBetween(e, j, k)
    && forall i: nat :: i < j && e.Addr(i) in e.tables ==> BranchBetween(e, i, j)
  }

  /** The pending table is an open one among those in front of `end`; if there is none, all are taken. */
  ghost predicate PendingIsOpen(e: Env, table: Option<Table>, end: nat, k: nat)
    requires k <= |e.code| && end <= k + 1
  {
    match table
    case Some(t) => exists j: nat :: j < end && Open(e, j, k) && t == e.tables[e.Addr(j)]
    case None => forall i: nat :: i < end && e.Addr(i) in e.tables ==> BranchBetween(e, i, k)
  }

  lemma BranchStays(e: Env, i: nat, k: nat)
    requires k < |e.code|
    ensures BranchBetween(e, i, k + 1) <==> BranchBetween(e, i, k) || (i <= k && e.code[k].insn.JumpCtr?)
  {
    if i <= k && e.code[k].insn.JumpCtr? {
      assert i <= k < k + 1;
    }
  }

  lemma LookupKeepsOpen(e: Env, labels: set<int>, k: nat, c: Carry)
    requires k < |e.code| && PendingIsOpen(e, c.table, k, k)
    ensures PendingIsOpen(e, AtInsn(e, labels, e.Addr(k), c).table, k + 1, k)
  {
    var a := e.Addr(k);
    if c.table.Some? {
      var j: nat :| j < k && Open(e, j, k) && c.table.value == e.tables[e.Addr(j)];
    } else if a in e.tables {
      assert Open(e, k, k);
    }
  }

  lemma InsnKeepsOpen(e: Env, k: nat, c: Carry)
    requires k < |e.code| && PendingIsOpen(e, c.table, k + 1, k)
    ensures PendingIsOpen(e, AfterInsn(e, e.code[k], c).table, k + 1, k + 1)
  {
    if e.code[k].insn.JumpCtr? {
      forall i: nat | i < k + 1 && e.Addr(i) in e.tables
        ensures BranchBetween(e, i, k + 1)
      {
        BranchStays(e, i, k);
      }
    } else if c.table.Some? {
      var j: nat :| j < k + 1 && Open(e, j, k) && c.table.value == e.tables[e.Addr(j)];
      BranchStays(e, j, k);
      assert Open(e, j, k + 1);
    } else {
      forall i: nat | i < k + 1 && e.Addr(i) in e.tables
        ensures BranchBetween(e, i, k + 1)
      {
        BranchStays(e, i, k);
      }
    }
  }

  ghost predicate OpenUpTo(e: Env, labels: set<int>, k: nat)
    requires k <= |e.code|
  {
    PendingIsOpen(e, EmitUpTo(e, labels, k).carry.table, k, k)
  }

  lemma NextIsOpen(e: Env, labels: set<int>, k: nat, next: nat)
    requires next == k + 1 <= |e.code| && OpenUpTo(e, labels, k)
    ensures OpenUpTo(e, labels, next)
  {
    var o := EmitUpTo(e, labels, k);
    var c := AtInsn(e, labels, e.Addr(k), o.carry);
    LookupKeepsOpen(e, labels, k, o.carry);
    InsnKeepsOpen(e, k, c);
    EmitStep(e, labels, k, next, o);
    assert EmitUpTo(e, labels, next).carry == AfterInsn(e, e.code[k], c);
  }

  lemma NothingIsOpen(e: Env, labels: set<int>, k: nat)
    requires k == 0
    ensures OpenUpTo(e, labels, k)
  {
  }

  lemma {:induction false} PendingTableIsOpen(e: Env, labels: set<int>, k: nat)
    requires k <= |e.code|
    ensures OpenUpTo(e, labels, k)
  {
    if k == 0 {
      NothingIsOpen(e, labels, k);
    } else {
      var j := k - 1;
      PendingTableIsOpen(e, labels, j);
      NextIsOpen(e, labels, j, k);
    }
  }

  lemma HeldTableIsOpen(e: Env, labels: set<int>, k: nat)
    requires k < |e.code|
    ensures PendingIsOpen(e, TableAt(e, labels, k), k + 1, k)
  {
    PendingTableIsOpen(e, labels, k);
    LookupKeepsOpen(e, labels, k, EmitUpTo(e, labels, k).carry);
  }

  /** Where the table that the emitter holds at instruction k begins. */
  lemma TableComesFrom(e: Env, labels: set<int>, k: nat) returns (j: nat)
    requires k < |e.code| && TableAt(e, labels, k).Some?
    ensures j <= k && Open(e, j, k) && TableAt(e, labels, k).value == e.tables[e.Addr(j)]
  {
    HeldTableIsOpen(e, labels, k);
    j :| j < k + 1 && Open(e, j, k) && TableAt(e, labels, k).value == e.tables[e.Addr(j)];
  }

  /**
   The table that the emitter holds at an instruction is the one that is open there, if one is: the first
   to begin since the last branch to CTR.
   */
  lemma TableAtInsnIsTheOpenOne(e: Env, labels: set<int>, k: nat, j: nat)
    requires j <= k < |e.code|
    ensures Open(e, j, k) ==> TableAt(e, labels, k) == Some(e.tables[e.Addr(j)])
    ensures TableAt(e, labels, k).Some? <==> exists i: nat :: i <= k && Open(e, i, k)
  {
    HeldTableIsOpen(e, labels, k);
    if TableAt(e, labels, k).Some? {
      var i := TableComesFrom(e, labels, k);
      if Open(e, j, k) {
        OpenIsUnique(e, i, j, k);
      }
    }
  }

  lemma OpenIsUnique(e: Env, i: nat, j: nat, k: nat)
    requires i <= k && j <= k <= |e.code| && Open(e, i, k) && Open(e, j, k)
    ensures i == j
  {
    if i < j {
      BranchWidens(e, i, j, k);
    } else if j < i {
      BranchWidens(e, j, i, k);
    }
  }

  lemma BranchWidens(e: Env, i: nat, j: nat, k: nat)
    requires i <= j <= k <= |e.code|
    ensures BranchBetween(e, i, j) ==> BranchBetween(e, i, k)
  {
  }

  // ----- the scan finds every target -----

  /** An unlinked branch to t, with displacements in words. */
  predicate BranchAsksFor(a: nat, link: bool, op: bv32, li: int, bd: int, t: int) {
    !link && ((op == 18 && t == (a + 4 * li) % 0x1_0000_0000_0000_0000)
              || (op == 16 && t == (a + 4 * bd) % 0x1_0000_0000_0000_0000))
  }

  /** The table at address a has the label t, or the hook there jumps to it. */
  predicate ConfigurationAsksFor(e: Env, a: nat, t: int) {
    || (a in e.tables && exists i :: 0 <= i < |e.tables[a].labels| && e.tables[a].labels[i] == t)
    || (a in e.hooks && t != 0 && (t == e.hooks[a].jump || t == e.hooks[a].jumpOnTrue || t == e.hooks[a].jumpOnFalse))
  }

  predicate AsksFor(e: Env, j: nat, t: int)
    requires j < |e.code|
  {
    var a, w := e.base + 4 * j, e.code[j].word;
    BranchAsksFor(a, w & 1 != 0, Op(w), BiWords(w), BdWords(w), t) || ConfigurationAsksFor(e, a, t)
  }

  lemma ConfigurationAsksExactly(e: Env, a: nat, t: int)
    ensures t in ConfiguredLabels(e, a) <==> ConfigurationAsksFor(e, a, t)
  {
  }

  lemma BranchAsksExactly(a: nat, link: bool, op: bv32, li: int, bd: int, liBytes: int, bdBytes: int, t: int)
    requires liBytes == 4 * li && bdBytes == 4 * bd
    ensures t in BranchLabels(a, link, op, liBytes, bdBytes) <==> BranchAsksFor(a, link, op, li, bd, t)
  {
  }

  lemma WordAsksExactly(e: Env, j: nat, t: int)
    requires j < |e.code|
    ensures t in WordLabels(e, j) <==> AsksFor(e, j, t)
  {
    var a, w := e.Addr(j), e.code[j].word;
    BiBitsValue(w);
    BdBitsValue(w);
    BranchAsksExactly(a, Link(w), Op(w), BiWords(w), BdWords(w), PpcBi(w), PpcBd(w), t);
    ConfigurationAsksExactly(e, a, t);
  }

  lemma ScannedIncludes(e: Env, k: nat, next: nat, t: int)
    requires next == k + 1 <= |e.code|
    ensures t in LabelsUpTo(e, next) <==> t in LabelsUpTo(e, k) || t in WordLabels(e, k)
  {
  }

  /** The scan collects exactly what some word asks for. */
  lemma {:induction false} ScannedExactly(e: Env, k: nat, t: int)
    requires k <= |e.code|
    ensures t in LabelsUpTo(e, k) <==> exists j: nat :: j < k && AsksFor(e, j, t)
  {
    if k > 0 {
      var j := k - 1;
      ScannedExactly(e, j, t);
      ScannedIncludes(e, j, k, t);
      WordAsksExactly(e, j, t);
    }
  }

  lemma {:induction false} ScanGrows(e: Env, j: nat, k: nat)
    requires j <= k <= |e.code|
    ensures LabelsUpTo(e, j) <= LabelsUpTo(e, k)
    decreases k
  {
    if j < k {
      ScanGrows(e, j, k - 1);
    }
  }

  /** Within the function an operand t, added in 32 bits, is what the scan adds in 64. */
  lemma TargetIsScanned(e: Env, a: nat, offset: int, t: nat)
    requires e.Valid() && e.InRange(a) && -0x200_0000 <= offset < 0x200_0000
    requires t == (a + offset) % 0x1_0000_0000
    ensures e.InRange(t) ==> t == WrapAddress(a + offset)
  {
  }

  /** A label that the statements of an instruction jump to is its target or one of its table's. */
  lemma StmtsJumpToScanned(e: Env, a: nat, w: Word, insn: Insn, c: Carry, t: int)
    requires JumpsTo(StmtsFor(e, a, w, insn, c), t)
    ensures || (insn.Jump? && t == insn.target)
            || (insn.JumpIf? && t == insn.target)
            || (insn.JumpCtr? && c.table.Some? && t >= 0 && t in c.table.value.labels)
  {
    var stmts := StmtsFor(e, a, w, insn, c);
    var i :| 0 <= i < |stmts| && t in Targets(stmts[i]);
  }

  lemma DecodedTargets(e: Env, a: nat, w: Word)
    ensures Decode(e, a, w).Jump? ==> Op(w) == OP_B && !Link(w) && Decode(e, a, w).target == Operand(a, w, LI_MASK)
    ensures Decode(e, a, w).JumpIf? ==> Op(w) == OP_BC && !Link(w) && Decode(e, a, w).target == Operand(a, w, BD_MASK)
  {
  }

  lemma LiOperandIsScanned(e: Env, a: nat, w: Word, operand: nat, offset: int)
    requires e.Valid() && e.InRange(a) && operand == Operand(a, w, LI_MASK) && offset == PpcBi(w)
    ensures e.InRange(operand) ==> operand == WrapAddress(a + offset)
  {
    OffsetsAreShort(w);
    OperandIsMacro(a, w);
    TargetIsScanned(e, a, offset, operand);
  }

  lemma BdOperandIsScanned(e: Env, a: nat, w: Word, operand: nat, offset: int)
    requires e.Valid() && e.InRange(a) && operand == Operand(a, w, BD_MASK) && offset == PpcBd(w)
    ensures e.InRange(operand) ==> operand == WrapAddress(a + offset)
  {
    OffsetsAreShort(w);
    OperandIsMacro(a, w);
    TargetIsScanned(e, a, offset, operand);
  }

  /** The operand that the disassembler extracts generically, as the macros' offset. */
  lemma OperandIsScanned(e: Env, a: nat, w: Word)
    requires e.Valid() && e.InRange(a)
    ensures e.InRange(Operand(a, w, LI_MASK)) ==> Operand(a, w, LI_MASK) == WrapAddress(a + PpcBi(w))
    ensures e.InRange(Operand(a, w, BD_MASK)) ==> Operand(a, w, BD_MASK) == WrapAddress(a + PpcBd(w))
  {
    LiOperandIsScanned(e, a, w, Operand(a, w, LI_MASK), PpcBi(w));
    BdOperandIsScanned(e, a, w, Operand(a, w, BD_MASK), PpcBd(w));
  }

  lemma OffsetsAreShort(w: Word)
    ensures -0x200_0000 <= PpcBi(w) < 0x200_0000 && -0x200_0000 <= PpcBd(w) < 0x200_0000
  {
    BiBitsValue(w);
    BdBitsValue(w);
  }

  /** The target of a branch that the disassembler reads is the one that the scan reads from the raw word. */
  lemma BranchTargetIsScanned(e: Env, k: nat)
    requires e.Valid() && e.Disassembled() && k < e.Count()
    ensures var insn := e.code[k].insn;
            (insn.Jump? || insn.JumpIf?) && e.InRange(insn.target) ==> insn.target in WordLabels(e, k)
  {
    var a, w := e.Addr(k), e.code[k].word;
    DecodedTargets(e, a, w);
    assert e.InRange(a);
    OperandIsScanned(e, a, w);
  }

  lemma TableIsScanned(e: Env, j: nat, l: nat)
    requires j < |e.code| && e.Addr(j) in e.tables && l in e.tables[e.Addr(j)].labels
    ensures l in WordLabels(e, j)
  {
    assert l in ConfiguredLabels(e, e.Addr(j));
  }

  /** So are the labels of the table that a branch to CTR takes. */
  lemma TakenTableIsScanned(e: Env, labels: set<int>, k: nat, l: nat)
    requires k < |e.code|
    requires var table := TableAt(e, labels, k); table.Some? && l in table.value.labels
    ensures l in LabelsUpTo(e, k + 1)
  {
    var j := TableComesFrom(e, labels, k);
    TableIsScanned(e, j, l);
    ScanIncludes(e, j, l);
    ScanGrows(e, j + 1, k + 1);
  }

  lemma ScanIncludes(e: Env, k: nat, t: int)
    requires k < |e.code| && (t in LabelsUpTo(e, k) || t in WordLabels(e, k))
    ensures t in LabelsUpTo(e, k + 1)
  {
  }

  /** Whatever the statements of instruction k jump to inside the function, the scan has found by then. */
  lemma InsnTargetWasScanned(e: Env, labels: set<int>, k: nat, t: int)
    requires e.Valid() && e.Disassembled() && k < e.Count() && e.InRange(t)
    requires InsnJumpsTo(e, labels, k, t)
    ensures t in LabelsUpTo(e, k + 1)
  {
    var a, f := e.Addr(k), e.code[k];
    StmtsJumpToScanned(e, a, f.word, f.insn, CarryBefore(e, labels, k), t);
    if f.insn.JumpCtr? {
      TakenTableIsScanned(e, labels, k, t);
    } else {
      BranchTargetIsScanned(e, k);
      ScanIncludes(e, k, t);
    }
  }

  lemma JumpsToSplit(x: seq<Stmt>, y: seq<Stmt>, t: int)
    requires JumpsTo(x + y, t)
    ensures JumpsTo(x, t) || JumpsTo(y, t)
  {
    var i :| 0 <= i < |x + y| && t in Targets((x + y)[i]);
    if i < |x| {
      assert t in Targets(x[i]);
    } else {
      assert t in Targets(y[i - |x|]);
    }
  }

  lemma EmitUnfolds(e: Env, labels: set<int>, k: nat)
    requires 0 < k <= |e.code|
    ensures var o := EmitUpTo(e, labels, k - 1);
            var a, f := e.Addr(k - 1), e.code[k - 1];
            EmitUpTo(e, labels, k).stmts
              == o.stmts + LabelStmts(labels, a) + InsnStmts(e, a, f, AtInsn(e, labels, a, o.carry))
  {
  }

  /** A jump of the first k statements lists is an old one or one of the last instruction. */
  lemma JumpOfLast(e: Env, labels: set<int>, k: nat, t: int)
    requires 0 < k <= |e.code|
    requires JumpsTo(EmitUpTo(e, labels, k).stmts, t)
    ensures JumpsTo(EmitUpTo(e, labels, k - 1).stmts, t) || InsnJumpsTo(e, labels, k - 1, t)
  {
    var o := EmitUpTo(e, labels, k - 1);
    var a, f := e.Addr(k - 1), e.code[k - 1];
    EmitUnfolds(e, labels, k);
    JumpsToSplit(o.stmts + LabelStmts(labels, a), InsnStmts(e, a, f, AtInsn(e, labels, a, o.carry)), t);
    if JumpsTo(o.stmts + LabelStmts(labels, a), t) {
      JumpsToSplit(o.stmts, LabelStmts(labels, a), t);
    }
  }

  /** The instruction that a jump belongs to. */
  lemma {:induction false} JumpComesFrom(e: Env, labels: set<int>, k: nat, t: int) returns (j: nat)
    requires k <= |e.code| && JumpsTo(EmitUpTo(e, labels, k).stmts, t)
    ensures j < k && InsnJumpsTo(e, labels, j, t)
  {
    if k == 0 {
      NothingEmitted(e, labels, t);
      assert false;
    } else {
      JumpOfLast(e, labels, k, t);
      if InsnJumpsTo(e, labels, k - 1, t) {
        j := k - 1;
      } else {
        j := JumpComesFrom(e, labels, k - 1, t);
      }
    }
  }

  lemma NothingEmitted(e: Env, labels: set<int>, t: int)
    ensures !JumpsTo(EmitUpTo(e, labels, 0).stmts, t) && LabelCount(EmitUpTo(e, labels, 0).stmts, t) == 0
  {
  }

  /** Every target in the function of a goto or a switch case is a scanned label. */
  lemma TargetWasScanned(e: Env, labels: set<int>, k: nat, t: int)
    requires e.Valid() && e.Disassembled() && k <= e.Count() && e.InRange(t)
    ensures JumpsTo(EmitUpTo(e, labels, k).stmts, t) ==> t in LabelsUpTo(e, k)
  {
    if JumpsTo(EmitUpTo(e, labels, k).stmts, t) {
      var j := JumpComesFrom(e, labels, k, t);
      InsnTargetWasScanned(e, labels, j, t);
      ScanGrows(e, j + 1, k);
    }
  }

  // ----- each label is emitted once -----

  lemma {:induction false} LabelCountSum(x: seq<Stmt>, y: seq<Stmt>, t: int)
    ensures LabelCount(x + y, t) == LabelCount(x, t) + LabelCount(y, t)
  {
    if y == [] {
      assert x + y == x;
    } else {
      assert (x + y)[..|x + y| - 1] == x + y[..|y| - 1];
      LabelCountSum(x, y[..|y| - 1], t);
    }
  }

  lemma {:induction false} NoLabels(stmts: seq<Stmt>, t: int)
    requires forall i :: 0 <= i < |stmts| ==> !stmts[i].Label?
    ensures LabelCount(stmts, t) == 0
  {
    if stmts != [] {
      NoLabels(stmts[..|stmts| - 1], t);
    }
  }

  lemma InsnHasNoLabels(e: Env, a: nat, w: Word, insn: Insn, c: Carry)
    ensures forall i :: 0 <= i < |StmtsFor(e, a, w, insn, c)| ==> !StmtsFor(e, a, w, insn, c)[i].Label?
  {
  }

  /** `t` is the address of one of the first k instructions. */
  predicate IsInsn(e: Env, k: nat, t: int) { e.base <= t < e.Addr(k) && t % 4 == 0 }

  lemma TextHasNoLabels(e: Env, a: nat, w: Word, insn: Insn, c: Carry, t: int)
    ensures LabelCount(StmtsFor(e, a, w, insn, c), t) == 0
  {
    InsnHasNoLabels(e, a, w, insn, c);
    NoLabels(StmtsFor(e, a, w, insn, c), t);
  }

  lemma LabelsOfNext(e: Env, labels: set<int>, a: nat, f: Fetched, o: Output, t: int)
    ensures LabelCount(EmitNext(e, labels, a, f, o).stmts, t)
         == LabelCount(o.stmts, t) + if a as int in labels && t == a then 1 else 0
  {
    var c := AtInsn(e, labels, a, o.carry);
    LabelCountSum(o.stmts + LabelStmts(labels, a), InsnStmts(e, a, f, c), t);
    LabelCountSum(o.stmts, LabelStmts(labels, a), t);
    TextHasNoLabels(e, a, f.word, f.insn, c, t);
    OneLabel(labels, a, t);
  }

  lemma IsInsnStep(e: Env, k: nat, t: int)
    requires e.base % 4 == 0
    ensures IsInsn(e, k + 1, t) <==> IsInsn(e, k, t) || t == e.Addr(k)
    ensures !IsInsn(e, k, e.Addr(k)) && !IsInsn(e, 0, t)
  {
  }

  ghost predicate Labelled(e: Env, labels: set<int>, k: nat, o: Output, t: int) {
    LabelCount(o.stmts, t) == if t in labels && IsInsn(e, k, t) then 1 else 0
  }

  lemma NextIsLabelled(e: Env, labels: set<int>, k: nat, f: Fetched, o: Output, t: int)
    requires e.base % 4 == 0 && Labelled(e, labels, k, o, t)
    ensures Labelled(e, labels, k + 1, EmitNext(e, labels, e.Addr(k), f, o), t)
  {
    LabelsOfNext(e, labels, e.Addr(k), f, o, t);
    IsInsnStep(e, k, t);
  }

  ghost predicate LabelledUpTo(e: Env, labels: set<int>, k: nat, t: int)
    requires k <= |e.code|
  {
    Labelled(e, labels, k, EmitUpTo(e, labels, k), t)
  }

  lemma NothingIsLabelled(e: Env, labels: set<int>, k: nat, t: int)
    requires e.base % 4 == 0 && k == 0
    ensures LabelledUpTo(e, labels, k, t)
  {
    NothingEmitted(e, labels, t);
    IsInsnStep(e, 0, t);
  }

  lemma LabelledNext(e: Env, labels: set<int>, k: nat, next: nat, t: int)
    requires e.base % 4 == 0 && next == k + 1 <= |e.code| && LabelledUpTo(e, labels, k, t)
    ensures LabelledUpTo(e, labels, next, t)
  {
    var o := EmitUpTo(e, labels, k);
    assert Labelled(e, labels, k, o, t);
    NextIsLabelled(e, labels, k, e.code[k], o, t);
    EmitStep(e, labels, k, next, o);
  }

  /** Among the first k instructions an address has one label if the scan found it, and none otherwise. */
  lemma {:induction false} LabelsEmitted(e: Env, labels: set<int>, k: nat, t: int)
    requires e.base % 4 == 0 && k <= |e.code|
    ensures LabelledUpTo(e, labels, k, t)
  {
    if k == 0 {
      NothingIsLabelled(e, labels, k, t);
    } else {
      var j := k - 1;
      LabelsEmitted(e, labels, j, t);
      LabelledNext(e, labels, j, k, t);
    }
  }

  lemma OneLabel(labels: set<int>, a: nat, t: int)
    ensures LabelCount(LabelStmts(labels, a), t) == if a as int in labels && t == a then 1 else 0
  {
    if a as int in labels {
      assert LabelStmts(labels, a)[..0] == [];
    }
  }

  /** Every goto has exactly one label to go to. */
  ghost predicate Closed(stmts: seq<Stmt>) {
    forall t :: JumpsTo(stmts, t) ==> LabelCount(stmts, t) == 1
  }

  lemma InsnInRange(e: Env, t: int)
    requires e.Valid() && IsInsn(e, e.Count(), t)
    ensures e.InRange(t)
  {
  }

  lemma JumpIsLabelled(e: Env, t: int)
    requires e.Valid() && e.Disassembled() && JumpsTo(Emitted(e).stmts, t)
    ensures LabelCount(Emitted(e).stmts, t) == 1 <==> IsInsn(e, e.Count(), t)
  {
    var labels, n := LabelsUpTo(e, e.Count()), e.Count();
    LabelsEmitted(e, labels, n, t);
    if IsInsn(e, n, t) {
      InsnInRange(e, t);
      TargetWasScanned(e, labels, n, t);
    }
  }

  lemma ClosedWhenTargetsAreInsns(e: Env)
    requires e.Valid() && e.Disassembled()
    ensures Closed(Emitted(e).stmts) <==>
            forall t :: JumpsTo(Emitted(e).stmts, t) ==> IsInsn(e, e.Count(), t)
  {
    forall t | JumpsTo(Emitted(e).stmts, t)
      ensures LabelCount(Emitted(e).stmts, t) == 1 <==> IsInsn(e, e.Count(), t)
    {
      JumpIsLabelled(e, t);
    }
  }

  // ----- which functions are closed -----

  /** The function lies inside its section, is made of whole words, and its tables hold instruction addresses. */
  ghost predicate WellPlaced(e: Env) {
    && e.Valid()
    && e.Disassembled()
    && e.base + e.size <= e.sectionEnd
    && e.size % 4 == 0
    && forall a, l :: a in e.tables && l in e.tables[a].labels ==> l % 4 == 0
  }

  /** A decrementing branch, for which the emitter has no range test, stays in the function. */
  ghost predicate CounterStaysInside(e: Env, k: nat)
    requires k < |e.code|
  {
    var insn := e.code[k].insn;
    insn.JumpIf? && insn.test.Decrements() ==> e.InRange(insn.target)
  }

  ghost predicate TableAligned(c: Carry) {
    c.table.Some? ==> forall l :: l in c.table.value.labels ==> l % 4 == 0
  }

  lemma TakenTableIsAligned(e: Env, labels: set<int>, k: nat)
    requires WellPlaced(e) && k < |e.code|
    ensures TableAligned(CarryBefore(e, labels, k))
  {
    if TableAt(e, labels, k).Some? {
      var j := TableComesFrom(e, labels, k);
    }
  }

  lemma StmtsJumpInside(e: Env, a: nat, w: Word, insn: Insn, c: Carry, t: int)
    requires JumpsTo(StmtsFor(e, a, w, insn, c), t) && TableAligned(c)
    requires insn.JumpIf? && insn.test.Decrements() ==> e.InRange(insn.target)
    requires (insn.Jump? || insn.JumpIf?) ==> insn.target % 4 == 0
    ensures e.InRange(t) && t % 4 == 0
  {
    var stmts := StmtsFor(e, a, w, insn, c);
    var i :| 0 <= i < |stmts| && t in Targets(stmts[i]);
    if insn.JumpCtr? && c.table.Some? {
      var labels := c.table.value.labels;
      var j :| 0 <= j < |labels| && CasesOf(e, c.table.value)[j] == GotoCase(t);
      assert labels[j] in labels;
    }
  }

  lemma AddrIsAligned(e: Env, k: nat)
    requires e.base % 4 == 0
    ensures e.Addr(k) % 4 == 0
  {
  }

  lemma DecodedTargetIsAligned(e: Env, a: nat, w: Word)
    requires a % 4 == 0
    ensures var insn := Decode(e, a, w); insn.Jump? || insn.JumpIf? ==> insn.target % 4 == 0
  {
    DecodedTargets(e, a, w);
    OperandIsTarget(a, w);
    TargetIsAligned(a, BiWords(w));
    TargetIsAligned(a, BdWords(w));
  }

  lemma TargetIsAligned(a: nat, words: int)
    requires a % 4 == 0
    ensures (a + 4 * words) % 0x1_0000_0000 % 4 == 0
  {
    var x := a + 4 * words;
    var t := x % 0x1_0000_0000;
    assert t == x - 0x1_0000_0000 * (x / 0x1_0000_0000);
    assert x == 4 * (a / 4 + words);
    assert t == 4 * (a / 4 + words - 0x4000_0000 * (x / 0x1_0000_0000));
  }

  lemma InsnJumpsInside(e: Env, labels: set<int>, k: nat, t: int)
    requires WellPlaced(e) && k < e.Count() && CounterStaysInside(e, k)
    requires InsnJumpsTo(e, labels, k, t)
    ensures e.InRange(t) && t % 4 == 0
  {
    var a, f := e.Addr(k), e.code[k];
    TakenTableIsAligned(e, labels, k);
    AddrIsAligned(e, k);
    DecodedTargetIsAligned(e, a, f.word);
    StmtsJumpInside(e, a, f.word, f.insn, CarryBefore(e, labels, k), t);
  }

  lemma JumpsStayInside(e: Env, labels: set<int>, k: nat, t: int)
    requires WellPlaced(e) && k <= e.Count()
    requires forall j: nat :: j < k ==> CounterStaysInside(e, j)
    ensures JumpsTo(EmitUpTo(e, labels, k).stmts, t) ==> e.InRange(t) && t % 4 == 0
  {
    if JumpsTo(EmitUpTo(e, labels, k).stmts, t) {
      var j := JumpComesFrom(e, labels, k, t);
      InsnJumpsInside(e, labels, j, t);
    }
  }

  lemma JumpsToGrows(x: seq<Stmt>, y: seq<Stmt>, t: int)
    ensures JumpsTo(x, t) || JumpsTo(y, t) ==> JumpsTo(x + y, t)
  {
    if JumpsTo(x, t) {
      var i :| 0 <= i < |x| && t in Targets(x[i]);
      assert t in Targets((x + y)[i]);
    } else if JumpsTo(y, t) {
      var i :| 0 <= i < |y| && t in Targets(y[i]);
      assert t in Targets((x + y)[|x| + i]);
    }
  }

  ghost predicate EmittedJumpsTo(e: Env, labels: set<int>, k: nat, t: int)
    requires k <= |e.code|
  {
    JumpsTo(EmitUpTo(e, labels, k).stmts, t)
  }

  lemma InsnJumpsAfterwards(e: Env, labels: set<int>, k: nat, t: int)
    requires k < |e.code| && (InsnJumpsTo(e, labels, k, t) || EmittedJumpsTo(e, labels, k, t))
    ensures EmittedJumpsTo(e, labels, k + 1, t)
  {
    var o := EmitUpTo(e, labels, k);
    var a, f := e.Addr(k), e.code[k];
    EmitUnfolds(e, labels, k + 1);
    JumpsToGrows(o.stmts, LabelStmts(labels, a), t);
    JumpsToGrows(o.stmts + LabelStmts(labels, a), InsnStmts(e, a, f, AtInsn(e, labels, a, o.carry)), t);
  }

  lemma {:induction false} InsnJumpIsEmitted(e: Env, labels: set<int>, j: nat, k: nat, t: int)
    requires j < k <= |e.code| && InsnJumpsTo(e, labels, j, t)
    ensures EmittedJumpsTo(e, labels, k, t)
    decreases k
  {
    var i := k - 1;
    if j < i {
      InsnJumpIsEmitted(e, labels, j, i, t);
    }
    InsnJumpsAfterwards(e, labels, i, t);
    assert i + 1 == k;
  }

  lemma CounterJumps(e: Env, a: nat, w: Word, insn: Insn, c: Carry)
    requires insn.JumpIf? && insn.test.Decrements()
    ensures JumpsTo(StmtsFor(e, a, w, insn, c), insn.target)
  {
    assert insn.target in Targets(StmtsFor(e, a, w, insn, c)[1]);
  }

  lemma InsideIsInsn(e: Env, t: int)
    requires WellPlaced(e)
    ensures IsInsn(e, e.Count(), t) <==> e.InRange(t) && t % 4 == 0
  {
  }

  /**
   Every goto of a well-placed function has exactly one label to go to, if and only if no branch that
   decrements CTR leaves the function: those branches have no range test.
   */
  lemma ClosedExactlyWhenCountersStayInside(e: Env)
    requires WellPlaced(e)
    ensures Closed(Emitted(e).stmts) <==> forall k: nat :: k < e.Count() ==> CounterStaysInside(e, k)
  {
    var labels, n := LabelsUpTo(e, e.Count()), e.Count();
    ClosedWhenTargetsAreInsns(e);
    if forall k: nat :: k < n ==> CounterStaysInside(e, k) {
      forall t | JumpsTo(Emitted(e).stmts, t)
        ensures IsInsn(e, n, t)
      {
        JumpsStayInside(e, labels, n, t);
        InsideIsInsn(e, t);
      }
    }
    if Closed(Emitted(e).stmts) {
      forall k: nat | k < n
        ensures CounterStaysInside(e, k)
      {
        ClosedCounterStaysInside(e, k);
      }
    }
  }

  lemma ClosedCounterStaysInside(e: Env, k: nat)
    requires WellPlaced(e) && k < e.Count()
    requires forall t :: JumpsTo(Emitted(e).stmts, t) ==> IsInsn(e, e.Count(), t)
    ensures CounterStaysInside(e, k)
  {
    var a, f := e.Addr(k), e.code[k];
    var labels, insn := LabelsUpTo(e, e.Count()), f.insn;
    if insn.JumpIf? && insn.test.Decrements() {
      CounterJumps(e, a, f.word, insn, CarryBefore(e, labels, k));
      InsnJumpIsEmitted(e, labels, k, e.Count(), insn.target);
      InsideIsInsn(e, insn.target);
    }
  }
}
