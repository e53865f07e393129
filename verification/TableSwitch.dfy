/**
 The emitted `switch` of a recovered table: it reads the index register behind the pattern, where the
 pattern may have overwritten it.
 */
module TableSwitch {
  import opened Wrappers
  import opened JumpTables
  import BranchDecoding
  import Translator
  import Simulation

  /** The labels are the ones that reading the table gives. */
  ghost predicate ReadFrom(image: Image, kind: Kind, code: seq<Insn>, labels: seq<nat>) {
    && Matches(kind, code) && Wide(image)
    && image.mapped(TableAddress(kind, code), |labels| * kind.EntryWidth().Size())
    && |labels| <= 0x1_0000
    && (kind == Computed ==> code[3].sh <= MAX_SHIFT)
    && forall i :: 0 <= i < |labels| ==>
         labels[i] == LabelOf(kind, code, EntryAt(image, TableAddress(kind, code), kind.EntryWidth(), i))
  }

  /** The pattern is chained from register r, which holds an index of the table, and its mask keeps the entry. */
  ghost predicate Indexes(image: Image, kind: Kind, code: seq<Insn>, m: Machine, r: Reg, labels: seq<nat>)
    requires Matches(kind, code)
  {
    && Chained(kind, code, r)
    && m.regs[r] < |labels|
    && (kind == Computed ==> MaskKeeps(code[3], EntryAt(image, TableAddress(kind, code), One, m.regs[r])))
  }

  function Behind(image: Image, m: Machine, code: seq<Insn>): Machine { Run(image, m, code, |code|) }

  /** The case that the switch takes goes where the guest's `bctr` goes. */
  ghost predicate CaseIsTarget(image: Image, m: Machine, code: seq<Insn>, r: Reg, labels: seq<nat>) {
    var after := Behind(image, m, code);
    after.regs[r] < |labels| && labels[after.regs[r]] == after.ctr
  }

  predicate Writes(insn: Insn, r: Reg) {
    match insn
    case Lis(d, _) => d == r
    case Addi(d, _, _) => d == r
    case Rlwinm(d, _, _, _, _) => d == r
    case LoadX(d, _, _, _) => d == r
    case Add(d, _, _) => d == r
    case _ => false
  }

  ghost predicate Keeps(code: seq<Insn>, r: Reg) { forall i :: 0 <= i < |code| ==> !Writes(code[i], r) }

  lemma {:induction false} KeptIndex(image: Image, m: Machine, code: seq<Insn>, r: Reg, n: nat)
    requires n <= |code| && Keeps(code, r)
    ensures Run(image, m, code, n).regs[r] == m.regs[r]
  {
    if n > 0 {
      var k := n - 1;
      KeptIndex(image, m, code, r, k);
      assert !Writes(code[k], r);
      assert Run(image, m, code, n) == Step(image, Run(image, m, code, k), code[k]);
    }
  }

  /**
   The case taken is right exactly if the index register, read behind the pattern, is still an index
   and of an equal label; in particular if no instruction of the pattern writes it.
   */
  lemma SwitchCaseIsTarget(image: Image, kind: Kind, code: seq<Insn>, m: Machine, r: Reg, labels: seq<nat>)
    requires ReadFrom(image, kind, code, labels) && Indexes(image, kind, code, m, r, labels)
    ensures var x := Behind(image, m, code).regs[r];
            CaseIsTarget(image, m, code, r, labels) <==> x < |labels| && labels[x] == labels[m.regs[r]]
    ensures Keeps(code, r) ==> CaseIsTarget(image, m, code, r, labels)
    ensures Behind(image, m, code).ctr == labels[m.regs[r]]
  {
    LabelsAreTargets(image, kind, code, m, r, labels);
    if Keeps(code, r) {
      KeptIndex(image, m, code, r, |code|);
    }
  }

  /** The emitter's context behind the pattern: low words as the pattern left them. */
  predicate Shows(ctx: Translator.Ctx, after: Machine, r: Reg) {
    BranchDecoding.LowWord(ctx.ctr) == after.ctr && BranchDecoding.LowWord(ctx.Gpr(r)) == after.regs[r]
  }

  /**
   What the simulation takes for granted of a table, from how the table was read: the switch is on all
   64 bits, so the high word of the index register has to be zero.
   */
  lemma TableIsFollowed(e: Translator.Env, ctx: Translator.Ctx,
                        image: Image, kind: Kind, code: seq<Insn>, m: Machine, r: Reg, labels: seq<nat>)
    requires ReadFrom(image, kind, code, labels) && Indexes(image, kind, code, m, r, labels)
    requires Shows(ctx, Behind(image, m, code), r)
    ensures Simulation.FollowsTable(e, Translator.Table(r, labels), ctx) <==>
            && ctx.Gpr(r) < WORDS
            && CaseIsTarget(image, m, code, r, labels)
            && e.InRange(labels[m.regs[r]])
    ensures Keeps(code, r) ==>
            (Simulation.FollowsTable(e, Translator.Table(r, labels), ctx) <==>
             ctx.Gpr(r) < WORDS && e.InRange(labels[m.regs[r]]))
  {
    SwitchCaseIsTarget(image, kind, code, m, r, labels);
    HighWordIsZero(ctx.Gpr(r));
  }

  lemma HighWordIsZero(x: nat)
    ensures x < WORDS <==> BranchDecoding.LowWord(x) == x
  {
  }

  // ----- what the pattern leaves in its index register -----

  /** What `rlwinm` makes of an entry. */
  function Turned(insn: Insn, entry: nat): nat
    requires insn.Rlwinm?
  {
    Low(Masked(RotateLeft(entry, insn.sh), insn.mb, insn.me))
  }

  /** Behind `lis`, `addi` and `add` at b, of which the `add` makes `target`. */
  function BehindBase(code: seq<Insn>, b: nat, r: Reg, target: nat, before: nat): nat
    requires b + 3 <= |code| && code[b].Lis? && code[b + 1].Addi?
  {
    if Writes(code[b + 2], r) then target
    else if Writes(code[b + 1], r) then LisAddi(code[b].imm, code[b + 1].imm)
    else if Writes(code[b], r) then Low(code[b].imm * 0x1_0000)
    else before
  }

  /** Behind the scaling and the load of an entry. */
  function BehindScaled(code: seq<Insn>, r: Reg, n: Bit, x: nat, entry: nat): nat
    requires 4 <= |code|
  {
    if Writes(code[3], r) then entry else if Writes(code[2], r) then Shifted(x, n) else x
  }

  /** The value of register r behind the pattern, for index x and its entry: what the last instruction to write r wrote. */
  function LastValue(kind: Kind, code: seq<Insn>, r: Reg, x: nat, entry: nat): nat
    requires Matches(kind, code)
  {
    match kind
    case Absolute => BehindScaled(code, r, 2, x, entry)
    case Computed =>
      BehindBase(code, 4, r, TargetOf(kind, code, entry),
                 if Writes(code[3], r) then Turned(code[3], entry) else if Writes(code[2], r) then entry else x)
    case ByteOffset => BehindBase(code, 3, r, TargetOf(kind, code, entry), if Writes(code[2], r) then entry else x)
    case ShortOffset => BehindBase(code, 4, r, TargetOf(kind, code, entry), BehindScaled(code, r, 1, x, entry))
  }

  lemma StepKeeps(image: Image, m: Machine, insn: Insn, r: Reg)
    ensures !Writes(insn, r) ==> Step(image, m, insn).regs[r] == m.regs[r]
  {
  }

  lemma RunOne(image: Image, m: Machine, code: seq<Insn>, n: nat, next: nat)
    requires next == n + 1 <= |code|
    ensures Run(image, m, code, next) == Step(image, Run(image, m, code, n), code[n])
  {
  }

  lemma PairKeepsIndex(image: Image, m: Machine, code: seq<Insn>, r: Reg)
    requires |code| >= 2 && code[0].Lis? && code[1].Addi? && r != code[0].d && r != code[1].d
    ensures Run(image, m, code, 2).regs[r] == m.regs[r]
  {
    RunTwo(image, m, code, 0);
    StepKeeps(image, m, code[0], r);
    StepKeeps(image, Step(image, m, code[0]), code[1], r);
  }

  /** Instruction k leaves its own value, or the one before it. */
  lemma LeftBy(image: Image, m: Machine, code: seq<Insn>, r: Reg, k: nat, next: nat, before: nat, written: nat)
    requires next == k + 1 <= |code| && Run(image, m, code, k).regs[r] == before
    requires Writes(code[k], r) ==> Run(image, m, code, next).regs[r] == written
    ensures Run(image, m, code, next).regs[r] == if Writes(code[k], r) then written else before
  {
    RunOne(image, m, code, k, next);
    StepKeeps(image, Run(image, m, code, k), code[k], r);
  }

  lemma ScaledLeft(image: Image, m: Machine, code: seq<Insn>, r: Reg, n: Bit, x: nat, entry: nat)
    requires |code| >= 4 && code[0].Lis? && code[1].Addi? && code[2].Rlwinm? && code[3].LoadX? && Pair(code[0], code[1])
    requires code[2].s == r && r != code[0].d && r != code[1].d && code[2].d != code[1].d
    requires 1 <= n <= 2 && PlainShift(code[2], n) && x == m.regs[r] <= 0xFFFF
    requires Run(image, m, code, 4).regs[code[3].d] == entry
    ensures Run(image, m, code, 4).regs[r] == BehindScaled(code, r, n, x, entry)
  {
    PairKeepsIndex(image, m, code, r);
    ScaledReady(image, m, code, n);
    LeftBy(image, m, code, r, 2, 3, x, Shifted(x, n));
    LeftBy(image, m, code, r, 3, 4, if Writes(code[2], r) then Shifted(x, n) else x, entry);
  }

  lemma BaseLeft(image: Image, m: Machine, code: seq<Insn>, b: nat, r: Reg, offset: Reg, target: nat, before: nat)
    requires b + 4 == |code| && code[b].Lis? && code[b + 1].Addi? && code[b + 2].Add? && code[b + 3].Mtctr?
    requires Based(code[b], code[b + 1], code[b + 2], code[b + 3], offset)
    requires Behind(image, m, code).ctr == target && Run(image, m, code, b).regs[r] == before
    ensures Behind(image, m, code).regs[r] == BehindBase(code, b, r, target, before)
  {
    RunTwo(image, m, code, b);
    RunTwo(image, m, code, b + 2);
    BaseSteps(image, Run(image, m, code, b), code[b], code[b + 1], code[b + 2], code[b + 3], r, target);
  }

  lemma BaseSteps(image: Image, m: Machine, lis: Insn, addi: Insn, add: Insn, mtctr: Insn, r: Reg, target: nat)
    requires lis.Lis? && addi.Addi? && add.Add? && mtctr.Mtctr? && Pair(lis, addi) && mtctr.s == add.d
    requires Step(image, Step(image, Step(image, Step(image, m, lis), addi), add), mtctr).ctr == target
    ensures Step(image, Step(image, Step(image, Step(image, m, lis), addi), add), mtctr).regs[r]
         == if Writes(add, r) then target
            else if Writes(addi, r) then LisAddi(lis.imm, addi.imm)
            else if Writes(lis, r) then Low(lis.imm * 0x1_0000)
            else m.regs[r]
  {
  }

  lemma EntryLoaded(image: Image, m: Machine, code: seq<Insn>, r: Reg, p: nat)
    requires |code| >= 3 && code[0].Lis? && code[1].Addi? && code[2].LoadX? && code[2].width == One && Pair(code[0], code[1])
    requires r != code[0].d && r != code[1].d && Indexed(code[1], code[2], r)
    requires p == LisAddi(code[0].imm, code[1].imm) && p + m.regs[r] < WORDS
    ensures Run(image, m, code, 3).regs[code[2].d] == EntryAt(image, p, One, m.regs[r])
  {
    PlainLoads(image, m, code, r);
    EntryAddress(image, p, m.regs[r], One);
  }

  lemma AbsoluteLeft(image: Image, code: seq<Insn>, m: Machine, r: Reg)
    requires Matches(Absolute, code) && Chained(Absolute, code, r) && m.regs[r] <= 0xFFFF
    requires TableAddress(Absolute, code) + m.regs[r] * 4 < WORDS
    ensures Behind(image, m, code).regs[r]
         == LastValue(Absolute, code, r, m.regs[r], EntryAt(image, TableAddress(Absolute, code), Four, m.regs[r]))
  {
    AbsoluteLoads(image, code, m, r);
    ScaledLeft(image, m, code, r, 2, m.regs[r], EntryAt(image, TableAddress(Absolute, code), Four, m.regs[r]));
    JumpKeeps(image, m, code, r);
  }

  lemma JumpKeeps(image: Image, m: Machine, code: seq<Insn>, r: Reg)
    requires |code| == 6 && code[4].Mtctr? && code[5].Bctr?
    ensures Behind(image, m, code).regs[r] == Run(image, m, code, 4).regs[r]
  {
    RunTwo(image, m, code, 4);
  }

  lemma ShortOffsetLeft(image: Image, code: seq<Insn>, m: Machine, r: Reg, entry: nat)
    requires Matches(ShortOffset, code) && Chained(ShortOffset, code, r) && m.regs[r] <= 0xFFFF
    requires TableAddress(ShortOffset, code) + m.regs[r] * 2 < WORDS
    requires entry == EntryAt(image, TableAddress(ShortOffset, code), Two, m.regs[r])
    requires Behind(image, m, code).ctr == TargetOf(ShortOffset, code, entry)
    ensures Behind(image, m, code).regs[r] == LastValue(ShortOffset, code, r, m.regs[r], entry)
  {
    ShortOffsetLoads(image, code, m, r);
    ScaledLeft(image, m, code, r, 1, m.regs[r], entry);
    BaseLeft(image, m, code, 4, r, code[3].d, TargetOf(ShortOffset, code, entry), BehindScaled(code, r, 1, m.regs[r], entry));
  }

  lemma ByteOffsetLeft(image: Image, code: seq<Insn>, m: Machine, r: Reg, entry: nat)
    requires Matches(ByteOffset, code) && Chained(ByteOffset, code, r)
    requires TableAddress(ByteOffset, code) + m.regs[r] < WORDS
    requires entry == EntryAt(image, TableAddress(ByteOffset, code), One, m.regs[r])
    requires Behind(image, m, code).ctr == TargetOf(ByteOffset, code, entry)
    ensures Behind(image, m, code).regs[r] == LastValue(ByteOffset, code, r, m.regs[r], entry)
  {
    var x := m.regs[r];
    PairKeepsIndex(image, m, code, r);
    EntryLoaded(image, m, code, r, TableAddress(ByteOffset, code));
    LeftBy(image, m, code, r, 2, 3, x, entry);
    BaseLeft(image, m, code, 3, r, code[2].d, TargetOf(ByteOffset, code, entry), if Writes(code[2], r) then entry else x);
  }

  lemma ComputedLeft(image: Image, code: seq<Insn>, m: Machine, r: Reg, entry: nat)
    requires Matches(Computed, code) && Chained(Computed, code, r)
    requires TableAddress(Computed, code) + m.regs[r] < WORDS
    requires entry == EntryAt(image, TableAddress(Computed, code), One, m.regs[r])
    requires Behind(image, m, code).ctr == TargetOf(Computed, code, entry)
    ensures Behind(image, m, code).regs[r] == LastValue(Computed, code, r, m.regs[r], entry)
  {
    var x := m.regs[r];
    PairKeepsIndex(image, m, code, r);
    EntryLoaded(image, m, code, r, TableAddress(Computed, code));
    LeftBy(image, m, code, r, 2, 3, x, entry);
    RunOne(image, m, code, 3, 4);
    var loaded := if Writes(code[2], r) then entry else x;
    LeftBy(image, m, code, r, 3, 4, loaded, Turned(code[3], entry));
    BaseLeft(image, m, code, 4, r, code[3].d, TargetOf(Computed, code, entry),
             if Writes(code[3], r) then Turned(code[3], entry) else loaded);
  }

  lemma LastValueIsLeft(image: Image, kind: Kind, code: seq<Insn>, m: Machine, r: Reg, entry: nat)
    requires Matches(kind, code) && Chained(kind, code, r) && m.regs[r] <= 0xFFFF
    requires TableAddress(kind, code) + m.regs[r] * kind.EntryWidth().Size() < WORDS
    requires entry == EntryAt(image, TableAddress(kind, code), kind.EntryWidth(), m.regs[r])
    ensures Behind(image, m, code).regs[r] == LastValue(kind, code, r, m.regs[r], entry)
  {
    PatternRuns(image, kind, code, m, r);
    match kind {
      case Absolute => AbsoluteLeft(image, code, m, r);
      case Computed => ComputedLeft(image, code, m, r, entry);
      case ByteOffset => ByteOffsetLeft(image, code, m, r, entry);
      case ShortOffset => ShortOffsetLeft(image, code, m, r, entry);
    }
  }

  // ----- when the switch is right, told from the pattern and the table -----

  function TableEntry(image: Image, kind: Kind, code: seq<Insn>, x: nat): nat
    requires Matches(kind, code)
  {
    EntryAt(image, TableAddress(kind, code), kind.EntryWidth(), x)
  }

  /** The pattern is chained from register r, and its mask keeps every entry. */
  ghost predicate ReadThrough(image: Image, kind: Kind, code: seq<Insn>, r: Reg, labels: seq<nat>) {
    && ReadFrom(image, kind, code, labels)
    && Chained(kind, code, r)
    && (kind == Computed ==> forall x: nat :: x < |labels| ==> MaskKeeps(code[3], TableEntry(image, kind, code, x)))
  }

  /** What the pattern leaves in r on index x is an index of the same label. */
  predicate RightAt(image: Image, kind: Kind, code: seq<Insn>, r: Reg, labels: seq<nat>, x: nat)
    requires Matches(kind, code) && x < |labels|
  {
    var v := LastValue(kind, code, r, x, TableEntry(image, kind, code, x));
    v < |labels| && labels[v] == labels[x]
  }

  /** Whatever the machine, the switch goes where the guest goes. */
  ghost predicate AlwaysRight(image: Image, code: seq<Insn>, r: Reg, labels: seq<nat>) {
    forall m: Machine :: m.regs[r] < |labels| ==> CaseIsTarget(image, m, code, r, labels)
  }

  lemma IndexIsKept(image: Image, kind: Kind, code: seq<Insn>, r: Reg, labels: seq<nat>, x: nat)
    requires ReadThrough(image, kind, code, r, labels) && x < |labels|
    ensures kind == Computed ==> MaskKeeps(code[3], EntryAt(image, TableAddress(kind, code), One, x))
  {
    assert TableEntry(image, kind, code, x) == EntryAt(image, TableAddress(kind, code), kind.EntryWidth(), x);
  }

  /** On every index the pattern goes to the label. */
  lemma LabelIsTaken(image: Image, kind: Kind, code: seq<Insn>, m: Machine, r: Reg, labels: seq<nat>)
    requires ReadThrough(image, kind, code, r, labels) && m.regs[r] < |labels|
    ensures Behind(image, m, code).ctr == labels[m.regs[r]]
  {
    IndexIsKept(image, kind, code, r, labels, m.regs[r]);
    SwitchCaseIsTarget(image, kind, code, m, r, labels);
  }

  lemma CaseIsStatic(image: Image, kind: Kind, code: seq<Insn>, m: Machine, r: Reg, labels: seq<nat>)
    requires ReadThrough(image, kind, code, r, labels) && m.regs[r] < |labels|
    ensures CaseIsTarget(image, m, code, r, labels) <==> RightAt(image, kind, code, r, labels, m.regs[r])
  {
    var x := m.regs[r];
    EntryIsMapped(TableAddress(kind, code), |labels|, x, kind.EntryWidth());
    LastValueIsLeft(image, kind, code, m, r, TableEntry(image, kind, code, x));
    SwitchCaseIsTarget(image, kind, code, m, r, labels);
  }

  /** The switch is right on every machine if and only if the pattern and the table say so for each index. */
  lemma SwitchIsStatic(image: Image, kind: Kind, code: seq<Insn>, r: Reg, labels: seq<nat>)
    requires ReadThrough(image, kind, code, r, labels)
    ensures AlwaysRight(image, code, r, labels) <==>
            forall x: nat :: x < |labels| ==> RightAt(image, kind, code, r, labels, x)
  {
    if AlwaysRight(image, code, r, labels) {
      forall x: nat | x < |labels|
        ensures RightAt(image, kind, code, r, labels, x)
      {
        var m := Machine(seq(32, i => if i == r then x else 0), 0);
        CaseIsStatic(image, kind, code, m, r, labels);
      }
    }
    if forall x: nat :: x < |labels| ==> RightAt(image, kind, code, r, labels, x) {
      forall m: Machine | m.regs[r] < |labels|
        ensures CaseIsTarget(image, m, code, r, labels)
      {
        CaseIsStatic(image, kind, code, m, r, labels);
      }
    }
  }

  /**
   The table tells its indices from other values: there are two labels or more, none of which is an index;
   in a table of offsets moreover two labels differ, and some entry is no index.
   */
  ghost predicate Telling(image: Image, kind: Kind, code: seq<Insn>, labels: seq<nat>)
    requires Matches(kind, code)
  {
    && |labels| >= 2
    && (forall i :: 0 <= i < |labels| ==> labels[i] >= |labels|)
    && (kind != Absolute ==>
          && (exists i, j :: 0 <= i < |labels| && 0 <= j < |labels| && labels[i] != labels[j])
          && exists x: nat :: x < |labels| && TableEntry(image, kind, code, x) >= |labels|)
  }

  /** A value that does not depend on the index cannot be right for two labels. */
  lemma ConstantIsWrong(labels: seq<nat>, v: nat)
    requires exists i, j :: 0 <= i < |labels| && 0 <= j < |labels| && labels[i] != labels[j]
    ensures exists x: nat :: x < |labels| && !(v < |labels| && labels[v] == labels[x])
  {
    var i, j :| 0 <= i < |labels| && 0 <= j < |labels| && labels[i] != labels[j];
    var x: nat := if v < |labels| && labels[v] == labels[i] then j else i;
    assert !(v < |labels| && labels[v] == labels[x]);
  }

  lemma ScaledIsWrong(count: nat, n: Bit)
    requires count >= 2 && 1 <= n <= 2
    ensures Shifted(count - 1, n) >= count
  {
    Pow2Values();
  }

  /** A kept entry has only been shifted, so it is no smaller. */
  lemma TurnedGrows(insn: Insn, entry: Byte)
    requires insn.Rlwinm? && insn.sh <= MAX_SHIFT && MaskKeeps(insn, entry)
    ensures Turned(insn, entry) >= entry
  {
    RotatedByte(entry, insn.sh);
    LowIsSame(Shifted(entry, insn.sh));
    Pow2Grows(0, insn.sh);
    ScalingGrows(entry, Pow2(insn.sh));
  }

  lemma ScalingGrows(x: nat, p: nat)
    requires p >= 1
    ensures x * p >= x
  {
  }

  lemma AbsoluteIsWrong(image: Image, code: seq<Insn>, r: Reg, labels: seq<nat>)
    requires ReadThrough(image, Absolute, code, r, labels) && Telling(image, Absolute, code, labels) && !Keeps(code, r)
    ensures exists x: nat :: x < |labels| && !RightAt(image, Absolute, code, r, labels, x)
  {
    var x: nat := |labels| - 1;
    assert labels[x] == TableEntry(image, Absolute, code, x);
    ScaledIsWrong(|labels|, 2);
    assert !RightAt(image, Absolute, code, r, labels, x);
  }

  /** If what is left behind the loads is wrong once it is written, so is what is left behind the base. */
  lemma OffsetIsWrong(image: Image, kind: Kind, code: seq<Insn>, r: Reg, labels: seq<nat>, x: nat)
    requires ReadThrough(image, kind, code, r, labels) && Telling(image, kind, code, labels) && kind != Absolute
    requires x < |labels|
    requires var b := BaseIndex(kind);
             Writes(code[b], r) || Writes(code[b + 1], r) || Writes(code[b + 2], r)
             || LastValue(kind, code, r, x, TableEntry(image, kind, code, x)) >= |labels|
    ensures exists y: nat :: y < |labels| && !RightAt(image, kind, code, r, labels, y)
  {
    var b := BaseIndex(kind);
    if Writes(code[b + 2], r) {
      LabelIsTarget(kind, code, TableEntry(image, kind, code, 0));
      assert labels[0] == LabelOf(kind, code, TableEntry(image, kind, code, 0));
      assert !RightAt(image, kind, code, r, labels, 0);
    } else if Writes(code[b], r) || Writes(code[b + 1], r) {
      var v := if Writes(code[b + 1], r) then LisAddi(code[b].imm, code[b + 1].imm) else Low(code[b].imm * 0x1_0000);
      ConstantIsWrong(labels, v);
      var y: nat :| y < |labels| && !(v < |labels| && labels[v] == labels[y]);
      assert !RightAt(image, kind, code, r, labels, y);
    } else {
      assert !RightAt(image, kind, code, r, labels, x);
    }
  }

  /** What overwrites the index in front of the base leaves a value that is no index. */
  lemma ComputedOverwrites(code: seq<Insn>, r: Reg, x: nat, entry: nat, count: nat)
    requires Matches(Computed, code) && r != code[0].d && r != code[1].d && !Keeps(code, r)
    requires entry >= count && Turned(code[3], entry) >= count
    ensures Writes(code[4], r) || Writes(code[5], r) || Writes(code[6], r) || LastValue(Computed, code, r, x, entry) >= count
  {
    assert !Writes(code[7], r);
  }

  lemma ByteOffsetOverwrites(code: seq<Insn>, r: Reg, x: nat, entry: nat, count: nat)
    requires Matches(ByteOffset, code) && r != code[0].d && r != code[1].d && !Keeps(code, r) && entry >= count
    ensures Writes(code[3], r) || Writes(code[4], r) || Writes(code[5], r) || LastValue(ByteOffset, code, r, x, entry) >= count
  {
    assert !Writes(code[6], r);
  }

  lemma ShortOffsetOverwrites(code: seq<Insn>, r: Reg, x: nat, entry: nat, count: nat)
    requires Matches(ShortOffset, code) && r != code[0].d && r != code[1].d && !Keeps(code, r)
    requires if Writes(code[3], r) then entry >= count else Shifted(x, 1) >= count
    ensures Writes(code[4], r) || Writes(code[5], r) || Writes(code[6], r) || LastValue(ShortOffset, code, r, x, entry) >= count
  {
    assert !Writes(code[7], r);
  }

  lemma ComputedIsWrong(image: Image, code: seq<Insn>, r: Reg, labels: seq<nat>)
    requires ReadThrough(image, Computed, code, r, labels) && Telling(image, Computed, code, labels) && !Keeps(code, r)
    ensures exists x: nat :: x < |labels| && !RightAt(image, Computed, code, r, labels, x)
  {
    var x: nat :| x < |labels| && TableEntry(image, Computed, code, x) >= |labels|;
    TurnedGrows(code[3], TableEntry(image, Computed, code, x));
    ComputedOverwrites(code, r, x, TableEntry(image, Computed, code, x), |labels|);
    OffsetIsWrong(image, Computed, code, r, labels, x);
  }

  lemma ByteOffsetIsWrong(image: Image, code: seq<Insn>, r: Reg, labels: seq<nat>)
    requires ReadThrough(image, ByteOffset, code, r, labels) && Telling(image, ByteOffset, code, labels) && !Keeps(code, r)
    ensures exists x: nat :: x < |labels| && !RightAt(image, ByteOffset, code, r, labels, x)
  {
    var x: nat :| x < |labels| && TableEntry(image, ByteOffset, code, x) >= |labels|;
    ByteOffsetOverwrites(code, r, x, TableEntry(image, ByteOffset, code, x), |labels|);
    OffsetIsWrong(image, ByteOffset, code, r, labels, x);
  }

  lemma ShortOffsetIsWrong(image: Image, code: seq<Insn>, r: Reg, labels: seq<nat>)
    requires ReadThrough(image, ShortOffset, code, r, labels) && Telling(image, ShortOffset, code, labels) && !Keeps(code, r)
    ensures exists x: nat :: x < |labels| && !RightAt(image, ShortOffset, code, r, labels, x)
  {
    var x: nat :| x < |labels| && TableEntry(image, ShortOffset, code, x) >= |labels|;
    if !Writes(code[3], r) {
      x := |labels| - 1;
      ScaledIsWrong(|labels|, 1);
    }
    ShortOffsetOverwrites(code, r, x, TableEntry(image, ShortOffset, code, x), |labels|);
    OffsetIsWrong(image, ShortOffset, code, r, labels, x);
  }

  lemma OverwritingIsWrong(image: Image, kind: Kind, code: seq<Insn>, r: Reg, labels: seq<nat>)
    requires ReadThrough(image, kind, code, r, labels) && Telling(image, kind, code, labels) && !Keeps(code, r)
    ensures exists x: nat :: x < |labels| && !RightAt(image, kind, code, r, labels, x)
  {
    match kind {
      case Absolute => AbsoluteIsWrong(image, code, r, labels);
      case Computed => ComputedIsWrong(image, code, r, labels);
      case ByteOffset => ByteOffsetIsWrong(image, code, r, labels);
      case ShortOffset => ShortOffsetIsWrong(image, code, r, labels);
    }
  }

  lemma KeptIsRight(image: Image, kind: Kind, code: seq<Insn>, r: Reg, labels: seq<nat>, x: nat)
    requires Matches(kind, code) && Keeps(code, r) && x < |labels|
    ensures RightAt(image, kind, code, r, labels, x)
  {
    assert forall i :: 0 <= i < |code| ==> !Writes(code[i], r);
  }

  /** For a table that tells, the switch is right on every machine if and only if the pattern keeps its index register. */
  lemma SwitchIsRightExactly(image: Image, kind: Kind, code: seq<Insn>, r: Reg, labels: seq<nat>)
    requires ReadThrough(image, kind, code, r, labels) && Telling(image, kind, code, labels)
    ensures AlwaysRight(image, code, r, labels) <==> Keeps(code, r)
  {
    SwitchIsStatic(image, kind, code, r, labels);
    if Keeps(code, r) {
      forall x: nat | x < |labels|
        ensures RightAt(image, kind, code, r, labels, x)
      {
        KeptIsRight(image, kind, code, r, labels, x);
      }
    } else {
      OverwritingIsWrong(image, kind, code, r, labels);
    }
  }

  // ----- a pattern that overwrites its index -----

  /** Scaling, and then loading, into the index register. */
  const OVERWRITING: seq<Insn> :=
    [Lis(12, 1), Addi(12, 12, 0), Rlwinm(3, 3, 2, 0, 29), LoadX(3, 12, 3, Four), Mtctr(3), Bctr]

  /** The table { 0x100, 0x104 } at 0x10000. */
  function SmallTable(a: nat): Byte { if a == 0x1_0002 || a == 0x1_0006 then 1 else if a == 0x1_0007 then 4 else 0 }

  function SmallImage(): Image { Image(SmallTable, (a: nat, n: nat) => a + n <= WORDS) }

  /** A jump through the register that the entry was loaded into: the switch is on the entry. */
  lemma LoadedIndex(image: Image, m: Machine, code: seq<Insn>, r: Reg)
    requires Matches(Absolute, code) && code[4].s == r
    ensures Behind(image, m, code).regs[r] == Behind(image, m, code).ctr
  {
    RunTwo(image, m, code, 4);
  }

  lemma OverwritingReads()
    ensures ReadFrom(SmallImage(), Absolute, OVERWRITING, [0x100, 0x104])
  {
    assert TableAddress(Absolute, OVERWRITING) == 0x1_0000;
    assert Wide(SmallImage());
  }

  lemma OverwritingChained(m: Machine)
    requires m.regs[3] == 1
    ensures Matches(Absolute, OVERWRITING) && OVERWRITING[4].s == 3
    ensures Indexes(SmallImage(), Absolute, OVERWRITING, m, 3, [0x100, 0x104])
  {
  }

  /** Such a pattern is chained and its table is read, but the switch has no case for what it leaves in the index register. */
  lemma OverwrittenIndexIsLost(m: Machine)
    requires m.regs[3] == 1
    ensures ReadFrom(SmallImage(), Absolute, OVERWRITING, [0x100, 0x104])
    ensures Indexes(SmallImage(), Absolute, OVERWRITING, m, 3, [0x100, 0x104])
    ensures Behind(SmallImage(), m, OVERWRITING).ctr == 0x104
    ensures !CaseIsTarget(SmallImage(), m, OVERWRITING, 3, [0x100, 0x104])
  {
    OverwritingReads();
    OverwritingChained(m);
    SwitchCaseIsTarget(SmallImage(), Absolute, OVERWRITING, m, 3, [0x100, 0x104]);
    LoadedIndex(SmallImage(), m, OVERWRITING, 3);
  }
}
