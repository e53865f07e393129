/**
 Jump-table recovery: finding the index register and the bound in front of a table pattern, reading
 the table's labels, and the agreement of each label with the CTR value that the guest computes.
 Values are the low words of registers, as addresses are in 32-bit mode.
 */
module JumpTables {
  import opened Wrappers

  type Reg = r: nat | r < 32

  /** A shift amount or the number of a bit in a word. */
  type Bit = n: nat | n < 32

  /** An unsigned 16-bit immediate. */
  type Half = n: nat | n < 0x1_0000

  datatype Width = One | Two | Four {
    function Size(): nat { match this case One => 1 case Two => 2 case Four => 4 }
  }

  /** The instructions that patterns are made of, with the operands of the disassembler. */
  datatype Insn =
    | Lis(d: Reg, imm: nat)
    | Addi(d: Reg, a: Reg, imm: nat)
    | Rlwinm(d: Reg, s: Reg, sh: Bit, mb: Bit, me: Bit)
    | LoadX(d: Reg, a: Reg, b: Reg, width: Width)
    | Add(d: Reg, a: Reg, b: Reg)
    | Mtctr(s: Reg)
    | Bctr
    | Cmplwi(cr: nat, s: Reg, bound: Half)
    | BoundBranch(cr: nat, greater: bool, target: Option<nat>)     // bgt, ble, and bgtlr, blelr without a target
    | Other
    | Undecodable

  datatype Kind = Absolute | Computed | ByteOffset | ShortOffset {
    /** How wide the table's entries are. */
    function EntryWidth(): Width {
      match this
      case Absolute => Four
      case Computed => One
      case ByteOffset => One
      case ShortOffset => Two
    }
  }

  /** `mapped(a, n)`: one section holds all n bytes from address a on. */
  datatype Image = Image(memory: nat -> Byte, mapped: (nat, nat) -> bool)

  datatype Found = NotFound | Found(r: Reg, count: nat, defaultLabel: nat)

  // ----- patterns -----

  datatype Opcode = LIS | ADDI | RLWINM | LBZX | LHZX | LWZX | ADD | MTCTR | BCTR

  function OpcodeOf(insn: Insn): Option<Opcode> {
    match insn
    case Lis(_, _) => Some(LIS)
    case Addi(_, _, _) => Some(ADDI)
    case Rlwinm(_, _, _, _, _) => Some(RLWINM)
    case LoadX(_, _, _, width) => Some(match width case One => LBZX case Two => LHZX case Four => LWZX)
    case Add(_, _, _) => Some(ADD)
    case Mtctr(_) => Some(MTCTR)
    case Bctr => Some(BCTR)
    case _ => None
  }

  /** The opcodes that are searched for. */
  function Pattern(kind: Kind): seq<Opcode> {
    match kind
    case Absolute => [LIS, ADDI, RLWINM, LWZX, MTCTR, BCTR]
    case Computed => [LIS, ADDI, LBZX, RLWINM, LIS, ADDI, ADD, MTCTR]
    case ByteOffset => [LIS, ADDI, LBZX, LIS, ADDI, ADD, MTCTR]
    case ShortOffset => [LIS, ADDI, RLWINM, LHZX, LIS, ADDI, ADD, MTCTR]
  }

  /** The instructions have the pattern's opcodes; the reader then looks at nothing but the immediates. */
  predicate Matches(kind: Kind, code: seq<Insn>) {
    match kind
    case Absolute =>
      && |code| == 6 && code[0].Lis? && code[1].Addi? && code[2].Rlwinm? && code[3].LoadX? && code[3].width == Four
      && code[4].Mtctr? && code[5].Bctr?
    case Computed =>
      && |code| == 8 && code[0].Lis? && code[1].Addi? && code[2].LoadX? && code[2].width == One && code[3].Rlwinm?
      && code[4].Lis? && code[5].Addi? && code[6].Add? && code[7].Mtctr?
    case ByteOffset =>
      && |code| == 7 && code[0].Lis? && code[1].Addi? && code[2].LoadX? && code[2].width == One
      && code[3].Lis? && code[4].Addi? && code[5].Add? && code[6].Mtctr?
    case ShortOffset =>
      && |code| == 8 && code[0].Lis? && code[1].Addi? && code[2].Rlwinm? && code[3].LoadX? && code[3].width == Two
      && code[4].Lis? && code[5].Addi? && code[6].Add? && code[7].Mtctr?
  }

  ghost predicate HasOpcodes(code: seq<Insn>, ops: seq<Opcode>) {
    |code| == |ops| && forall c :: 0 <= c < |ops| ==> OpcodeOf(code[c]) == Some(ops[c])
  }

  lemma MatchesExactly(kind: Kind, code: seq<Insn>)
    ensures Matches(kind, code) <==> HasOpcodes(code, Pattern(kind))
  {
    var ops := Pattern(kind);
    if HasOpcodes(code, ops) {
      assert OpcodeOf(code[0]) == Some(ops[0]) && OpcodeOf(code[1]) == Some(ops[1]) && OpcodeOf(code[2]) == Some(ops[2]);
      assert OpcodeOf(code[3]) == Some(ops[3]) && OpcodeOf(code[4]) == Some(ops[4]) && OpcodeOf(code[5]) == Some(ops[5]);
      assert |ops| > 6 ==> OpcodeOf(code[6]) == Some(ops[6]);
      assert |ops| > 7 ==> OpcodeOf(code[7]) == Some(ops[7]);
    }
  }

  /** A pattern of this kind stands at index i. */
  predicate StandsAt(kind: Kind, code: seq<Insn>, i: nat) {
    i + |Pattern(kind)| <= |code| && Matches(kind, code[i..i + |Pattern(kind)|])
  }

  lemma StandsNowhere(kind: Kind, code: seq<Insn>, i: nat, c: nat)
    requires c < |Pattern(kind)| && (i + c < |code| ==> OpcodeOf(code[i + c]) != Some(Pattern(kind)[c]))
    ensures !StandsAt(kind, code, i)
  {
    if i + |Pattern(kind)| <= |code| {
      var part := code[i..i + |Pattern(kind)|];
      assert part[c] == code[i + c];
      MatchesExactly(kind, part);
    }
  }

  /** The first pattern of the kind. */
  method SearchMask(code: seq<Insn>, kind: Kind) returns (found: Option<nat>)
    ensures match found
            case Some(i) => StandsAt(kind, code, i) && forall k: nat :: k < i ==> !StandsAt(kind, code, k)
            case None => forall k: nat :: !StandsAt(kind, code, k)
  {
    var ops := Pattern(kind);
    for i := 0 to |code|
      invariant forall k: nat :: k < i ==> !StandsAt(kind, code, k)
    {
      var c := 0;
      while c < |ops| && i + c < |code| && OpcodeOf(code[i + c]) == Some(ops[c])
        invariant 0 <= c <= |ops| && i + c <= |code|
        invariant forall b :: 0 <= b < c ==> OpcodeOf(code[i + b]) == Some(ops[b])
      {
        c := c + 1;
      }
      if c == |ops| {
        MatchesExactly(kind, code[i..i + |ops|]);
        return Some(i);
      }
      StandsNowhere(kind, code, i, c);
    }
    return None;
  }

  // ----- ScanTable -----

  const WINDOW: nat := 32

  /** The instruction at distance k in front of `at`. */
  function Back(code: seq<Insn>, at: nat, k: int): Insn
    requires 0 <= k <= at < |code|
  {
    code[at - k]
  }

  predicate IsBoundCheck(insn: Insn, cr: nat) { insn.Cmplwi? && insn.cr == cr }

  /** The nearest branch on "greater than" in front of the pattern is at distance i. */
  predicate BranchAt(code: seq<Insn>, at: nat, count: nat, i: int)
    requires count <= at + 1 <= |code|
  {
    && 0 <= i < count
    && Back(code, at, i).BoundBranch?
    && forall k :: 0 <= k < i ==> !Back(code, at, k).BoundBranch?
  }

  lemma BranchAtUnique(code: seq<Insn>, at: nat, count: nat, i: int, k: int)
    requires count <= at + 1 <= |code|
    requires BranchAt(code, at, count, i) && BranchAt(code, at, count, k)
    ensures i == k
  {
    assert Back(code, at, i).BoundBranch? && Back(code, at, k).BoundBranch?;
  }

  /** The nearest comparison in front of that branch which sets its CR field is at distance j. */
  predicate CheckAt(code: seq<Insn>, at: nat, count: nat, i: int, j: int)
    requires count <= at + 1 <= |code|
    requires BranchAt(code, at, count, i)
  {
    && i < j < count
    && IsBoundCheck(Back(code, at, j), Back(code, at, i).cr)
    && forall k :: i < k < j ==> !IsBoundCheck(Back(code, at, k), Back(code, at, i).cr)
  }

  ghost predicate FoundAt(code: seq<Insn>, at: nat, count: nat, i: int, j: int, found: Found)
    requires count <= at + 1 <= |code|
    requires BranchAt(code, at, count, i) && CheckAt(code, at, count, i, j)
  {
    var check := Back(code, at, j);
    found == Found(check.s, check.bound + 1, Back(code, at, i).target.GetOr(0))
  }

  /** The search runs backwards from the pattern, and finds a bound check whenever there is one. */
  method ScanTable(code: seq<Insn>, at: nat, wordsBack: nat) returns (found: Found)
    requires at < |code| && wordsBack <= at + 1
    ensures var count := if 32 < wordsBack then 32 else wordsBack;
            if found.NotFound? then
              !exists i, j :: BranchAt(code, at, count, i) && CheckAt(code, at, count, i, j)
            else
              exists i, j :: BranchAt(code, at, count, i) && CheckAt(code, at, count, i, j)
                          && FoundAt(code, at, count, i, j, found)
  {
    var count := if WINDOW < wordsBack then WINDOW else wordsBack;
    var cr: Option<nat> := None;
    var defaultLabel := 0;
    ghost var branch := 0;
    for i := 0 to count
      invariant cr == None ==> defaultLabel == 0 && forall k :: 0 <= k < i ==> !Back(code, at, k).BoundBranch?
      invariant cr.Some? ==>
        && branch < i
        && BranchAt(code, at, count, branch)
        && cr == Some(Back(code, at, branch).cr)
        && defaultLabel == Back(code, at, branch).target.GetOr(0)
        && forall k :: branch < k < i ==> !IsBoundCheck(Back(code, at, k), cr.value)
    {
      var insn := Back(code, at, i);
      if insn == Undecodable {
        continue;
      }
      if cr == None && insn.BoundBranch? {
        cr := Some(insn.cr);
        branch := i;
        if insn.target != None {
          defaultLabel := insn.target.value;
        }
      } else if cr != None {
        if insn.Cmplwi? && insn.cr == cr.value {
          assert CheckAt(code, at, count, branch, i);
          return Found(insn.s, insn.bound + 1, defaultLabel);
        }
      }
    }
    forall i | BranchAt(code, at, count, i)
      ensures cr.Some? && i == branch
    {
      if cr.Some? {
        BranchAtUnique(code, at, count, i, branch);
      }
    }
    return NotFound;
  }

  // ----- ReadTable -----

  const WORDS: int := 0x1_0000_0000

  /** The low word. */
  function Low(x: int): (w: nat)
    ensures w < WORDS
  {
    x % WORDS
  }

  /** What `lis` and `addi` with the same register make. */
  function LisAddi(hi: nat, lo: nat): nat { Low(Low(hi * 0x1_0000) + lo) }

  /** The big-endian number at address a. */
  function Entry(image: Image, a: nat, width: Width): (n: nat)
    ensures n < WORDS && (width == One ==> n < 0x100)
  {
    match width
    case One => image.memory(a)
    case Two => image.memory(a) * 0x100 + image.memory(a + 1)
    case Four => ((image.memory(a) * 0x100 + image.memory(a + 1)) * 0x100 + image.memory(a + 2)) * 0x100 + image.memory(a + 3)
  }

  /** The number that n bytes make, the highest first. */
  function BigEndian(image: Image, a: nat, n: nat): nat {
    if n == 0 then 0 else 0x100 * BigEndian(image, a, n - 1) + image.memory(a + n - 1)
  }

  lemma EntryIsBigEndian(image: Image, a: nat, width: Width)
    ensures Entry(image, a, width) == BigEndian(image, a, match width case One => 1 case Two => 2 case Four => 4)
  {
    assert BigEndian(image, a, 1) == image.memory(a) as int;
    assert BigEndian(image, a, 2) == 0x100 * image.memory(a) as int + image.memory(a + 1) as int;
    assert BigEndian(image, a, 3) == 0x100 * BigEndian(image, a, 2) + image.memory(a + 2) as int;
  }

  /** Entry i of the table at address p, read through a host pointer. */
  function EntryAt(image: Image, p: nat, width: Width, i: nat): nat {
    Entry(image, p + i * width.Size(), width)
  }

  function Pow2(n: nat): (p: nat)
    ensures p > 0
  {
    if n == 0 then 1 else 2 * Pow2(n - 1)
  }

  /** x, shifted left by n. */
  function Shifted(x: nat, n: nat): nat { x * Pow2(n) }

  /** Where in the pattern the second `lis` is. */
  function BaseIndex(kind: Kind): nat { if kind == ByteOffset then 3 else 4 }

  const MAX_SHIFT: nat := 24

  /** The label that the reader makes of an entry. */
  function LabelOf(kind: Kind, code: seq<Insn>, entry: nat): nat
    requires Matches(kind, code)
  {
    if kind == Absolute then entry
    else
      var base := LisAddi(code[BaseIndex(kind)].imm, code[BaseIndex(kind) + 1].imm);
      Low(base + if kind == Computed then Shifted(entry, code[3].sh) else entry)
  }

  /** The same in numbers. */
  lemma LabelInNumbers(kind: Kind, code: seq<Insn>, entry: nat)
    requires Matches(kind, code)
    ensures kind == Absolute ==> LabelOf(kind, code, entry) == entry
    ensures kind == Computed ==>
              LabelOf(kind, code, entry) == (0x1_0000 * code[4].imm + code[5].imm + entry * Pow2(code[3].sh)) % 0x1_0000_0000
    ensures kind == ByteOffset ==> LabelOf(kind, code, entry) == (0x1_0000 * code[3].imm + code[4].imm + entry) % 0x1_0000_0000
    ensures kind == ShortOffset ==> LabelOf(kind, code, entry) == (0x1_0000 * code[4].imm + code[5].imm + entry) % 0x1_0000_0000
  {
    match kind {
      case Absolute =>
      case Computed => SumInNumbers(code[4].imm, code[5].imm, entry * Pow2(code[3].sh));
      case ByteOffset => SumInNumbers(code[3].imm, code[4].imm, entry);
      case ShortOffset => SumInNumbers(code[4].imm, code[5].imm, entry);
    }
  }

  lemma SumInNumbers(hi: nat, lo: nat, x: nat)
    ensures Low(LisAddi(hi, lo) + x) == (0x1_0000 * hi + lo + x) % 0x1_0000_0000
  {
  }

  /** Where the table is. */
  function TableAddress(kind: Kind, code: seq<Insn>): nat
    requires Matches(kind, code)
  {
    LisAddi(code[0].imm, code[1].imm)
  }

  /**
   Reads the labels of a table whose pattern starts at `at`; `code` is the pattern. Fails on a shift
   that can only come from misread data and on a table that is not mapped.
   */
  method ReadTable(image: Image, kind: Kind, at: nat, code: seq<Insn>, count: nat) returns (labels: Option<seq<nat>>)
    requires Matches(kind, code)
    ensures labels.Some? <==>
            && count > 0
            && image.mapped(at, 24)
            && image.mapped(TableAddress(kind, code), count * kind.EntryWidth().Size())
            && (kind == Computed ==> code[3].sh <= 24)
    ensures labels.Some? ==>
            && |labels.value| == count
            && forall i :: 0 <= i < count ==>
                 labels.value[i] == LabelOf(kind, code, EntryAt(image, TableAddress(kind, code), kind.EntryWidth(), i))
  {
    if count == 0 || !image.mapped(at, 24) {
      return None;
    }
    var offset := LisAddi(code[0].imm, code[1].imm);
    var width := kind.EntryWidth();
    if !image.mapped(offset, count * width.Size()) {
      return None;
    }
    if kind == Computed && code[3].sh > MAX_SHIFT {
      return None;
    }
    var read: seq<nat> := [];
    for i := 0 to count
      invariant |read| == i
      invariant forall j :: 0 <= j < i ==> read[j] == LabelOf(kind, code, EntryAt(image, offset, width, j))
    {
      read := read + [LabelOf(kind, code, EntryAt(image, offset, width, i))];
    }
    return Some(read);
  }

  // ----- what the guest does -----

  type Registers = s: seq<nat> | |s| == 32 && forall k :: 0 <= k < 32 ==> s[k] < WORDS
    witness seq(32, _ => 0)

  datatype Machine = Machine(regs: Registers, ctr: nat) {
    function With(d: Reg, v: nat): Machine
      requires v < WORDS
    {
      this.(regs := regs[d := v])
    }

    /** RA of an instruction that takes r0 for zero. */
    function OrZero(a: Reg): nat { if a == 0 then 0 else regs[a] }
  }

  /** The bits that leave the word at the top come back at the bottom. */
  function RotateLeft(x: nat, n: Bit): nat { Low(Shifted(x, n)) + Shifted(x, n) / WORDS }

  /** Keeps bits mb to me, bit 0 being the highest; around the end if mb is behind me. */
  function Masked(x: nat, mb: Bit, me: Bit): int {
    var upToMe := x - x % Pow2(31 - me);
    var fromMb := x % Pow2(32 - mb);
    if mb <= me then fromMb - x % Pow2(31 - me) else upToMe + fromMb
  }

  function Step(image: Image, m: Machine, insn: Insn): Machine {
    match insn
    case Lis(d, imm) => m.With(d, Low(imm * 0x1_0000))
    case Addi(d, a, imm) => m.With(d, Low(m.OrZero(a) + imm))
    case Rlwinm(d, s, sh, mb, me) => m.With(d, Low(Masked(RotateLeft(m.regs[s], sh), mb, me)))
    case LoadX(d, a, b, width) => m.With(d, Entry(image, Low(m.OrZero(a) + m.regs[b]), width))
    case Add(d, a, b) => m.With(d, Low(m.regs[a] + m.regs[b]))
    case Mtctr(s) => m.(ctr := m.regs[s])
    case _ => m
  }

  /** The machine after the first n instructions. */
  function Run(image: Image, m: Machine, code: seq<Insn>, n: nat): Machine
    requires n <= |code|
  {
    if n == 0 then m else Step(image, Run(image, m, code, n - 1), code[n - 1])
  }

  // ----- patterns as a compiler emits them -----

  predicate Sums(a: Reg, b: Reg, x: Reg, y: Reg) { (a == x && b == y) || (a == y && b == x) }

  /** `lis`, `addi` leave their sum in the register of the `addi`. */
  predicate Pair(lis: Insn, addi: Insn)
    requires lis.Lis? && addi.Addi?
  {
    addi.a == lis.d && lis.d != 0
  }

  /** The table's address is in one register of the load, the scaled index in the other. */
  predicate Indexed(pair: Insn, load: Insn, x: Reg)
    requires pair.Addi? && load.LoadX?
  {
    load.a != 0 && x != pair.d && Sums(load.a, load.b, pair.d, x)
  }

  /** A left shift by n: `slwi`. */
  predicate PlainShift(insn: Insn, n: Bit)
    requires insn.Rlwinm?
  {
    insn.sh == n && insn.mb == 0 && insn.me == 31 - n
  }

  /** Base and offset are added and moved to CTR. */
  predicate Based(lis: Insn, addi: Insn, add: Insn, mtctr: Insn, offset: Reg)
    requires lis.Lis? && addi.Addi? && add.Add? && mtctr.Mtctr?
  {
    && Pair(lis, addi)
    && offset != lis.d && offset != addi.d
    && Sums(add.a, add.b, addi.d, offset)
    && mtctr.s == add.d
  }

  /** The registers of the pattern are chained from the index register r to CTR. */
  predicate Chained(kind: Kind, code: seq<Insn>, r: Reg)
    requires Matches(kind, code)
  {
    && Pair(code[0], code[1])
    && r != code[0].d && r != code[1].d
    && match kind
       case Absolute =>
         && code[2].s == r && PlainShift(code[2], 2) && Indexed(code[1], code[3], code[2].d)
         && code[4].s == code[3].d
       case Computed =>
         && Indexed(code[1], code[2], r) && code[3].s == code[2].d
         && Based(code[4], code[5], code[6], code[7], code[3].d)
       case ByteOffset =>
         && Indexed(code[1], code[2], r)
         && Based(code[3], code[4], code[5], code[6], code[2].d)
       case ShortOffset =>
         && code[2].s == r && PlainShift(code[2], 1) && Indexed(code[1], code[3], code[2].d)
         && Based(code[4], code[5], code[6], code[7], code[3].d)
  }

  lemma PairRuns(image: Image, m: Machine, lis: Insn, addi: Insn)
    requires lis.Lis? && addi.Addi? && Pair(lis, addi)
    ensures var n := Step(image, Step(image, m, lis), addi);
            && n.regs[addi.d] == LisAddi(lis.imm, addi.imm)
            && (forall x: Reg :: x != lis.d && x != addi.d ==> n.regs[x] == m.regs[x])
  {
  }

  lemma IndexedRuns(image: Image, m: Machine, pair: Insn, load: Insn, x: Reg)
    requires pair.Addi? && load.LoadX? && Indexed(pair, load, x)
    ensures Step(image, m, load).regs[load.d] == Entry(image, Low(m.regs[pair.d] + m.regs[x]), load.width)
  {
  }

  lemma BasedRuns(image: Image, m: Machine, lis: Insn, addi: Insn, add: Insn, mtctr: Insn, offset: Reg)
    requires lis.Lis? && addi.Addi? && add.Add? && mtctr.Mtctr? && Based(lis, addi, add, mtctr, offset)
    ensures Step(image, Step(image, Step(image, Step(image, m, lis), addi), add), mtctr).ctr
         == Low(LisAddi(lis.imm, addi.imm) + m.regs[offset])
  {
    PairRuns(image, m, lis, addi);
  }

  // ----- shifts -----

  lemma {:induction false} Pow2Sum(m: nat, n: nat)
    ensures Pow2(m + n) == Pow2(m) * Pow2(n)
  {
    if m > 0 {
      Pow2Sum(m - 1, n);
    }
  }

  lemma Pow2Values()
    ensures Pow2(1) == 2 && Pow2(2) == 4 && Pow2(8) == 0x100 && Pow2(24) == 0x100_0000 && Pow2(32) == WORDS
  {
    assert Pow2(4) == 16;
    Pow2Sum(4, 4);
    Pow2Sum(8, 8);
    Pow2Sum(8, 16);
    Pow2Sum(8, 24);
  }

  /** A mask that only clears what a shift has cleared already. */
  lemma MaskOfShift(x: nat, n: Bit, y: nat)
    requires y == Shifted(x, n) && y < WORDS
    ensures Masked(y, 0, 31 - n) == y
  {
    Pow2Values();
    DivisionIsUnique(y, Pow2(n), x, 0);
    DivisionIsUnique(y, Pow2(32), 0, y);
  }

  lemma IndexFits(x: nat, n: Bit)
    requires x <= 0xFFFF && 1 <= n <= 2
    ensures Shifted(x, n) < WORDS
  {
    Pow2Values();
  }

  /** Indexes are 16 bits wide, as the bound is an unsigned 16-bit immediate. */
  lemma IndexIsScaled(x: nat, n: Bit, mb: Bit, me: Bit)
    requires x <= 0xFFFF && 1 <= n <= 2 && mb == 0 && me == 31 - n
    ensures Shifted(x, n) < WORDS && Low(Masked(RotateLeft(x, n), mb, me)) == Shifted(x, n)
  {
    var y := Shifted(x, n);
    IndexFits(x, n);
    SmallRotates(x, n, y);
    MaskOfShift(x, n, y);
    LowIsSame(y);
  }

  lemma {:induction false} Pow2Grows(m: nat, n: nat)
    requires m <= n
    ensures Pow2(m) <= Pow2(n)
    decreases n
  {
    if m < n {
      Pow2Grows(m, n - 1);
    }
  }

  lemma ProductFits(x: nat, p: nat)
    requires x < 0x100 && p <= 0x100_0000
    ensures x * p < WORDS
  {
    assert x * p <= x * 0x100_0000;
  }

  lemma SmallRotates(x: nat, n: Bit, y: nat)
    requires y == Shifted(x, n) && y < WORDS
    ensures RotateLeft(x, n) == y
  {
    assert y % WORDS == y && y / WORDS == 0;
  }

  /** A byte rotated by at most 24 has only been shifted. */
  lemma RotatedByte(x: Byte, n: Bit)
    requires n <= MAX_SHIFT
    ensures Shifted(x, n) < WORDS
    ensures RotateLeft(x, n) == Shifted(x, n)
  {
    Pow2Grows(n, 24);
    Pow2Values();
    ProductFits(x, Pow2(n));
    SmallRotates(x, n, Shifted(x, n));
  }

  // ----- labels are targets -----

  lemma RunTwo(image: Image, m: Machine, code: seq<Insn>, n: nat)
    requires n + 2 <= |code|
    ensures Run(image, m, code, n + 2) == Step(image, Step(image, Run(image, m, code, n), code[n]), code[n + 1])
  {
    assert Run(image, m, code, n + 1) == Step(image, Run(image, m, code, n), code[n]);
  }

  /** The load of the entry, after the table's address has been made in registers. */
  lemma PlainLoads(image: Image, m: Machine, code: seq<Insn>, r: Reg)
    requires |code| >= 3 && code[0].Lis? && code[1].Addi? && code[2].LoadX? && Pair(code[0], code[1])
    requires r != code[0].d && r != code[1].d && Indexed(code[1], code[2], r)
    ensures Run(image, m, code, 3).regs[code[2].d]
         == Entry(image, Low(LisAddi(code[0].imm, code[1].imm) + m.regs[r]), code[2].width)
  {
    RunTwo(image, m, code, 0);
    PairRuns(image, m, code[0], code[1]);
    IndexedRuns(image, Run(image, m, code, 2), code[1], code[2], r);
    assert Run(image, m, code, 3) == Step(image, Run(image, m, code, 2), code[2]);
  }

  lemma IndexScales(image: Image, m: Machine, insn: Insn, n: Bit)
    requires insn.Rlwinm? && 1 <= n <= 2 && PlainShift(insn, n) && m.regs[insn.s] <= 0xFFFF
    ensures var after := Step(image, m, insn);
            && after.regs[insn.d] == Shifted(m.regs[insn.s], n)
            && forall x: Reg :: x != insn.d ==> after.regs[x] == m.regs[x]
  {
    IndexIsScaled(m.regs[insn.s], insn.sh, insn.mb, insn.me);
  }

  /** The table's address and the scaled index in registers. */
  lemma ScaledReady(image: Image, m: Machine, code: seq<Insn>, n: Bit)
    requires |code| >= 3 && code[0].Lis? && code[1].Addi? && code[2].Rlwinm? && Pair(code[0], code[1])
    requires code[2].s != code[0].d && code[2].s != code[1].d && code[2].d != code[1].d
    requires 1 <= n <= 2 && PlainShift(code[2], n) && m.regs[code[2].s] <= 0xFFFF
    ensures var three := Run(image, m, code, 3);
            && three.regs[code[1].d] == LisAddi(code[0].imm, code[1].imm)
            && three.regs[code[2].d] == Shifted(m.regs[code[2].s], n)
  {
    RunTwo(image, m, code, 0);
    PairRuns(image, m, code[0], code[1]);
    var two := Run(image, m, code, 2);
    IndexScales(image, two, code[2], n);
    assert Run(image, m, code, 3) == Step(image, two, code[2]);
  }

  /** The load of the entry, with the index scaled in between. */
  lemma ScaledLoads(image: Image, m: Machine, code: seq<Insn>, n: Bit)
    requires |code| >= 4 && code[0].Lis? && code[1].Addi? && code[2].Rlwinm? && code[3].LoadX? && Pair(code[0], code[1])
    requires code[2].s != code[0].d && code[2].s != code[1].d
    requires 1 <= n <= 2 && PlainShift(code[2], n) && Indexed(code[1], code[3], code[2].d)
    requires m.regs[code[2].s] <= 0xFFFF
    ensures Run(image, m, code, 4).regs[code[3].d]
         == Entry(image, Low(LisAddi(code[0].imm, code[1].imm) + Shifted(m.regs[code[2].s], n)), code[3].width)
  {
    ScaledReady(image, m, code, n);
    var three := Run(image, m, code, 3);
    IndexedRuns(image, three, code[1], code[3], code[2].d);
    assert Run(image, m, code, 4) == Step(image, three, code[3]);
  }

  /** The value of the offset register when the base is added to it. */
  lemma BaseAdded(image: Image, m: Machine, code: seq<Insn>, n: nat, offset: Reg)
    requires n + 4 == |code| && code[n].Lis? && code[n + 1].Addi? && code[n + 2].Add? && code[n + 3].Mtctr?
    requires Based(code[n], code[n + 1], code[n + 2], code[n + 3], offset)
    ensures Run(image, m, code, |code|).ctr
         == Low(LisAddi(code[n].imm, code[n + 1].imm) + Run(image, m, code, n).regs[offset])
  {
    RunTwo(image, m, code, n);
    RunTwo(image, m, code, n + 2);
    BasedRuns(image, Run(image, m, code, n), code[n], code[n + 1], code[n + 2], code[n + 3], offset);
  }

  /** What the guest computes for an entry: the reader's label but for the mask of the `rlwinm`, which it ignores. */
  function TargetOf(kind: Kind, code: seq<Insn>, entry: nat): nat
    requires Matches(kind, code)
  {
    if kind == Computed then
      Low(LisAddi(code[4].imm, code[5].imm) + Low(Masked(RotateLeft(entry, code[3].sh), code[3].mb, code[3].me)))
    else LabelOf(kind, code, entry)
  }

  lemma EntryAddress(image: Image, p: nat, x: nat, width: Width)
    requires p + x * width.Size() < WORDS
    ensures Entry(image, Low(p + x * width.Size()), width) == EntryAt(image, p, width, x)
  {
  }

  lemma ScaledAddress(image: Image, p: nat, x: nat, n: Bit, width: Width)
    requires Pow2(n) == width.Size() && p + x * width.Size() < WORDS
    ensures Entry(image, Low(p + Shifted(x, n)), width) == EntryAt(image, p, width, x)
  {
    EntryAddress(image, p, x, width);
  }

  /** The entry that is loaded from a scaled index. */
  lemma ScaledEntryLoads(image: Image, m: Machine, code: seq<Insn>, n: Bit, p: nat, x: nat, width: Width)
    requires |code| >= 4 && code[0].Lis? && code[1].Addi? && code[2].Rlwinm? && code[3].LoadX? && Pair(code[0], code[1])
    requires code[2].s != code[0].d && code[2].s != code[1].d
    requires 1 <= n <= 2 && PlainShift(code[2], n) && Indexed(code[1], code[3], code[2].d)
    requires p == LisAddi(code[0].imm, code[1].imm) && x == m.regs[code[2].s] <= 0xFFFF && width == code[3].width
    requires Pow2(n) == width.Size() && p + x * width.Size() < WORDS
    ensures Run(image, m, code, 4).regs[code[3].d] == EntryAt(image, p, width, x)
  {
    ScaledLoads(image, m, code, n);
    ScaledAddress(image, p, x, n, width);
  }

  lemma AbsoluteLoads(image: Image, code: seq<Insn>, m: Machine, r: Reg)
    requires Matches(Absolute, code) && Chained(Absolute, code, r) && m.regs[r] <= 0xFFFF
    requires TableAddress(Absolute, code) + m.regs[r] * 4 < WORDS
    ensures Run(image, m, code, 4).regs[code[3].d] == EntryAt(image, TableAddress(Absolute, code), Four, m.regs[r])
  {
    Pow2Values();
    ScaledEntryLoads(image, m, code, 2, TableAddress(Absolute, code), m.regs[r], Four);
  }

  lemma AbsoluteRuns(image: Image, code: seq<Insn>, m: Machine, r: Reg)
    requires Matches(Absolute, code) && Chained(Absolute, code, r) && m.regs[r] <= 0xFFFF
    requires TableAddress(Absolute, code) + m.regs[r] * 4 < WORDS
    ensures Run(image, m, code, |code|).ctr == EntryAt(image, TableAddress(Absolute, code), Four, m.regs[r])
  {
    AbsoluteLoads(image, code, m, r);
    RunTwo(image, m, code, 4);
    assert code[4].s == code[3].d;
  }

  lemma ComputedRuns(image: Image, code: seq<Insn>, m: Machine, r: Reg)
    requires Matches(Computed, code) && Chained(Computed, code, r)
    requires TableAddress(Computed, code) + m.regs[r] < WORDS
    ensures Run(image, m, code, |code|).ctr
         == TargetOf(Computed, code, EntryAt(image, TableAddress(Computed, code), One, m.regs[r]))
  {
    PlainLoads(image, m, code, r);
    EntryAddress(image, TableAddress(Computed, code), m.regs[r], One);
    assert Run(image, m, code, 3).regs[code[2].d] == EntryAt(image, TableAddress(Computed, code), One, m.regs[r]);
    BaseAdded(image, m, code, 4, code[3].d);
    assert Run(image, m, code, 4) == Step(image, Run(image, m, code, 3), code[3]);
  }

  lemma ByteOffsetRuns(image: Image, code: seq<Insn>, m: Machine, r: Reg)
    requires Matches(ByteOffset, code) && Chained(ByteOffset, code, r)
    requires TableAddress(ByteOffset, code) + m.regs[r] < WORDS
    ensures Run(image, m, code, |code|).ctr
         == TargetOf(ByteOffset, code, EntryAt(image, TableAddress(ByteOffset, code), One, m.regs[r]))
  {
    PlainLoads(image, m, code, r);
    EntryAddress(image, TableAddress(ByteOffset, code), m.regs[r], One);
    BaseAdded(image, m, code, 3, code[2].d);
  }

  lemma ShortOffsetLoads(image: Image, code: seq<Insn>, m: Machine, r: Reg)
    requires Matches(ShortOffset, code) && Chained(ShortOffset, code, r) && m.regs[r] <= 0xFFFF
    requires TableAddress(ShortOffset, code) + m.regs[r] * 2 < WORDS
    ensures Run(image, m, code, 4).regs[code[3].d] == EntryAt(image, TableAddress(ShortOffset, code), Two, m.regs[r])
  {
    Pow2Values();
    ScaledEntryLoads(image, m, code, 1, TableAddress(ShortOffset, code), m.regs[r], Two);
  }

  lemma ShortOffsetTarget(code: seq<Insn>, entry: nat)
    requires Matches(ShortOffset, code)
    ensures TargetOf(ShortOffset, code, entry) == Low(LisAddi(code[4].imm, code[5].imm) + entry)
  {
  }

  /** CTR behind the pattern, from the value of the offset register. */
  lemma BasedOn(image: Image, m: Machine, code: seq<Insn>, n: nat, offset: Reg, v: nat)
    requires n + 4 == |code| && code[n].Lis? && code[n + 1].Addi? && code[n + 2].Add? && code[n + 3].Mtctr?
    requires Based(code[n], code[n + 1], code[n + 2], code[n + 3], offset)
    requires Run(image, m, code, n).regs[offset] == v
    ensures Run(image, m, code, |code|).ctr == Low(LisAddi(code[n].imm, code[n + 1].imm) + v)
  {
    BaseAdded(image, m, code, n, offset);
  }

  lemma ShortOffsetChain(code: seq<Insn>, r: Reg)
    requires Matches(ShortOffset, code) && Chained(ShortOffset, code, r)
    ensures Based(code[4], code[5], code[6], code[7], code[3].d)
  {
  }

  lemma ShortOffsetBased(image: Image, code: seq<Insn>, m: Machine, r: Reg, entry: nat)
    requires Matches(ShortOffset, code) && Chained(ShortOffset, code, r)
    requires Run(image, m, code, 4).regs[code[3].d] == entry
    ensures Run(image, m, code, |code|).ctr == Low(LisAddi(code[4].imm, code[5].imm) + entry)
  {
    ShortOffsetChain(code, r);
    BasedOn(image, m, code, 4, code[3].d, entry);
  }

  lemma ShortOffsetRuns(image: Image, code: seq<Insn>, m: Machine, r: Reg)
    requires Matches(ShortOffset, code) && Chained(ShortOffset, code, r) && m.regs[r] <= 0xFFFF
    requires TableAddress(ShortOffset, code) + m.regs[r] * 2 < WORDS
    ensures Run(image, m, code, |code|).ctr
         == TargetOf(ShortOffset, code, EntryAt(image, TableAddress(ShortOffset, code), Two, m.regs[r]))
  {
    ShortOffsetLoads(image, code, m, r);
    var entry := EntryAt(image, TableAddress(ShortOffset, code), Two, m.regs[r]);
    ShortOffsetBased(image, code, m, r, entry);
    ShortOffsetTarget(code, entry);
  }

  /** The whole pattern, run on an index. */
  lemma PatternRuns(image: Image, kind: Kind, code: seq<Insn>, m: Machine, r: Reg)
    requires Matches(kind, code) && Chained(kind, code, r) && m.regs[r] <= 0xFFFF
    requires TableAddress(kind, code) + m.regs[r] * kind.EntryWidth().Size() < WORDS
    ensures Run(image, m, code, |code|).ctr
         == TargetOf(kind, code, EntryAt(image, TableAddress(kind, code), kind.EntryWidth(), m.regs[r]))
  {
    match kind {
      case Absolute => AbsoluteRuns(image, code, m, r);
      case Computed => ComputedRuns(image, code, m, r);
      case ByteOffset => ByteOffsetRuns(image, code, m, r);
      case ShortOffset => ShortOffsetRuns(image, code, m, r);
    }
  }

  /** The mask of the second `rlwinm` keeps what the shift leaves of the entry. */
  predicate MaskKeeps(insn: Insn, entry: nat)
    requires insn.Rlwinm?
  {
    Masked(Shifted(entry, insn.sh), insn.mb, insn.me) == Shifted(entry, insn.sh)
  }

  lemma LowSumsDiffer(base: nat, x: int, y: int)
    requires 0 <= x < WORDS && 0 <= y < WORDS
    ensures Low(base + x) == Low(base + y) <==> x == y
  {
  }

  lemma SmallMultiple(p: int, d: int)
    requires -p < p * d < p
    ensures d == 0
  {
  }

  lemma DivisionIsUnique(x: nat, p: nat, q: nat, r: nat)
    requires r < p && x == p * q + r
    ensures x / p == q && x % p == r
  {
    var d := x / p - q;
    assert p * d == r - x % p;
    SmallMultiple(p, d);
  }

  lemma RemainderOfSum(y: nat, p: nat, n: nat)
    requires p > 0
    ensures (y + p * n) % p == y % p
  {
    assert y + p * n == p * (y / p + n) + y % p;
    DivisionIsUnique(y + p * n, p, y / p + n, y % p);
  }

  lemma RemainderShrinks(x: nat, p: nat)
    requires p > 0
    ensures x % p <= x
  {
    if x < p {
      DivisionIsUnique(x, p, 0, x);
    }
  }

  lemma ProductAssociates(x: nat, y: nat, z: nat)
    ensures x * (y * z) == (x * y) * z
  {
  }

  /** The remainder by a multiple q = p * k is no smaller. */
  lemma RemainderGrows(x: nat, p: nat, k: nat, q: nat)
    requires p > 0 && q > 0 && q == p * k
    ensures x % p <= x % q
  {
    var y := x % q;
    ProductAssociates(p, k, x / q);
    assert x == y + p * (k * (x / q));
    RemainderOfSum(y, p, k * (x / q));
    RemainderShrinks(y, p);
  }

  lemma PowerRemainders(x: nat, m: nat, n: nat)
    requires m <= n
    ensures x % Pow2(m) <= x % Pow2(n) <= x
  {
    Pow2Sum(m, n - m);
    RemainderGrows(x, Pow2(m), Pow2(n - m), Pow2(n));
    RemainderShrinks(x, Pow2(n));
  }

  /** Masking only clears bits. */
  lemma MaskedFits(x: nat, mb: Bit, me: Bit)
    ensures 0 <= Masked(x, mb, me) <= x
  {
    if mb <= me {
      PowerRemainders(x, 31 - me, 32 - mb);
    } else {
      PowerRemainders(x, 32 - mb, 31 - me);
    }
  }

  lemma ComputedLabel(base: nat, entry: Byte, sh: Bit, mb: Bit, me: Bit)
    requires sh <= MAX_SHIFT
    ensures Low(base + Shifted(entry, sh)) == Low(base + Low(Masked(RotateLeft(entry, sh), mb, me)))
        <==> Masked(Shifted(entry, sh), mb, me) == Shifted(entry, sh)
  {
    RotatedByte(entry, sh);
    var x := Shifted(entry, sh);
    var y := Masked(x, mb, me);
    MaskedFits(x, mb, me);
    LowIsSame(y);
    LowSumsDiffer(base, x, y);
  }

  lemma LowIsSame(x: nat)
    requires x < WORDS
    ensures Low(x) == x
  {
  }

  /** The label of an entry is what the guest computes, if and only if the mask keeps the shifted entry. */
  lemma LabelIsTarget(kind: Kind, code: seq<Insn>, entry: nat)
    requires Matches(kind, code)
    requires kind == Computed ==> entry < 0x100 && code[3].sh <= MAX_SHIFT
    ensures LabelOf(kind, code, entry) == TargetOf(kind, code, entry)
        <==> kind == Computed ==> MaskKeeps(code[3], entry)
  {
    if kind == Computed {
      ComputedLabel(LisAddi(code[4].imm, code[5].imm), entry, code[3].sh, code[3].mb, code[3].me);
    }
  }

  /** Everything that is mapped lies below 2^32. */
  ghost predicate Wide(image: Image) { forall a: nat, n: nat :: image.mapped(a, n) ==> a + n <= WORDS }

  lemma EntryIsMapped(p: nat, count: nat, x: nat, width: Width)
    requires x < count && p + count * width.Size() <= WORDS
    ensures p + x * width.Size() < WORDS
  {
  }

  /**
   The main result on tables: with the registers chained as compiled, label number x is where the
   guest's `bctr` goes on index x, if and only if the mask of a computed table keeps the entry.
   */
  lemma LabelsAreTargets(image: Image, kind: Kind, code: seq<Insn>, m: Machine, r: Reg, labels: seq<nat>)
    requires Matches(kind, code) && Chained(kind, code, r) && Wide(image)
    requires image.mapped(TableAddress(kind, code), |labels| * kind.EntryWidth().Size())
    requires |labels| <= 0x1_0000 && m.regs[r] < |labels|
    requires kind == Computed ==> code[3].sh <= MAX_SHIFT
    requires forall i :: 0 <= i < |labels| ==>
               labels[i] == LabelOf(kind, code, EntryAt(image, TableAddress(kind, code), kind.EntryWidth(), i))
    ensures labels[m.regs[r]] == Run(image, m, code, |code|).ctr <==>
            kind == Computed ==> MaskKeeps(code[3], EntryAt(image, TableAddress(kind, code), One, m.regs[r]))
  {
    EntryIsMapped(TableAddress(kind, code), |labels|, m.regs[r], kind.EntryWidth());
    PatternRuns(image, kind, code, m, r);
    LabelIsTarget(kind, code, EntryAt(image, TableAddress(kind, code), kind.EntryWidth(), m.regs[r]));
  }

  /** Compiled as `slwi`, the mask of a computed table keeps every entry. */
  lemma PlainShiftKeeps(insn: Insn, entry: Byte)
    requires insn.Rlwinm? && insn.sh <= MAX_SHIFT && PlainShift(insn, insn.sh)
    ensures MaskKeeps(insn, entry)
  {
    RotatedByte(entry, insn.sh);
    MaskOfShift(entry, insn.sh, Shifted(entry, insn.sh));
  }
}
