/**
 What the entries of the register save and restore routines do to registers and memory, in the widths of
 the emitted code: registers of 64 bits, memory of bytes, addresses of 32 bits.
 */
module HelperRuns {
  import opened Wrappers
  import opened PpcWord
  import opened CrtHelpers

  // ----- bytes -----

  type Memory = int -> Byte

  /** Big-endian. */
  function Load(memory: Memory, a: int, n: nat): nat {
    if n == 0 then 0 else 256 * Load(memory, a, n - 1) + memory(a + n - 1)
  }

  /** The first byte is the highest. */
  lemma LoadsWords(memory: Memory, a: int)
    ensures Load(memory, a, 4)
         == 0x100_0000 * memory(a) as int + 0x1_0000 * memory(a + 1) as int + 0x100 * memory(a + 2) as int + memory(a + 3)
    ensures Load(memory, a, 8) == 0x1_0000_0000 * Load(memory, a, 4) + Load(memory, a + 4, 4)
  {
    LoadsLast(memory, a, 0, 1);
    LoadsLast(memory, a, 1, 2);
    LoadsLast(memory, a, 2, 3);
    LoadsLast(memory, a, 3, 4);
    LoadsLast(memory, a, 4, 5);
    LoadsLast(memory, a, 5, 6);
    LoadsLast(memory, a, 6, 7);
    LoadsLast(memory, a, 7, 8);
    LoadsLast(memory, a + 4, 0, 1);
    LoadsLast(memory, a + 4, 1, 2);
    LoadsLast(memory, a + 4, 2, 3);
    LoadsLast(memory, a + 4, 3, 4);
  }

  lemma LoadsLast(memory: Memory, a: int, n: nat, next: nat)
    requires next == n + 1
    ensures Load(memory, a, next) == 0x100 * Load(memory, a, n) + memory(a + n) as int
  {
  }

  function With(memory: Memory, a: int, b: Byte): Memory { x => if x == a then b else memory(x) }

  function Store(memory: Memory, a: int, n: nat, v: nat): Memory {
    if n == 0 then memory else With(Store(memory, a, n - 1, v / 256), a + n - 1, v % 256)
  }

  function Modulus(n: nat): (m: nat)
    ensures m > 0
  {
    if n == 0 then 1 else 256 * Modulus(n - 1)
  }

  lemma {:induction false} StoredElsewhere(memory: Memory, a: int, n: nat, v: nat, x: int)
    requires x < a || a + n <= x
    ensures Store(memory, a, n, v)(x) == memory(x)
  {
    if n > 0 {
      StoredElsewhere(memory, a, n - 1, v / 256, x);
    }
  }

  lemma {:induction false} LoadsAgree(memory: Memory, other: Memory, a: int, n: nat)
    requires forall x :: a <= x < a + n ==> memory(x) == other(x)
    ensures Load(memory, a, n) == Load(other, a, n)
  {
    if n > 0 {
      LoadsAgree(memory, other, a, n - 1);
    }
  }

  /** What is loaded is what was stored, cut to the width of the access. */
  lemma {:induction false} StoredIsLoaded(memory: Memory, a: int, n: nat, v: nat)
    ensures Load(Store(memory, a, n, v), a, n) == v % Modulus(n)
  {
    if n > 0 {
      var rest := Store(memory, a, n - 1, v / 256);
      StoredIsLoaded(memory, a, n - 1, v / 256);
      LoadsAgree(Store(memory, a, n, v), rest, a, n - 1);
      JoinedMod(v, Modulus(n - 1));
    }
  }

  lemma JoinedMod(v: nat, p: nat)
    requires p > 0
    ensures 256 * (v / 256 % p) + v % 256 == v % (256 * p)
  {
    var q, r := v / 256, v % 256;
    var t, u := q / p, q % p;
    JoinedParts(v, q, r, p, t, u);
    ModOf(v, 256 * p, t, 256 * u + r);
  }

  lemma JoinedParts(v: nat, q: nat, r: nat, p: nat, t: nat, u: nat)
    requires v == 256 * q + r && q == p * t + u && u < p && r < 256
    ensures v == 256 * p * t + (256 * u + r) && 256 * u + r < 256 * p
  {
  }

  lemma ModOf(v: nat, m: nat, t: nat, w: nat)
    requires w < m && v == m * t + w
    ensures v % m == w
  {
    var q := v / m;
    var d := t - q;
    Distributed(m, t, q);
    if d > 0 {
      Bigger(m, d);
    } else if d < 0 {
      Bigger(m, -d);
    }
  }

  lemma Distributed(m: nat, t: nat, q: nat)
    ensures m * (t - q) == m * t - m * q && m * (q - t) == m * q - m * t
  {
  }

  lemma Bigger(m: nat, d: nat)
    requires d > 0
    ensures m * d >= m
  {
  }

  lemma Widths()
    ensures Modulus(4) == 0x1_0000_0000 && Modulus(8) == 0x1_0000_0000_0000_0000
  {
    assert Modulus(2) == 0x1_0000;
    assert Modulus(3) == 0x100_0000;
    assert Modulus(4) == 0x1_0000_0000;
    assert Modulus(5) == 0x100_0000_0000;
    assert Modulus(6) == 0x1_0000_0000_0000;
    assert Modulus(7) == 0x100_0000_0000_0000;
  }

  // ----- instructions -----

  /** lwz, stw; ld, std; lfd, stfd. */
  datatype Bank = Word | Double | Float

  /** Bytes that an access moves. */
  function Size(bank: Bank): nat { if bank == Bank.Word then 4 else 8 }

  datatype Insn = Access(load: bool, bank: Bank, reg: nat, base: bv32, disp: int) | Other

  function Decode(w: Word): Insn { DecodeFields(Op(w), w & 3, Rt(w), Ra(w), Simm(w), Ds(w)) }

  function DecodeFields(op: bv32, low: bv32, rt: nat, ra: bv32, simm: int, ds: int): Insn {
    match op
    case 32 => Access(true, Bank.Word, rt, ra, simm)
    case 36 => Access(false, Bank.Word, rt, ra, simm)
    case 50 => Access(true, Float, rt, ra, simm)
    case 54 => Access(false, Float, rt, ra, simm)
    case 58 => if low == 0 then Access(true, Double, rt, ra, ds) else Other
    case 62 => if low == 0 then Access(false, Double, rt, ra, ds) else Other
    case _ => Other
  }

  function MatcherOf(bank: Bank, load: bool, base: bv32): Matcher {
    if bank.Float? then Fpr(load, base) else Gpr(load, bank.Double?, base)
  }

  /** A word that the detection accepts is the access that it takes it for. */
  lemma AcceptedIsAccess(w: PpcWord.Word, load: bool, bank: Bank, base: bv32, reg: nat)
    requires MatcherOf(bank, load, base).accepts(w, reg)
    ensures Decode(w) == Access(load, bank, reg, base, MatcherOf(bank, load, base).displacement(w))
  {
    match bank {
      case Word => AcceptedWord(w, load, base, reg);
      case Double => AcceptedDouble(w, load, base, reg);
      case Float => AcceptedFloat(w, load, base, reg);
    }
  }

  lemma AcceptedWord(w: PpcWord.Word, load: bool, base: bv32, reg: nat)
    requires Gpr(load, false, base).accepts(w, reg)
    ensures Decode(w) == Access(load, Bank.Word, reg, base, Simm(w))
  {
  }

  lemma AcceptedDouble(w: PpcWord.Word, load: bool, base: bv32, reg: nat)
    requires Gpr(load, true, base).accepts(w, reg)
    ensures Decode(w) == Access(load, Double, reg, base, Ds(w))
  {
  }

  lemma AcceptedFloat(w: PpcWord.Word, load: bool, base: bv32, reg: nat)
    requires Fpr(load, base).accepts(w, reg)
    ensures Decode(w) == Access(load, Float, reg, base, Simm(w))
  {
  }

  // ----- the machine -----

  datatype Machine = Machine(gpr: seq<nat>, fpr: seq<nat>, memory: Memory) {
    ghost predicate Valid() {
      && |gpr| == 32 && |fpr| == 32
      && (forall r :: 0 <= r < 32 ==> gpr[r] < 0x1_0000_0000_0000_0000)
      && (forall r :: 0 <= r < 32 ==> fpr[r] < 0x1_0000_0000_0000_0000)
    }

    function Regs(bank: Bank): seq<nat> { if bank.Float? then fpr else gpr }

    function WithReg(bank: Bank, r: nat, v: nat): Machine
      requires r < |Regs(bank)|
    {
      if bank.Float? then this.(fpr := fpr[r := v]) else this.(gpr := gpr[r := v])
    }
  }

  function IndexOf(base: bv32): (r: nat)
    ensures r < 32
  {
    ((base & 0x1F) as bv5) as nat
  }

  /** Base register 0 stands for no base, and then nothing cuts the displacement to 32 bits. */
  function Ea(noBase: bool, x: nat, disp: int): int {
    if noBase then disp else (x % 0x1_0000_0000 + disp) % 0x1_0000_0000
  }

  function EaOf(m: Machine, base: bv32, disp: int): int
    requires |m.gpr| == 32
  {
    Ea(base == 0, m.gpr[IndexOf(base)], disp)
  }

  function Step(m: Machine, insn: Insn): Machine
    requires |m.gpr| == 32 && |m.fpr| == 32
  {
    match insn
    case Access(load, bank, r, base, disp) =>
      var a := EaOf(m, base, disp);
      if r >= 32 then m
      else if load then m.WithReg(bank, r, Load(m.memory, a, Size(bank)))
      else m.(memory := Store(m.memory, a, Size(bank), m.Regs(bank)[r]))
    case Other => m
  }

  /** The routine whose first access is at `at`, entered for register r. */
  function RunEntry(m: Machine, code: seq<Insn>, at: nat, r: nat): Machine
    requires 14 <= r <= 32 && at + GPRS <= |code| && |m.gpr| == 32 && |m.fpr| == 32
    decreases 32 - r
  {
    if r == 32 then m else RunEntry(Step(m, code[at + r - 14]), code, at, r + 1)
  }

  // ----- runs -----

  /** Where register r's cell lies, relative to register 14's. */
  function Offset(bank: Bank, r: int): int { if bank == Bank.Word then 4 * (r - 14) else 8 * (r - 14) }

  /** Accesses to registers 14 to 31 and their cells; integer registers are not restored over the base register. */
  ghost predicate IsRun(code: seq<Insn>, at: nat, load: bool, bank: Bank, base: bv32, disp: int) {
    && at + GPRS <= |code|
    && (bank.Float? || IndexOf(base) < 14)
    && forall i :: at <= i < at + GPRS ==> RunInsn(code[i], at, i, load, bank, base, disp)
  }

  function Decoded(words: seq<PpcWord.Word>): (code: seq<Insn>)
    ensures |code| == |words| && forall i :: 0 <= i < |words| ==> code[i] == Decode(words[i])
  {
    seq(|words|, i requires 0 <= i < |words| => Decode(words[i]))
  }

  /** Instruction i is the access that a run at `at` has there. */
  ghost predicate RunInsn(insn: Insn, at: nat, i: nat, load: bool, bank: Bank, base: bv32, disp: int)
    requires at <= i
  {
    insn == Access(load, bank, i - at + 14, base, disp + Offset(bank, i - at + 14))
  }

  lemma FoundInsn(w: PpcWord.Word, at: nat, i: nat, load: bool, bank: Bank, base: bv32, m: Matcher, disp: int)
    requires m == MatcherOf(bank, load, base) && at <= i
    requires m.accepts(w, i - at + 14) && m.displacement(w) == disp + (i - at) * m.stride
    ensures RunInsn(Decode(w), at, i, load, bank, base, disp)
  {
    AcceptedIsAccess(w, load, bank, base, i - at + 14);
    assert m.stride == Size(bank);
  }

  lemma FoundInsnAt(words: seq<PpcWord.Word>, at: nat, i: nat, load: bool, bank: Bank, base: bv32, m: Matcher)
    requires m == MatcherOf(bank, load, base) && at < |words| && RegisterRun(words, at, 14, GPRS, m)
    requires at <= i < at + GPRS
    ensures i < |words| && RunInsn(Decode(words[i]), at, i, load, bank, base, m.displacement(words[at]))
  {
    assert AccessAt(words, at, i - at, 14, m, m.displacement(words[at]));
    assert at + (i - at) == i;
    FoundInsn(words[i], at, i, load, bank, base, m, m.displacement(words[at]));
  }

  lemma FoundRun(words: seq<PpcWord.Word>, at: nat, load: bool, bank: Bank, base: bv32, m: Matcher)
    requires m == MatcherOf(bank, load, base) && at < |words| && RegisterRun(words, at, 14, GPRS, m)
    requires bank.Float? || IndexOf(base) < 14
    ensures IsRun(Decoded(words), at, load, bank, base, m.displacement(words[at]))
  {
    AcceptedAt(words, at, 14, m, GPRS - 1);
    forall i | at <= i < at + GPRS
      ensures RunInsn(Decoded(words)[i], at, i, load, bank, base, m.displacement(words[at]))
    {
      FoundInsnAt(words, at, i, load, bank, base, m);
    }
  }

  /** The routines that the detection finds are runs in this sense. */
  lemma FoundIsRun(h: Helper, words: seq<PpcWord.Word>, i: nat)
    requires i < |words| && StartsAt(h, words, i)
    ensures h.RestGpr? || h.SaveGpr? ==>
              || IsRun(Decoded(words), i, h.Loads(), Double, 1, Ds(words[i]))
              || IsRun(Decoded(words), i, h.Loads(), Bank.Word, 1, Simm(words[i]))
    ensures h.RestFpr? || h.SaveFpr? ==> IsRun(Decoded(words), i, h.Loads(), Float, Ra(words[i]), Simm(words[i]))
  {
    if h.RestGpr? || h.SaveGpr? {
      StackPointer();
      var double := RegisterRun(words, i, 14, GPRS, Gpr(h.Loads(), true, 1));
      FoundRun(words, i, h.Loads(), if double then Double else Bank.Word, 1, Gpr(h.Loads(), double, 1));
    } else if h.RestFpr? || h.SaveFpr? {
      FoundRun(words, i, h.Loads(), Float, Ra(words[i]), Fpr(h.Loads(), Ra(words[i])));
    }
  }

  /** The opcode of an access. */
  function OpcodeOf(load: bool, bank: Bank): bv32 {
    match bank
    case Word => if load then 32 else 36
    case Float => if load then 50 else 54
    case Double => if load then 58 else 62
  }

  lemma FieldsOfAccess(op: bv32, low: bv32, rt: nat, ra: bv32, simm: int, ds: int,
                       load: bool, bank: Bank, base: bv32, reg: nat, disp: int)
    requires DecodeFields(op, low, rt, ra, simm, ds) == Access(load, bank, reg, base, disp)
    ensures op == OpcodeOf(load, bank) && rt == reg && ra == base && (bank.Double? ==> low == 0)
    ensures disp == if bank.Double? then ds else simm
  {
  }

  lemma AcceptsWord(w: PpcWord.Word, load: bool, base: bv32, reg: nat)
    requires Op(w) == OpcodeOf(load, Bank.Word) && Rt(w) == reg && Ra(w) == base
    ensures Gpr(load, false, base).accepts(w, reg) && Gpr(load, false, base).displacement(w) == Simm(w)
  {
  }

  lemma AcceptsDouble(w: PpcWord.Word, load: bool, base: bv32, reg: nat)
    requires Op(w) == OpcodeOf(load, Double) && w & 3 == 0 && Rt(w) == reg && Ra(w) == base
    ensures Gpr(load, true, base).accepts(w, reg) && Gpr(load, true, base).displacement(w) == Ds(w)
  {
  }

  lemma AcceptsFloat(w: PpcWord.Word, load: bool, base: bv32, reg: nat)
    requires Op(w) == OpcodeOf(load, Float) && Rt(w) == reg && Ra(w) == base
    ensures Fpr(load, base).accepts(w, reg) && Fpr(load, base).displacement(w) == Simm(w)
  {
  }

  lemma AccessIsAccepted(w: PpcWord.Word, load: bool, bank: Bank, base: bv32, reg: nat, m: Matcher, disp: int)
    requires m == MatcherOf(bank, load, base) && Decode(w) == Access(load, bank, reg, base, disp)
    ensures m.accepts(w, reg) && m.displacement(w) == disp
  {
    FieldsOfAccess(Op(w), w & 3, Rt(w), Ra(w), Simm(w), Ds(w), load, bank, base, reg, disp);
    match bank {
      case Word => AcceptsWord(w, load, base, reg);
      case Double => AcceptsDouble(w, load, base, reg);
      case Float => AcceptsFloat(w, load, base, reg);
    }
  }

  lemma OffsetIsStride(load: bool, bank: Bank, base: bv32, m: Matcher, k: nat)
    requires m == MatcherOf(bank, load, base)
    ensures Offset(bank, 14 + k) == k * m.stride
  {
    assert m.stride == Size(bank);
  }

  lemma AccessHolds(words: seq<PpcWord.Word>, at: nat, k: nat, i: nat, m: Matcher, disp: int, d: int)
    requires i == at + k < |words| && m.accepts(words[i], 14 + k) && m.displacement(words[i]) == d
    requires d == disp + k * m.stride
    ensures AccessAt(words, at, k, 14, m, disp)
  {
  }

  lemma RunInsnIsAccepted(words: seq<PpcWord.Word>, at: nat, k: nat, i: nat, load: bool, bank: Bank, base: bv32,
                          m: Matcher,
                          disp: int, d: int)
    requires m == MatcherOf(bank, load, base) && i == at + k < |words| && d == disp + Offset(bank, 14 + k)
    requires Decode(words[i]) == Access(load, bank, 14 + k, base, d)
    ensures AccessAt(words, at, k, 14, m, disp)
  {
    AccessIsAccepted(words[i], load, bank, base, 14 + k, m, d);
    OffsetIsStride(load, bank, base, m, k);
    AccessHolds(words, at, k, i, m, disp, d);
  }

  lemma RunIsRegisterRun(words: seq<PpcWord.Word>, at: nat, load: bool, bank: Bank, base: bv32, m: Matcher, disp: int)
    requires m == MatcherOf(bank, load, base)
    requires at < |words| && IsRun(Decoded(words), at, load, bank, base, disp)
    ensures RegisterRun(words, at, 14, GPRS, m) && m.accepts(words[at], 14)
  {
    forall k: nat | k < GPRS
      ensures AccessAt(words, at, k, 14, m, disp)
    {
      var i := at + k;
      assert RunInsn(Decoded(words)[i], at, i, load, bank, base, disp);
      assert i - at + 14 == 14 + k;
      RunInsnIsAccepted(words, at, k, i, load, bank, base, m, disp, disp + Offset(bank, 14 + k));
    }
    assert AccessAt(words, at, 0, 14, m, disp);
  }

  ghost predicate IsGprRun(words: seq<PpcWord.Word>, i: nat, load: bool, disp: int) {
    IsRun(Decoded(words), i, load, Double, 1, disp) || IsRun(Decoded(words), i, load, Bank.Word, 1, disp)
  }

  ghost predicate IsFprRun(words: seq<PpcWord.Word>, i: nat, load: bool, base: bv32, disp: int) {
    IsRun(Decoded(words), i, load, Float, base, disp)
  }

  /** And all runs are found. */
  lemma RunsAreFoundExactly(h: Helper, words: seq<PpcWord.Word>, i: nat)
    requires i < |words|
    ensures h.RestGpr? || h.SaveGpr? ==> (StartsAt(h, words, i) <==> exists disp :: IsGprRun(words, i, h.Loads(), disp))
    ensures h.RestFpr? || h.SaveFpr? ==> (StartsAt(h, words, i) <==> exists base, disp :: IsFprRun(words, i, h.Loads(), base, disp))
  {
    if StartsAt(h, words, i) {
      FoundIsRun(h, words, i);
      if h.RestGpr? || h.SaveGpr? {
        assert IsGprRun(words, i, h.Loads(), Ds(words[i])) || IsGprRun(words, i, h.Loads(), Simm(words[i]));
      } else if h.RestFpr? || h.SaveFpr? {
        assert IsFprRun(words, i, h.Loads(), Ra(words[i]), Simm(words[i]));
      }
    }
    if h.RestGpr? || h.SaveGpr? {
      forall disp | IsGprRun(words, i, h.Loads(), disp)
        ensures StartsAt(h, words, i)
      {
        GprRunIsFound(h, words, i, disp);
      }
    } else if h.RestFpr? || h.SaveFpr? {
      forall base, disp | IsFprRun(words, i, h.Loads(), base, disp)
        ensures StartsAt(h, words, i)
      {
        FprRunIsFound(h, words, i, base, disp);
      }
    }
  }

  lemma GprRunIsFound(h: Helper, words: seq<PpcWord.Word>, i: nat, disp: int)
    requires (h.RestGpr? || h.SaveGpr?) && i < |words| && IsGprRun(words, i, h.Loads(), disp)
    ensures StartsAt(h, words, i)
  {
    if IsRun(Decoded(words), i, h.Loads(), Double, 1, disp) {
      RunIsRegisterRun(words, i, h.Loads(), Double, 1, Gpr(h.Loads(), true, 1), disp);
    } else {
      RunIsRegisterRun(words, i, h.Loads(), Bank.Word, 1, Gpr(h.Loads(), false, 1), disp);
    }
  }

  lemma FprRunIsFound(h: Helper, words: seq<PpcWord.Word>, i: nat, base: bv32, disp: int)
    requires (h.RestFpr? || h.SaveFpr?) && i < |words| && IsFprRun(words, i, h.Loads(), base, disp)
    ensures StartsAt(h, words, i)
  {
    RunIsRegisterRun(words, i, h.Loads(), Float, base, Fpr(h.Loads(), base), disp);
    assert Ra(words[i]) == base;
  }

  lemma StackPointer()
    ensures IndexOf(1) == 1
  {
  }

  /** The cell of register r. */
  function CellOf(m: Machine, bank: Bank, base: bv32, disp: int, r: int): int
    requires |m.gpr| == 32
  {
    EaOf(m, base, disp + Offset(bank, r))
  }

  ghost predicate InCell(m: Machine, bank: Bank, base: bv32, disp: int, r: int, x: int)
    requires |m.gpr| == 32
  {
    CellOf(m, bank, base, disp, r) <= x < CellOf(m, bank, base, disp, r) + Size(bank)
  }

  lemma ModApart(s: int, d: int)
    requires 0 < d < 0x1_0000_0000
    ensures var diff := (s + d) % 0x1_0000_0000 - s % 0x1_0000_0000; diff == d || diff == d - 0x1_0000_0000
  {
  }

  lemma EasApart(noBase: bool, x: nat, disp: int, d: int, size: nat)
    requires 0 < size <= d <= 0x1_0000_0000 - size
    ensures var a, b := Ea(noBase, x, disp), Ea(noBase, x, disp + d); a + size <= b || b + size <= a
  {
    ModApart(x % 0x1_0000_0000 + disp, d);
  }

  lemma CellsApart(m: Machine, bank: Bank, base: bv32, disp: int, j: int, r: int, x: int)
    requires |m.gpr| == 32 && 14 <= j < r < 32
    ensures !(InCell(m, bank, base, disp, j, x) && InCell(m, bank, base, disp, r, x))
  {
    EasApart(base == 0, m.gpr[IndexOf(base)], disp + Offset(bank, j), Offset(bank, r) - Offset(bank, j), Size(bank));
  }

  // ----- what the entries do -----

  /** Registers in front of r in the bank, the other bank and memory are as before. */
  ghost predicate OthersKept(m: Machine, after: Machine, bank: Bank, r: nat)
    requires r <= 32
  {
    && |after.gpr| == |m.gpr| == 32 && |after.fpr| == |m.fpr| == 32
    && after.memory == m.memory
    && (bank.Float? ==> after.gpr == m.gpr)
    && (!bank.Float? ==> after.fpr == m.fpr)
    && after.Regs(bank)[..r] == m.Regs(bank)[..r]
  }

  /** Registers r to 31 hold what their cells do. */
  ghost predicate Loaded(m: Machine, after: Machine, bank: Bank, base: bv32, disp: int, r: nat)
    requires |m.gpr| == 32 && |after.Regs(bank)| == 32
  {
    forall i :: r <= i < 32 ==>
      after.Regs(bank)[i] == Load(m.memory, CellOf(m, bank, base, disp, i), Size(bank))
  }

  /** The entry for register r of a restore loads that register and those behind it from their cells, and no others. */
  lemma {:induction false} EntryLoads(m: Machine, code: seq<Insn>, at: nat, bank: Bank, base: bv32, disp: int, r: nat)
    requires IsRun(code, at, true, bank, base, disp) && 14 <= r <= 32 && |m.gpr| == 32 && |m.fpr| == 32
    ensures OthersKept(m, RunEntry(m, code, at, r), bank, r)
    ensures Loaded(m, RunEntry(m, code, at, r), bank, base, disp, r)
    decreases 32 - r
  {
    if r < 32 {
      var next := m.WithReg(bank, r, Load(m.memory, CellOf(m, bank, base, disp, r), Size(bank)));
      assert Step(m, code[at + r - 14]) == next;
      EntryLoads(next, code, at, bank, base, disp, r + 1);
      LoadedFirst(m, next, RunEntry(next, code, at, r + 1), bank, base, disp, r);
    }
  }

  lemma LoadedFirst(m: Machine, next: Machine, after: Machine, bank: Bank, base: bv32, disp: int, r: nat)
    requires |m.gpr| == 32 && |m.fpr| == 32 && 14 <= r < 32 && (bank.Float? || IndexOf(base) < 14)
    requires next == m.WithReg(bank, r, Load(m.memory, CellOf(m, bank, base, disp, r), Size(bank)))
    requires OthersKept(next, after, bank, r + 1) && Loaded(next, after, bank, base, disp, r + 1)
    ensures OthersKept(m, after, bank, r) && Loaded(m, after, bank, base, disp, r)
  {
    assert after.Regs(bank)[..r] == after.Regs(bank)[..r + 1][..r];
    assert after.Regs(bank)[r] == after.Regs(bank)[..r + 1][r];
    assert next.gpr[IndexOf(base)] == m.gpr[IndexOf(base)];
    forall i | r <= i < 32
      ensures after.Regs(bank)[i] == Load(m.memory, CellOf(m, bank, base, disp, i), Size(bank))
    {
      assert CellOf(next, bank, base, disp, i) == CellOf(m, bank, base, disp, i);
    }
  }

  /** The cells of registers r to 31 hold their low parts. */
  ghost predicate Stored(m: Machine, memory: Memory, bank: Bank, base: bv32, disp: int, r: nat)
    requires |m.gpr| == 32 && |m.fpr| == 32
  {
    forall i :: r <= i < 32 ==>
      Load(memory, CellOf(m, bank, base, disp, i), Size(bank)) == m.Regs(bank)[i] % Modulus(Size(bank))
  }

  /** The byte at x belongs to none of the registers r to 31. */
  ghost predicate Outside(m: Machine, bank: Bank, base: bv32, disp: int, r: nat, x: int)
    requires |m.gpr| == 32
  {
    forall i :: r <= i < 32 ==> !InCell(m, bank, base, disp, i, x)
  }

  ghost predicate BytesKept(m: Machine, memory: Memory, bank: Bank, base: bv32, disp: int, r: nat)
    requires |m.gpr| == 32
  {
    forall x :: Outside(m, bank, base, disp, r, x) ==> memory(x) == m.memory(x)
  }

  /** The entry for register r of a save stores that register and those behind it, and touches no other byte. */
  lemma {:induction false} EntryStores(m: Machine, code: seq<Insn>, at: nat, bank: Bank, base: bv32, disp: int, r: nat)
    requires IsRun(code, at, false, bank, base, disp) && 14 <= r <= 32 && |m.gpr| == 32 && |m.fpr| == 32
    ensures var after := RunEntry(m, code, at, r);
            && after == m.(memory := after.memory)
            && Stored(m, after.memory, bank, base, disp, r) && BytesKept(m, after.memory, bank, base, disp, r)
    decreases 32 - r
  {
    if r < 32 {
      var next := m.(memory := Store(m.memory, CellOf(m, bank, base, disp, r), Size(bank), m.Regs(bank)[r]));
      assert Step(m, code[at + r - 14]) == next;
      EntryStores(next, code, at, bank, base, disp, r + 1);
      var memory := RunEntry(next, code, at, r + 1).memory;
      StoredFirst(m, next, memory, bank, base, disp, r);
      KeptFirst(m, next, memory, bank, base, disp, r);
    }
  }

  lemma StoredFirst(m: Machine, next: Machine, memory: Memory, bank: Bank, base: bv32, disp: int, r: nat)
    requires |m.gpr| == 32 && |m.fpr| == 32 && 14 <= r < 32
    requires next == m.(memory := Store(m.memory, CellOf(m, bank, base, disp, r), Size(bank), m.Regs(bank)[r]))
    requires Stored(next, memory, bank, base, disp, r + 1) && BytesKept(next, memory, bank, base, disp, r + 1)
    ensures Stored(m, memory, bank, base, disp, r)
  {
    CellIsKept(next, memory, bank, base, disp, r);
    StoredIsLoaded(m.memory, CellOf(m, bank, base, disp, r), Size(bank), m.Regs(bank)[r]);
    forall i | r <= i < 32
      ensures Load(memory, CellOf(m, bank, base, disp, i), Size(bank)) == m.Regs(bank)[i] % Modulus(Size(bank))
    {
      assert CellOf(next, bank, base, disp, i) == CellOf(m, bank, base, disp, i);
    }
  }

  lemma CellIsKept(m: Machine, memory: Memory, bank: Bank, base: bv32, disp: int, r: nat)
    requires |m.gpr| == 32 && 14 <= r < 32 && BytesKept(m, memory, bank, base, disp, r + 1)
    ensures Load(memory, CellOf(m, bank, base, disp, r), Size(bank)) == Load(m.memory, CellOf(m, bank, base, disp, r), Size(bank))
  {
    var cell := CellOf(m, bank, base, disp, r);
    forall x | cell <= x < cell + Size(bank)
      ensures memory(x) == m.memory(x)
    {
      OutsideRest(m, bank, base, disp, r, x);
    }
    LoadsAgree(memory, m.memory, cell, Size(bank));
  }

  /** A byte of register r's cell belongs to no later one. */
  lemma OutsideRest(m: Machine, bank: Bank, base: bv32, disp: int, r: nat, x: int)
    requires |m.gpr| == 32 && 14 <= r < 32 && InCell(m, bank, base, disp, r, x)
    ensures Outside(m, bank, base, disp, r + 1, x)
  {
    forall i | r + 1 <= i < 32
      ensures !InCell(m, bank, base, disp, i, x)
    {
      CellsApart(m, bank, base, disp, r, i, x);
    }
  }

  lemma KeptFirst(m: Machine, next: Machine, memory: Memory, bank: Bank, base: bv32, disp: int, r: nat)
    requires |m.gpr| == 32 && |m.fpr| == 32 && 14 <= r < 32
    requires next == m.(memory := Store(m.memory, CellOf(m, bank, base, disp, r), Size(bank), m.Regs(bank)[r]))
    requires BytesKept(next, memory, bank, base, disp, r + 1)
    ensures BytesKept(m, memory, bank, base, disp, r)
  {
    forall x | Outside(m, bank, base, disp, r, x)
      ensures memory(x) == m.memory(x)
    {
      assert !InCell(m, bank, base, disp, r, x);
      StoredElsewhere(m.memory, CellOf(m, bank, base, disp, r), Size(bank), m.Regs(bank)[r], x);
      forall i | r + 1 <= i < 32
        ensures !InCell(next, bank, base, disp, i, x)
      {
        assert !InCell(m, bank, base, disp, i, x);
      }
    }
  }

  /** `between` has the base register of m and, in the cells of registers r to 31, the bytes of `memory`. */
  ghost predicate CellsKept(m: Machine, between: Machine, memory: Memory, bank: Bank, base: bv32, disp: int, r: nat)
    requires |m.gpr| == 32 && |between.gpr| == 32
  {
    && between.gpr[IndexOf(base)] % 0x1_0000_0000 == m.gpr[IndexOf(base)] % 0x1_0000_0000
    && forall i, x :: r <= i < 32 && InCell(m, bank, base, disp, i, x) ==> between.memory(x) == memory(x)
  }

  lemma SameCell(m: Machine, between: Machine, bank: Bank, base: bv32, disp: int, i: int)
    requires |m.gpr| == 32 && |between.gpr| == 32
    requires between.gpr[IndexOf(base)] % 0x1_0000_0000 == m.gpr[IndexOf(base)] % 0x1_0000_0000
    ensures CellOf(between, bank, base, disp, i) == CellOf(m, bank, base, disp, i)
  {
  }

  lemma KeptCellsLoad(m: Machine, between: Machine, memory: Memory, bank: Bank, base: bv32, disp: int, r: nat, i: int)
    requires |m.gpr| == 32 && |between.gpr| == 32 && r <= i < 32
    requires CellsKept(m, between, memory, bank, base, disp, r)
    ensures Load(between.memory, CellOf(between, bank, base, disp, i), Size(bank))
         == Load(memory, CellOf(m, bank, base, disp, i), Size(bank))
  {
    var cell := CellOf(m, bank, base, disp, i);
    SameCell(m, between, bank, base, disp, i);
    forall x | cell <= x < cell + Size(bank)
      ensures between.memory(x) == memory(x)
    {
      assert InCell(m, bank, base, disp, i, x);
    }
    LoadsAgree(between.memory, memory, cell, Size(bank));
  }

  /** Registers r to 31 of `after` are the low parts of those of m, as wide as an access. */
  ghost predicate LowPartsBack(m: Machine, after: Machine, bank: Bank, r: nat)
    requires |m.Regs(bank)| == 32 && |after.Regs(bank)| == 32
  {
    forall i :: r <= i < 32 ==> after.Regs(bank)[i] == m.Regs(bank)[i] % Modulus(Size(bank))
  }

  lemma LowPartsComeBack(m: Machine, between: Machine, memory: Memory, after: Machine, bank: Bank, base: bv32,
                         disp: int, r: nat)
    requires m.Valid() && |between.gpr| == 32 && |after.Regs(bank)| == 32
    requires Stored(m, memory, bank, base, disp, r) && CellsKept(m, between, memory, bank, base, disp, r)
    requires Loaded(between, after, bank, base, disp, r)
    ensures LowPartsBack(m, after, bank, r)
  {
    forall i | r <= i < 32
      ensures after.Regs(bank)[i] == m.Regs(bank)[i] % Modulus(Size(bank))
    {
      KeptCellsLoad(m, between, memory, bank, base, disp, r, i);
    }
  }

  /** Registers r to 31 of the bank are those of m. */
  ghost predicate Restored(m: Machine, after: Machine, bank: Bank, r: nat)
    requires |m.Regs(bank)| == 32 && |after.Regs(bank)| == 32
  {
    forall i :: r <= i < 32 ==> after.Regs(bank)[i] == m.Regs(bank)[i]
  }

  ghost predicate FitWords(m: Machine, bank: Bank, r: nat)
    requires |m.Regs(bank)| == 32
  {
    forall i :: r <= i < 32 ==> m.Regs(bank)[i] < 0x1_0000_0000
  }

  /**
   Saving from an entry on and restoring from the same entry, with the same base register and the saved
   bytes untouched, gives the low parts of all saved registers back. These are the registers if and only
   if the routines move doublewords or the saved values fit in words. Nothing else changes.
   */
  lemma SaveThenRestore(m: Machine, between: Machine, saves: seq<Insn>, at: nat, loads: seq<Insn>, from: nat,
                        bank: Bank, base: bv32, disp: int, r: nat)
    requires IsRun(saves, at, false, bank, base, disp) && IsRun(loads, from, true, bank, base, disp)
    requires 14 <= r <= 32 && m.Valid() && between.Valid()
    requires CellsKept(m, between, RunEntry(m, saves, at, r).memory, bank, base, disp, r)
    ensures OthersKept(between, RunEntry(between, loads, from, r), bank, r)
    ensures LowPartsBack(m, RunEntry(between, loads, from, r), bank, r)
    ensures Restored(m, RunEntry(between, loads, from, r), bank, r) <==> bank != Bank.Word || FitWords(m, bank, r)
  {
    var after := RunEntry(between, loads, from, r);
    EntryStores(m, saves, at, bank, base, disp, r);
    EntryLoads(between, loads, from, bank, base, disp, r);
    LowPartsComeBack(m, between, RunEntry(m, saves, at, r).memory, after, bank, base, disp, r);
    RestoredExactly(m, after, bank, r);
  }

  lemma RestoredExactly(m: Machine, after: Machine, bank: Bank, r: nat)
    requires m.Valid() && |after.Regs(bank)| == 32 && LowPartsBack(m, after, bank, r)
    ensures Restored(m, after, bank, r) <==> bank != Bank.Word || FitWords(m, bank, r)
  {
    Widths();
    if bank == Bank.Word && Restored(m, after, bank, r) {
      forall i | r <= i < 32
        ensures m.Regs(bank)[i] < 0x1_0000_0000
      {
        assert after.Regs(bank)[i] == m.Regs(bank)[i];
      }
    }
  }
}
