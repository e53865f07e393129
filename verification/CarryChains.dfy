/**
 The add and subtract instructions that record or use the carry, as emitted, against section 3.3.9
 of Power ISA v3.0B Book I in 32-bit mode; and the multi-word arithmetic that chains of them do.
 */
module CarryChains {

  const WORD: nat := 0x1_0000_0000
  const DOUBLE: nat := 0x1_0000_0000_0000_0000

  type Register = n: nat | n < DOUBLE

  type Reg = r: nat | r < 32

  datatype Machine = Machine(regs: seq<Register>, ca: nat) {
    predicate Valid() { |regs| == 32 && ca <= 1 }

    /** `u32` */
    function Low(r: Reg): nat
      requires Valid()
    {
      regs[r] % WORD
    }

    /** `u64` */
    function Full(r: Reg): int
      requires Valid()
    {
      regs[r]
    }

    function With(d: Reg, x: int, carry: bool): (m: Machine)
      requires Valid()
      ensures m.Valid()
    {
      Machine(regs[d := x % DOUBLE], if carry then 1 else 0)
    }
  }

  // ----- emitted code -----

  // C++ adds words modulo 2^32; the carry is computed from the operands before the destination is
  // written, or kept in a temporary, as in the emitted statements.

  function Add32(x: nat, y: nat): nat { (x + y) % WORD }

  function Not32(x: nat): nat
    requires x < WORD
  {
    WORD - 1 - x
  }

  function EmittedAddc(m: Machine, d: Reg, a: Reg, b: Reg): Machine
    requires m.Valid()
  {
    m.With(d, m.Full(a) + m.Full(b), Add32(m.Low(a), m.Low(b)) < m.Low(a))
  }

  function EmittedAdde(m: Machine, d: Reg, a: Reg, b: Reg): Machine
    requires m.Valid()
  {
    var temp := Add32(m.Low(a), m.Low(b)) < m.Low(a) || Add32(Add32(m.Low(a), m.Low(b)), m.ca) < m.ca;
    m.With(d, m.Full(a) + m.Full(b) + m.ca, temp)
  }

  function EmittedAddze(m: Machine, d: Reg, a: Reg): Machine
    requires m.Valid()
  {
    var temp := (m.Full(a) + m.ca) % DOUBLE;
    m.With(d, temp, temp % WORD < m.Low(a))
  }

  /** The sum is a `uint32_t`, so the shift by 32 leaves no carry. */
  function EmittedAddme(m: Machine, d: Reg, a: Reg): Machine
    requires m.Valid()
  {
    var temp := Add32(Add32(m.Low(a), m.ca), WORD - 1);
    m.With(d, temp, temp / WORD != 0)
  }

  function EmittedSubfc(m: Machine, d: Reg, a: Reg, b: Reg): Machine
    requires m.Valid()
  {
    m.With(d, m.Full(b) - m.Full(a), m.Low(b) >= m.Low(a))
  }

  function EmittedSubfe(m: Machine, d: Reg, a: Reg, b: Reg): Machine
    requires m.Valid()
  {
    var nota := Not32(m.Low(a));
    var temp := Add32(nota, m.Low(b)) < nota || Add32(Add32(nota, m.Low(b)), m.ca) < m.ca;
    m.With(d, (DOUBLE - 1 - m.Full(a)) + m.Full(b) + m.ca, temp)
  }

  /** The complement is taken of the word and has no high word. */
  function EmittedSubfze(m: Machine, d: Reg, a: Reg): Machine
    requires m.Valid()
  {
    var temp := Not32(m.Low(a));
    m.With(d, temp + m.ca, (temp + m.ca) % DOUBLE % WORD < temp)
  }

  // ----- the architecture -----

  /** The destination's low word and the carry are those of the 33-bit sum x + y + ca; nothing else changes. */
  predicate IsSum(m: Machine, n: Machine, d: Reg, x: nat, y: nat, ca: nat)
    requires m.Valid()
  {
    && n.Valid()
    && n.Low(d) + WORD * n.ca == x + y + ca
    && forall r: Reg :: r != d ==> n.regs[r] == m.regs[r]
  }

  lemma LowOfSum(x: Register, y: Register, ca: nat)
    ensures (x + y + ca) % DOUBLE % WORD == (x % WORD + y % WORD + ca) % WORD
  {
    LowOfDouble(x + y + ca);
    LowOfThree(x, y, ca);
  }

  lemma LowOfDouble(s: nat)
    ensures s % DOUBLE % WORD == s % WORD
  {
  }

  lemma LowOfThree(x: nat, y: nat, z: nat)
    ensures (x + y + z) % WORD == (x % WORD + y % WORD + z) % WORD
  {
  }

  lemma LowSum(x: nat, y: nat)
    requires x < WORD && y < WORD
    ensures Add32(x, y) == if x + y < WORD then x + y else x + y - WORD
  {
  }

  lemma LowSumOfThree(x: nat, y: nat, ca: nat)
    requires x < WORD && y < WORD && ca <= 1
    ensures (x + y + ca) % WORD == if x + y + ca < WORD then x + y + ca else x + y + ca - WORD
  {
  }

  /** The emitted test finds the carry of three summands. */
  lemma CarryIsFound(x: nat, y: nat, ca: nat)
    requires x < WORD && y < WORD && ca <= 1
    ensures (Add32(x, y) < x || Add32(Add32(x, y), ca) < ca) <==> x + y + ca >= WORD
    ensures (x + y + ca) % WORD + (if x + y + ca >= WORD then WORD else 0) == x + y + ca
  {
    LowSum(x, y);
    LowSum(Add32(x, y), ca);
    LowSumOfThree(x, y, ca);
  }

  lemma AddcIsIsa(m: Machine, d: Reg, a: Reg, b: Reg)
    requires m.Valid()
    ensures IsSum(m, EmittedAddc(m, d, a, b), d, m.Low(a), m.Low(b), 0)
  {
    LowOfSum(m.regs[a], m.regs[b], 0);
  }

  lemma AddeIsIsa(m: Machine, d: Reg, a: Reg, b: Reg)
    requires m.Valid()
    ensures IsSum(m, EmittedAdde(m, d, a, b), d, m.Low(a), m.Low(b), m.ca)
  {
    LowOfSum(m.regs[a], m.regs[b], m.ca);
    CarryIsFound(m.Low(a), m.Low(b), m.ca);
  }

  lemma CarryOfOne(full: nat, low: nat, ca: nat, temp: nat)
    requires full < DOUBLE && low == full % WORD && ca <= 1 && temp == (full + ca) % DOUBLE
    ensures temp % WORD + (if temp % WORD < low then WORD else 0) == low + ca
  {
    LowOfSum(full, 0, ca);
    LowSumOfThree(low, 0, ca);
  }

  lemma AddzeIsIsa(m: Machine, d: Reg, a: Reg)
    requires m.Valid()
    ensures IsSum(m, EmittedAddze(m, d, a), d, m.Low(a), 0, m.ca)
  {
    CarryOfOne(m.regs[a], m.Low(a), m.ca, (m.Full(a) + m.ca) % DOUBLE);
  }

  /**
   `addme` adds the carry and a word of ones. Its low word is right; its carry is right if and only if
   the sum is the only one that has none.
   */
  lemma AddmeIsIsa(m: Machine, d: Reg, a: Reg)
    requires m.Valid()
    ensures EmittedAddme(m, d, a).Low(d) == (m.Low(a) + m.ca + (WORD - 1)) % WORD
    ensures IsSum(m, EmittedAddme(m, d, a), d, m.Low(a), WORD - 1, m.ca) <==> m.Low(a) == 0 && m.ca == 0
  {
  }

  lemma SubfcIsIsa(m: Machine, d: Reg, a: Reg, b: Reg)
    requires m.Valid()
    ensures IsSum(m, EmittedSubfc(m, d, a, b), d, Not32(m.Low(a)), m.Low(b), 1)
  {
    LowOfDifference(m.regs[b], m.regs[a]);
  }

  lemma LowOfDifference(x: Register, y: Register)
    ensures (x - y) % DOUBLE % WORD == (x % WORD + WORD - y % WORD) % WORD
  {
  }

  lemma SubfeIsIsa(m: Machine, d: Reg, a: Reg, b: Reg)
    requires m.Valid()
    ensures IsSum(m, EmittedSubfe(m, d, a, b), d, Not32(m.Low(a)), m.Low(b), m.ca)
  {
    LowOfComplement(m.regs[a]);
    LowOfSum(DOUBLE - 1 - m.regs[a], m.regs[b], m.ca);
    CarryIsFound(Not32(m.Low(a)), m.Low(b), m.ca);
  }

  lemma LowOfComplement(x: Register)
    ensures (DOUBLE - 1 - x) % WORD == Not32(x % WORD)
  {
  }

  lemma SubfzeIsIsa(m: Machine, d: Reg, a: Reg)
    requires m.Valid()
    ensures IsSum(m, EmittedSubfze(m, d, a), d, Not32(m.Low(a)), 0, m.ca)
  {
  }

  // ----- chains -----

  /** One word of a multi-word operation; the second operand of an extending one is zero. */
  datatype Limb = Both(d: Reg, a: Reg, b: Reg) | Extend(d: Reg, a: Reg)

  /** `addc` or `subfc` first, then `adde`, `addze` or `subfe`, `subfze`. */
  function Step(m: Machine, limb: Limb, subtract: bool, first: bool): Machine
    requires m.Valid() && (first ==> limb.Both?)
  {
    match limb
    case Both(d, a, b) =>
      if first then (if subtract then EmittedSubfc(m, d, a, b) else EmittedAddc(m, d, a, b))
      else if subtract then EmittedSubfe(m, d, a, b)
      else EmittedAdde(m, d, a, b)
    case Extend(d, a) => if subtract then EmittedSubfze(m, d, a) else EmittedAddze(m, d, a)
  }

  predicate Chain(limbs: seq<Limb>) {
    && limbs != []
    && limbs[0].Both?
    && forall i, j :: 0 <= i < j < |limbs| ==> Separate(limbs[i], limbs[j])
  }

  /** The result of one word is neither an operand nor overwritten further on; it may be its own operand. */
  predicate Separate(before: Limb, after: Limb) {
    before.d != after.a && before.d != after.d && (after.Both? ==> before.d != after.b)
  }

  function Run(m: Machine, limbs: seq<Limb>, subtract: bool): (n: Machine)
    requires m.Valid() && (limbs != [] ==> limbs[0].Both?)
    ensures n.Valid()
  {
    if limbs == [] then m
    else
      var k := |limbs| - 1;
      Step(Run(m, limbs[..k], subtract), limbs[k], subtract, k == 0)
  }

  function Weight(k: nat): nat { if k == 0 then 1 else WORD * Weight(k - 1) }

  /** The number with these words, the lowest first. */
  function Value(words: seq<nat>): nat {
    if words == [] then 0 else Value(words[..|words| - 1]) + words[|words| - 1] * Weight(|words| - 1)
  }

  function First(m: Machine, limb: Limb): (w: nat)
    requires m.Valid()
    ensures w < WORD
  {
    m.Low(limb.a)
  }

  function Second(m: Machine, limb: Limb): nat
    requires m.Valid()
  {
    if limb.Both? then m.Low(limb.b) else 0
  }

  function Firsts(m: Machine, limbs: seq<Limb>): seq<nat>
    requires m.Valid()
  {
    seq(|limbs|, i requires 0 <= i < |limbs| => First(m, limbs[i]))
  }

  function Seconds(m: Machine, limbs: seq<Limb>): seq<nat>
    requires m.Valid()
  {
    seq(|limbs|, i requires 0 <= i < |limbs| => Second(m, limbs[i]))
  }

  function Results(m: Machine, limbs: seq<Limb>): seq<nat>
    requires m.Valid()
  {
    seq(|limbs|, i requires 0 <= i < |limbs| => m.Low(limbs[i].d))
  }

  /** The first operand as it enters the sum: complemented in a subtraction. */
  function Entering(m: Machine, limb: Limb, subtract: bool): nat
    requires m.Valid()
  {
    if subtract then Not32(First(m, limb)) else First(m, limb)
  }

  lemma StepIsSum(m: Machine, limb: Limb, subtract: bool, first: bool)
    requires m.Valid() && (first ==> limb.Both?)
    ensures IsSum(m, Step(m, limb, subtract, first), limb.d, Entering(m, limb, subtract), Second(m, limb),
                  if first then (if subtract then 1 else 0) else m.ca)
  {
    match limb {
      case Both(d, a, b) =>
        AddcIsIsa(m, d, a, b);
        AddeIsIsa(m, d, a, b);
        SubfcIsIsa(m, d, a, b);
        SubfeIsIsa(m, d, a, b);
      case Extend(d, a) =>
        AddzeIsIsa(m, d, a);
        SubfzeIsIsa(m, d, a);
    }
  }

  /** A register that no word writes keeps its value. */
  lemma {:induction false} Unwritten(m: Machine, limbs: seq<Limb>, subtract: bool, r: Reg)
    requires m.Valid() && (limbs != [] ==> limbs[0].Both?)
    requires forall i :: 0 <= i < |limbs| ==> limbs[i].d != r
    ensures Run(m, limbs, subtract).regs[r] == m.regs[r]
  {
    if limbs != [] {
      var k := |limbs| - 1;
      Unwritten(m, limbs[..k], subtract, r);
      StepIsSum(Run(m, limbs[..k], subtract), limbs[k], subtract, k == 0);
    }
  }

  function EnteringAll(m: Machine, limbs: seq<Limb>, subtract: bool): seq<nat>
    requires m.Valid()
  {
    seq(|limbs|, i requires 0 <= i < |limbs| => Entering(m, limbs[i], subtract))
  }

  lemma Scale(d: nat, carry: nat, x: nat, y: nat, ca: nat, k: nat)
    requires d + WORD * carry == x + y + ca
    ensures d * Weight(k) + carry * Weight(k + 1) == x * Weight(k) + y * Weight(k) + ca * Weight(k)
  {
    var w := Weight(k);
    assert Weight(k + 1) == WORD * w;
    assert (d + WORD * carry) * w == (x + y + ca) * w;
  }

  lemma LastOf(m: Machine, limbs: seq<Limb>, subtract: bool)
    requires m.Valid() && limbs != []
    ensures var k := |limbs| - 1;
            && Value(Results(m, limbs)) == Value(Results(m, limbs[..k])) + m.Low(limbs[k].d) * Weight(k)
            && Value(EnteringAll(m, limbs, subtract))
                 == Value(EnteringAll(m, limbs[..k], subtract)) + Entering(m, limbs[k], subtract) * Weight(k)
            && Value(Seconds(m, limbs)) == Value(Seconds(m, limbs[..k])) + Second(m, limbs[k]) * Weight(k)
  {
    var k := |limbs| - 1;
    assert Results(m, limbs)[..k] == Results(m, limbs[..k]);
    assert EnteringAll(m, limbs, subtract)[..k] == EnteringAll(m, limbs[..k], subtract);
    assert Seconds(m, limbs)[..k] == Seconds(m, limbs[..k]);
  }

  /** The carry into word k of the chain. */
  function CarryIn(m: Machine, k: nat, subtract: bool): nat {
    if k == 0 then (if subtract then 1 else 0) else m.ca
  }

  /** The words so far, with the carry on top, are the sum of the words that entered. */
  ghost predicate SumSoFar(m: Machine, n: Machine, limbs: seq<Limb>, subtract: bool)
    requires m.Valid() && n.Valid()
  {
    Value(Results(n, limbs)) + CarryIn(n, |limbs|, subtract) * Weight(|limbs|)
      == Value(EnteringAll(m, limbs, subtract)) + Value(Seconds(m, limbs)) + if subtract then 1 else 0
  }

  predicate WordSum(n: Machine, d: Reg, x: nat, y: nat, ca: nat)
    requires n.Valid()
  {
    n.Low(d) + WORD * n.ca == x + y + ca
  }

  lemma StepAdds(p: Machine, n: Machine, limb: Limb, subtract: bool, first: bool, x: nat, y: nat, ca: nat)
    requires p.Valid() && (first ==> limb.Both?) && n == Step(p, limb, subtract, first)
    requires x == Entering(p, limb, subtract) && y == Second(p, limb)
    requires ca == if first then (if subtract then 1 else 0) else p.ca
    ensures n.Valid() && forall r: Reg :: r != limb.d ==> n.regs[r] == p.regs[r]
    ensures WordSum(n, limb.d, x, y, ca)
  {
    StepIsSum(p, limb, subtract, first);
  }

  lemma SameEntering(m: Machine, p: Machine, limb: Limb, subtract: bool)
    requires m.Valid() && p.Valid() && First(p, limb) == First(m, limb)
    ensures Entering(p, limb, subtract) == Entering(m, limb, subtract)
  {
  }

  lemma RunUnfolds(m: Machine, limbs: seq<Limb>, subtract: bool, k: nat)
    requires m.Valid() && Chain(limbs) && k == |limbs| - 1
    ensures Run(m, limbs, subtract) == Step(Run(m, limbs[..k], subtract), limbs[k], subtract, k == 0)
  {
  }

  /** One word of the chain: p is the machine in front of it, n the one behind. */
  lemma WordAdded(m: Machine, limbs: seq<Limb>, subtract: bool, k: nat, p: Machine, n: Machine)
    requires m.Valid() && Chain(limbs) && k == |limbs| - 1
    requires p == Run(m, limbs[..k], subtract) && n == Run(m, limbs, subtract)
    ensures WordSum(n, limbs[k].d, Entering(m, limbs[k], subtract), Second(m, limbs[k]), CarryIn(p, k, subtract))
  {
    RunUnfolds(m, limbs, subtract, k);
    OperandsUnwritten(m, limbs, subtract);
    SameEntering(m, p, limbs[k], subtract);
    var x, y, ca := Entering(m, limbs[k], subtract), Second(m, limbs[k]), CarryIn(p, k, subtract);
    StepAdds(p, n, limbs[k], subtract, k == 0, x, y, ca);
  }

  lemma WordsKept(m: Machine, limbs: seq<Limb>, subtract: bool, k: nat, p: Machine, n: Machine)
    requires m.Valid() && Chain(limbs) && k == |limbs| - 1
    requires p == Run(m, limbs[..k], subtract) && n == Run(m, limbs, subtract)
    ensures Results(n, limbs[..k]) == Results(p, limbs[..k])
  {
    RunUnfolds(m, limbs, subtract, k);
    StepIsSum(p, limbs[k], subtract, k == 0);
    ResultsKept(p, n, limbs);
  }

  lemma SumGrows(m: Machine, limbs: seq<Limb>, subtract: bool, k: nat, p: Machine, n: Machine)
    requires m.Valid() && Chain(limbs) && k == |limbs| - 1
    requires p == Run(m, limbs[..k], subtract) && n == Run(m, limbs, subtract)
    requires SumSoFar(m, p, limbs[..k], subtract)
    ensures SumSoFar(m, n, limbs, subtract)
  {
    var d, x, y, ca := n.Low(limbs[k].d), Entering(m, limbs[k], subtract), Second(m, limbs[k]), CarryIn(p, k, subtract);
    WordAdded(m, limbs, subtract, k, p, n);
    WordsKept(m, limbs, subtract, k, p, n);
    LastOf(m, limbs, subtract);
    LastOf(n, limbs, subtract);
    Scale(d, n.ca, x, y, ca, k);
    OneMoreWord(Value(Results(p, limbs[..k])), d * Weight(k), n.ca * Weight(k + 1), ca * Weight(k),
                Value(EnteringAll(m, limbs[..k], subtract)), x * Weight(k), Value(Seconds(m, limbs[..k])), y * Weight(k),
                if subtract then 1 else 0);
  }

  lemma {:induction false} ChainIsSum(m: Machine, limbs: seq<Limb>, subtract: bool)
    requires m.Valid() && (limbs == [] || Chain(limbs))
    ensures SumSoFar(m, Run(m, limbs, subtract), limbs, subtract)
  {
    if limbs != [] {
      var k := |limbs| - 1;
      ChainIsSum(m, limbs[..k], subtract);
      SumGrows(m, limbs, subtract, k, Run(m, limbs[..k], subtract), Run(m, limbs, subtract));
    }
  }

  lemma OneMoreWord(results: int, d: int, carry: int, ca: int, entering: int, x: int, seconds: int, y: int, one: int)
    requires results + ca == entering + seconds + one && d + carry == x + y + ca
    ensures results + d + carry == (entering + x) + (seconds + y) + one
  {
  }

  lemma OperandsUnwritten(m: Machine, limbs: seq<Limb>, subtract: bool)
    requires m.Valid() && Chain(limbs)
    ensures var k := |limbs| - 1;
            var p := Run(m, limbs[..k], subtract);
            First(p, limbs[k]) == First(m, limbs[k]) && Second(p, limbs[k]) == Second(m, limbs[k])
  {
    var k := |limbs| - 1;
    assert forall i :: 0 <= i < k ==> Separate(limbs[i], limbs[k]);
    Unwritten(m, limbs[..k], subtract, limbs[k].a);
    if limbs[k].Both? {
      Unwritten(m, limbs[..k], subtract, limbs[k].b);
    }
  }

  lemma ResultsKept(p: Machine, n: Machine, limbs: seq<Limb>)
    requires p.Valid() && n.Valid() && Chain(limbs)
    requires forall r: Reg :: r != limbs[|limbs| - 1].d ==> n.regs[r] == p.regs[r]
    ensures var k := |limbs| - 1; Results(n, limbs[..k]) == Results(p, limbs[..k])
  {
    var k := |limbs| - 1;
    forall i | 0 <= i < k
      ensures n.Low(limbs[i].d) == p.Low(limbs[i].d)
    {
      assert Separate(limbs[i], limbs[k]);
    }
  }

  lemma {:induction false} ComplementValue(m: Machine, limbs: seq<Limb>)
    requires m.Valid()
    ensures Value(EnteringAll(m, limbs, true)) + Value(Firsts(m, limbs)) + 1 == Weight(|limbs|)
  {
    if limbs != [] {
      var k := |limbs| - 1;
      ComplementValue(m, limbs[..k]);
      assert EnteringAll(m, limbs, true)[..k] == EnteringAll(m, limbs[..k], true);
      assert Firsts(m, limbs)[..k] == Firsts(m, limbs[..k]);
      assert Not32(First(m, limbs[k])) * Weight(k) + First(m, limbs[k]) * Weight(k) == (WORD - 1) * Weight(k);
    }
  }

  lemma {:induction false} ValueFits(words: seq<nat>)
    requires forall i :: 0 <= i < |words| ==> words[i] < WORD
    ensures Value(words) < Weight(|words|)
  {
    if words != [] {
      var k := |words| - 1;
      ValueFits(words[..k]);
      DigitFits(Value(words[..k]), words[k], Weight(k));
    }
  }

  lemma DigitFits(rest: nat, digit: nat, w: nat)
    requires rest < w && digit < WORD
    ensures rest + digit * w < WORD * w
  {
    Product(WORD - 1 - digit, w);
    Distributes(WORD - 1, digit, w);
  }

  lemma Product(x: nat, w: nat)
    ensures x * w >= 0
  {
  }

  lemma Distributes(x: int, y: int, w: int)
    ensures (x - y) * w == x * w - y * w
  {
  }

  lemma ExactDifference(result: nat, ca: nat, width: nat, entering: nat, first: nat, second: nat)
    requires result + ca * width == entering + second + 1 && entering + first + 1 == width
    requires result < width && ca <= 1
    ensures result == second - first + (if ca == 1 then 0 else width)
    ensures ca == 1 <==> second >= first
  {
    if ca == 0 {
      assert ca * width == 0;
    } else {
      assert ca * width == width;
    }
  }

  /**
   Chains are exact, however long and whichever destinations are their own operands: adding leaves the
   sum with its carry on top; subtracting the difference, modulo the width, with the carry set exactly
   if nothing was borrowed.
   */
  lemma ChainIsExact(m: Machine, limbs: seq<Limb>, subtract: bool)
    requires m.Valid() && Chain(limbs)
    ensures var n := Run(m, limbs, subtract);
            var result, first, second := Value(Results(n, limbs)), Value(Firsts(m, limbs)), Value(Seconds(m, limbs));
            var width := Weight(|limbs|);
            && result < width
            && (!subtract ==> result + n.ca * width == first + second)
            && (subtract ==> result == second - first + (if n.ca == 1 then 0 else width))
            && (subtract ==> (n.ca == 1 <==> second >= first))
  {
    var n := Run(m, limbs, subtract);
    ChainIsSum(m, limbs, subtract);
    ValueFits(Results(n, limbs));
    if subtract {
      ComplementValue(m, limbs);
      ExactDifference(Value(Results(n, limbs)), n.ca, Weight(|limbs|), Value(EnteringAll(m, limbs, true)),
                      Value(Firsts(m, limbs)), Value(Seconds(m, limbs)));
    } else {
      assert EnteringAll(m, limbs, false) == Firsts(m, limbs);
    }
  }
}
