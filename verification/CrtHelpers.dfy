/**
 The CRT's register save and restore routines: runs of stores or loads with ascending registers, whose
 every access is an entry. How they are found, and where their entries lie.
 */
module CrtHelpers {
  import opened PpcWord

  // ----- words -----

  function Rt(w: Word): nat { ((w >> 21) & 0x1F) as nat }

  function Ra(w: Word): bv32 { (w >> 16) & 0x1F }

  function Rb(w: Word): bv32 { (w >> 11) & 0x1F }

  /** The vector register of lvx128 and stvx128, split between two fields. */
  function Vd128(w: Word): nat { (((w << 3) & 0x60) | ((w >> 21) & 0x1F)) as nat }

  function AsInt16(x: bv32): int { if x >= 0x8000 then x as int - 0x1_0000 else x as int }

  function Simm(w: Word): int { AsInt16(w & 0xFFFF) }

  function Ds(w: Word): int { AsInt16(w & 0xFFFC) }

  predicate IsLd(w: Word, rt: nat, ra: bv32) { Op(w) == 58 && w & 3 == 0 && Rt(w) == rt && Ra(w) == ra }

  predicate IsStd(w: Word, rt: nat, ra: bv32) { Op(w) == 62 && w & 3 == 0 && Rt(w) == rt && Ra(w) == ra }

  predicate IsLwz(w: Word, rt: nat, ra: bv32) { Op(w) == 32 && Rt(w) == rt && Ra(w) == ra }

  predicate IsStw(w: Word, rt: nat, ra: bv32) { Op(w) == 36 && Rt(w) == rt && Ra(w) == ra }

  predicate IsLfd(w: Word, ft: nat) { Op(w) == 50 && Rt(w) == ft }

  predicate IsStfd(w: Word, ft: nat) { Op(w) == 54 && Rt(w) == ft }

  predicate IsLvx(w: Word, vd: nat) { w & 0xFC00_07FF == 0x7C00_00CE && Rt(w) == vd }

  predicate IsStvx(w: Word, vs: nat) { w & 0xFC00_07FF == 0x7C00_01CE && Rt(w) == vs }

  predicate IsLvx128(w: Word, vd: nat) { w & 0xFC00_07F3 == 0x1000_00C3 && Vd128(w) == vd }

  predicate IsStvx128(w: Word, vs: nat) { w & 0xFC00_07F3 == 0x1000_01C3 && Vd128(w) == vs }

  predicate IsAddi(w: Word) { Op(w) == 14 }

  // ----- the accesses as they are encoded -----

  lemma DFormMatches(w: Word, op: bv32, base: bv32)
    ensures op < 64 ==> (Op(w) == op && Ra(w) == base <==> base < 32 && w == DForm(op, Bo(w), base, w & 0xFFFF))
  {
  }

  lemma DsFormMatches(w: Word, op: bv32, base: bv32)
    ensures op < 64 ==>
              (Op(w) == op && w & 3 == 0 && Ra(w) == base <==> base < 32 && w == DForm(op, Bo(w), base, w & 0xFFFC))
  {
  }

  lemma XFormMatches(w: Word)
    ensures w & 0xFC00_07FF == 0x7C00_00CE <==> w == XForm(31, Bo(w), Ra(w), Rb(w), 103, 0)
    ensures w & 0xFC00_07FF == 0x7C00_01CE <==> w == XForm(31, Bo(w), Ra(w), Rb(w), 231, 0)
  {
  }

  /** The two bits behind the extended opcode hold the high part of the register. */
  lemma Vx128FormMatches(w: Word, xo: bv32)
    requires xo & !0x7F3 == 0
    ensures w & 0xFC00_07F3 == 0x1000_0000 | xo <==> w == DForm(4, Bo(w), Ra(w), (Rb(w) << 11) | xo | (w & 0xC))
  {
  }

  /** lwz, stw, lfd and stfd take any displacement, and the last two any base register. */
  lemma WordsAreEncoded(w: Word, r: nat, base: bv32)
    ensures IsLwz(w, r, base) <==> base < 32 && w == DForm(32, Bo(w), base, w & 0xFFFF) && Bo(w) as nat == r
    ensures IsStw(w, r, base) <==> base < 32 && w == DForm(36, Bo(w), base, w & 0xFFFF) && Bo(w) as nat == r
  {
    DFormMatches(w, 32, base);
    DFormMatches(w, 36, base);
  }

  lemma FloatsAreEncoded(w: Word, r: nat)
    ensures IsLfd(w, r) <==> w == DForm(50, Bo(w), Ra(w), w & 0xFFFF) && Bo(w) as nat == r
    ensures IsStfd(w, r) <==> w == DForm(54, Bo(w), Ra(w), w & 0xFFFF) && Bo(w) as nat == r
    ensures IsAddi(w) <==> w == DForm(14, Bo(w), Ra(w), w & 0xFFFF)
  {
    DFormMatches(w, 50, Ra(w));
    DFormMatches(w, 54, Ra(w));
    DFormMatches(w, 14, Ra(w));
    RaIsSmall(w);
  }

  lemma RaIsSmall(w: Word)
    ensures Ra(w) < 32
  {
  }

  /** The low two bits of ld and std belong to the opcode. */
  lemma DoublesAreEncoded(w: Word, r: nat, base: bv32)
    ensures IsLd(w, r, base) <==> base < 32 && w == DForm(58, Bo(w), base, w & 0xFFFC) && Bo(w) as nat == r
    ensures IsStd(w, r, base) <==> base < 32 && w == DForm(62, Bo(w), base, w & 0xFFFC) && Bo(w) as nat == r
  {
    DsFormMatches(w, 58, base);
    DsFormMatches(w, 62, base);
  }

  lemma VectorsAreEncoded(w: Word, r: nat)
    ensures IsLvx(w, r) <==> w == XForm(31, Bo(w), Ra(w), Rb(w), 103, 0) && Bo(w) as nat == r
    ensures IsStvx(w, r) <==> w == XForm(31, Bo(w), Ra(w), Rb(w), 231, 0) && Bo(w) as nat == r
  {
    XFormMatches(w);
  }

  lemma WideVectorsAreEncoded(w: Word, r: nat)
    ensures IsLvx128(w, r) <==> w == DForm(4, Bo(w), Ra(w), (Rb(w) << 11) | 0xC3 | (w & 0xC)) && Vd128(w) == r
    ensures IsStvx128(w, r) <==> w == DForm(4, Bo(w), Ra(w), (Rb(w) << 11) | 0x1C3 | (w & 0xC)) && Vd128(w) == r
    ensures Vd128(w) == (32 * ((w >> 2) & 3) + Bo(w)) as nat
  {
    Vx128FormMatches(w, 0xC3);
    Vx128FormMatches(w, 0x1C3);
    Vd128Field(w);
  }

  lemma Vd128Field(w: Word)
    ensures ((w << 3) & 0x60) | ((w >> 21) & 0x1F) == 32 * ((w >> 2) & 3) + Bo(w)
  {
  }

  /** A displacement is its field, sign-extended; that of ld and std has no low bits. */
  lemma DisplacementsAreSigned(w: Word)
    ensures Extends(Simm(w), w & 0xFFFF) && Extends(Ds(w), w & 0xFFFC)
  {
    FieldsAreSmall(w);
    HalfIsSigned(w & 0xFFFF);
    HalfIsSigned(w & 0xFFFC);
  }

  lemma FieldsAreSmall(w: Word)
    ensures w & 0xFFFF < 0x1_0000 && w & 0xFFFC < 0x1_0000
  {
  }

  /** d is the 16-bit two's complement number x. */
  predicate Extends(d: int, x: bv32) { -0x8000 <= d < 0x8000 && (d == x as int || d == x as int - 0x1_0000) }

  lemma HalfIsSigned(x: bv32)
    requires x < 0x1_0000
    ensures Extends(AsInt16(x), x)
  {
  }

  /** Which accesses a register run is made of, and how far apart. */
  datatype Matcher = Matcher(accepts: (Word, nat) -> bool, displacement: Word -> int, stride: nat)

  /** ld, std or lwz, stw with a base register */
  function Gpr(load: bool, double: bool, base: bv32): Matcher {
    if double then Matcher((w: Word, r: nat) => if load then IsLd(w, r, base) else IsStd(w, r, base), Ds, 8)
    else Matcher((w: Word, r: nat) => if load then IsLwz(w, r, base) else IsStw(w, r, base), Simm, 4)
  }

  /** lfd, stfd */
  function Fpr(load: bool, base: bv32): Matcher {
    Matcher((w: Word, r: nat) => (if load then IsLfd(w, r) else IsStfd(w, r)) && Ra(w) == base, Simm, 8)
  }

  /** lvx, stvx; lvx128, stvx128 */
  function Vmx(load: bool, wide: bool): (Word, nat) -> bool {
    if wide then (w: Word, r: nat) => if load then IsLvx128(w, r) else IsStvx128(w, r)
    else (w: Word, r: nat) => if load then IsLvx(w, r) else IsStvx(w, r)
  }

  // ----- runs -----

  /** The k-th access of a run at i, which has displacement `disp`. */
  ghost predicate AccessAt(code: seq<Word>, i: nat, k: nat, first: nat, m: Matcher, disp: int) {
    && i + k < |code|
    && m.accepts(code[i + k], first + k)
    && m.displacement(code[i + k]) == disp + k * m.stride
  }

  /** `count` accesses with ascending registers and displacements. */
  ghost predicate RegisterRun(code: seq<Word>, i: nat, first: nat, count: nat, m: Matcher)
    requires i < |code|
  {
    forall k: nat :: k < count ==> AccessAt(code, i, k, first, m, m.displacement(code[i]))
  }

  method DetectRegisterRun(code: seq<Word>, i: nat, first: nat, count: nat, m: Matcher) returns (found: bool)
    requires i < |code| && count > 0
    ensures found <==> RegisterRun(code, i, first, count, m)
  {
    var disp := m.displacement(code[i]);
    if i + count > |code| {
      assert !AccessAt(code, i, count - 1, first, m, disp);
      return false;
    }
    if !m.accepts(code[i], first) {
      assert !AccessAt(code, i, 0, first, m, disp);
      return false;
    }
    for k := 1 to count
      invariant forall j: nat :: j < k ==> AccessAt(code, i, j, first, m, disp)
    {
      if !m.accepts(code[i + k], first + k) || m.displacement(code[i + k]) != disp + k * m.stride {
        assert !AccessAt(code, i, k, first, m, disp);
        return false;
      }
    }
    return true;
  }

  /** The k-th pair of a set-up instruction and an access; i is the first access. */
  ghost predicate PairAt(code: seq<Word>, i: nat, k: nat, first: nat, accepts: (Word, nat) -> bool, ra: bv32, rb: bv32) {
    && 1 <= i + 2 * k < |code|
    && accepts(code[i + 2 * k], first + k)
    && Ra(code[i + 2 * k]) == ra && Rb(code[i + 2 * k]) == rb
    && IsAddi(code[i + 2 * k - 1])
  }

  ghost predicate VectorRun(code: seq<Word>, i: nat, first: nat, count: nat, accepts: (Word, nat) -> bool)
    requires i < |code|
  {
    forall k: nat :: k < count ==> PairAt(code, i, k, first, accepts, Ra(code[i]), Rb(code[i]))
  }

  method DetectVectorRun(code: seq<Word>, i: nat, first: nat, count: nat, accepts: (Word,
                         nat) -> bool) returns (found: bool)
    requires i < |code| && count > 0
    ensures found <==> VectorRun(code, i, first, count, accepts)
  {
    var ra, rb := Ra(code[i]), Rb(code[i]);
    if i < 1 || i - 1 + 2 * count > |code| {
      assert !PairAt(code, i, if i < 1 then 0 else count - 1, first, accepts, ra, rb);
      return false;
    }
    if !accepts(code[i], first) || !IsAddi(code[i - 1]) {
      assert !PairAt(code, i, 0, first, accepts, ra, rb);
      return false;
    }
    for k := 1 to count
      invariant forall j: nat :: j < k ==> PairAt(code, i, j, first, accepts, ra, rb)
    {
      var w := code[i + 2 * k];
      if !accepts(w, first + k) || Ra(w) != ra || Rb(w) != rb || !IsAddi(code[i + 2 * k - 1]) {
        assert !PairAt(code, i, k, first, accepts, ra, rb);
        return false;
      }
    }
    return true;
  }

  // ----- detection -----

  datatype Helper = RestGpr | SaveGpr | RestFpr | SaveFpr | RestVmx14 | SaveVmx14 | RestVmx64 | SaveVmx64 {
    predicate Loads() { RestGpr? || RestFpr? || RestVmx14? || RestVmx64? }

    predicate IsVector() { RestVmx14? || SaveVmx14? || RestVmx64? || SaveVmx64? }

    predicate IsWide() { RestVmx64? || SaveVmx64? }

    /** The first register, and how many there are. */
    function First(): nat { if IsWide() then 64 else 14 }

    function Count(): nat { if IsWide() then 64 else 18 }
  }

  /** What has been found of each routine, zero if nothing. */
  datatype Addresses = Addresses(
    restGpr14: nat, saveGpr14: nat, restFpr14: nat, saveFpr14: nat,
    restVmx14: nat, saveVmx14: nat, restVmx64: nat, saveVmx64: nat)
  {
    predicate Complete() {
      && restGpr14 != 0 && saveGpr14 != 0 && restFpr14 != 0 && saveFpr14 != 0
      && restVmx14 != 0 && saveVmx14 != 0 && restVmx64 != 0 && saveVmx64 != 0
    }
  }

  /** A section; `code` is all its whole words. */
  datatype Section = Section(base: nat, isCode: bool, code: seq<Word>)

  const GPRS: nat := 18

  /** The routine's first access stands at index i. */
  ghost predicate StartsAt(h: Helper, code: seq<Word>, i: nat)
    requires i < |code|
  {
    match h
    case RestGpr => GprRunAt(true, code, i)
    case SaveGpr => GprRunAt(false, code, i)
    case RestFpr => RegisterRun(code, i, 14, GPRS, Fpr(true, Ra(code[i])))
    case SaveFpr => RegisterRun(code, i, 14, GPRS, Fpr(false, Ra(code[i])))
    case _ => VectorRun(code, i, h.First(), h.Count(), Vmx(h.Loads(), h.IsWide()))
  }

  /** Of doublewords or of words, relative to the stack pointer. */
  ghost predicate GprRunAt(load: bool, code: seq<Word>, i: nat)
    requires i < |code|
  {
    || RegisterRun(code, i, 14, GPRS, Gpr(load, true, 1))
    || RegisterRun(code, i, 14, GPRS, Gpr(load, false, 1))
  }

  /** In 32 bits; a vector routine begins at the set-up instruction in front of its first access. */
  function AddressAt(h: Helper, section: Section, i: nat): nat {
    (section.base + 4 * i - if h.IsVector() then 4 else 0) % 0x1_0000_0000
  }

  lemma RunBegins(code: seq<Word>, i: nat, m: Matcher)
    requires i < |code|
    ensures RegisterRun(code, i, 14, GPRS, m) ==> m.accepts(code[i], 14)
  {
    if RegisterRun(code, i, 14, GPRS, m) {
      assert AccessAt(code, i, 0, 14, m, m.displacement(code[i]));
    }
  }

  lemma NotBoth(w: Word, load: bool)
    ensures !(Gpr(load, true, 1).accepts(w, 14) && Gpr(load, false, 1).accepts(w, 14))
  {
  }

  /** The doubleword form is tried first, and then the word form is not. */
  method CheckGpr(load: bool, code: seq<Word>, i: nat) returns (starts: bool)
    requires i < |code|
    ensures starts <==> GprRunAt(load, code, i)
  {
    var doubles, words := Gpr(load, true, 1), Gpr(load, false, 1);
    RunBegins(code, i, doubles);
    RunBegins(code, i, words);
    NotBoth(code[i], load);
    var double := doubles.accepts(code[i], 14);
    if !double && !words.accepts(code[i], 14) {
      return false;
    }
    starts := DetectRegisterRun(code, i, 14, GPRS, if double then doubles else words);
  }

  method CheckAt(h: Helper, code: seq<Word>, i: nat) returns (starts: bool)
    requires i < |code|
    ensures starts <==> StartsAt(h, code, i)
  {
    if h.RestGpr? || h.SaveGpr? {
      starts := CheckGpr(h.Loads(), code, i);
    } else if h.RestFpr? || h.SaveFpr? {
      starts := DetectRegisterRun(code, i, 14, GPRS, Fpr(h.Loads(), Ra(code[i])));
    } else {
      starts := DetectVectorRun(code, i, h.First(), h.Count(), Vmx(h.Loads(), h.IsWide()));
    }
  }

  /** The address found among the first i words of a section, given what was found before. */
  ghost function FoundIn(h: Helper, section: Section, i: nat, before: nat): nat
    requires i <= |section.code|
  {
    if i == 0 then before
    else
      var found := FoundIn(h, section, i - 1, before);
      if found == 0 && StartsAt(h, section.code, i - 1) then AddressAt(h, section, i - 1) else found
  }

  /** Among the first s sections, of which those without code are passed over. */
  ghost function FoundUpTo(h: Helper, sections: seq<Section>, s: nat): nat
    requires s <= |sections|
  {
    if s == 0 then 0
    else if sections[s - 1].isCode then FoundIn(h, sections[s - 1], |sections[s - 1].code|, FoundUpTo(h, sections, s - 1))
    else FoundUpTo(h, sections, s - 1)
  }

  ghost predicate Traced(h: Helper, found: nat, section: Section, i: nat, before: nat)
    requires i <= |section.code|
  {
    found == FoundIn(h, section, i, before)
  }

  ghost predicate FoundSoFar(found: Addresses, section: Section, i: nat, before: Addresses)
    requires i <= |section.code|
  {
    && Traced(RestGpr, found.restGpr14, section, i, before.restGpr14)
    && Traced(SaveGpr, found.saveGpr14, section, i, before.saveGpr14)
    && Traced(RestFpr, found.restFpr14, section, i, before.restFpr14)
    && Traced(SaveFpr, found.saveFpr14, section, i, before.saveFpr14)
    && Traced(RestVmx14, found.restVmx14, section, i, before.restVmx14)
    && Traced(SaveVmx14, found.saveVmx14, section, i, before.saveVmx14)
    && Traced(RestVmx64, found.restVmx64, section, i, before.restVmx64)
    && Traced(SaveVmx64, found.saveVmx64, section, i, before.saveVmx64)
  }

  /** One routine is looked for at one word, unless it is known. */
  method CheckOne(h: Helper, known: nat, section: Section, i: nat, ghost before: nat) returns (found: nat)
    requires i < |section.code| && Traced(h, known, section, i, before)
    ensures Traced(h, found, section, i + 1, before)
  {
    found := known;
    if known == 0 {
      var starts := CheckAt(h, section.code, i);
      if starts {
        found := AddressAt(h, section, i);
      }
    }
  }

  method CheckAll(known: Addresses, section: Section, i: nat, ghost before: Addresses) returns (found: Addresses)
    requires i < |section.code| && FoundSoFar(known, section, i, before)
    ensures FoundSoFar(found, section, i + 1, before)
  {
    var restGpr14 := CheckOne(RestGpr, known.restGpr14, section, i, before.restGpr14);
    var saveGpr14 := CheckOne(SaveGpr, known.saveGpr14, section, i, before.saveGpr14);
    var restFpr14 := CheckOne(RestFpr, known.restFpr14, section, i, before.restFpr14);
    var saveFpr14 := CheckOne(SaveFpr, known.saveFpr14, section, i, before.saveFpr14);
    var restVmx14 := CheckOne(RestVmx14, known.restVmx14, section, i, before.restVmx14);
    var saveVmx14 := CheckOne(SaveVmx14, known.saveVmx14, section, i, before.saveVmx14);
    var restVmx64 := CheckOne(RestVmx64, known.restVmx64, section, i, before.restVmx64);
    var saveVmx64 := CheckOne(SaveVmx64, known.saveVmx64, section, i, before.saveVmx64);
    found := Addresses(restGpr14, saveGpr14, restFpr14, saveFpr14, restVmx14, saveVmx14, restVmx64, saveVmx64);
  }

  lemma {:induction false} FoundInStays(h: Helper, section: Section, i: nat, j: nat, before: nat)
    requires i <= j <= |section.code| && FoundIn(h, section, i, before) != 0
    ensures FoundIn(h, section, j, before) == FoundIn(h, section, i, before)
    decreases j
  {
    if i < j {
      FoundInStays(h, section, i, j - 1, before);
    }
  }

  lemma {:induction false} FoundUpToStays(h: Helper, sections: seq<Section>, s: nat, t: nat)
    requires s <= t <= |sections| && FoundUpTo(h, sections, s) != 0
    ensures FoundUpTo(h, sections, t) == FoundUpTo(h, sections, s)
    decreases t
  {
    if s < t {
      FoundUpToStays(h, sections, s, t - 1);
      FoundInStays(h, sections[t - 1], 0, |sections[t - 1].code|, FoundUpTo(h, sections, s));
    }
  }

  lemma TracedStays(h: Helper, found: nat, section: Section, i: nat, before: nat)
    requires i <= |section.code| && Traced(h, found, section, i, before) && found != 0
    ensures Traced(h, found, section, |section.code|, before)
  {
    FoundInStays(h, section, i, |section.code|, before);
  }

  lemma CompleteStays(found: Addresses, section: Section, i: nat, before: Addresses)
    requires i <= |section.code| && FoundSoFar(found, section, i, before) && found.Complete()
    ensures FoundSoFar(found, section, |section.code|, before)
  {
    TracedStays(RestGpr, found.restGpr14, section, i, before.restGpr14);
    TracedStays(SaveGpr, found.saveGpr14, section, i, before.saveGpr14);
    TracedStays(RestFpr, found.restFpr14, section, i, before.restFpr14);
    TracedStays(SaveFpr, found.saveFpr14, section, i, before.saveFpr14);
    TracedStays(RestVmx14, found.restVmx14, section, i, before.restVmx14);
    TracedStays(SaveVmx14, found.saveVmx14, section, i, before.saveVmx14);
    TracedStays(RestVmx64, found.restVmx64, section, i, before.restVmx64);
    TracedStays(SaveVmx64, found.saveVmx64, section, i, before.saveVmx64);
  }

  /** One section; stops early when everything has been found. */
  method DetectIn(section: Section, known: Addresses) returns (found: Addresses, all: bool)
    ensures FoundSoFar(found, section, |section.code|, known)
    ensures all ==> found.Complete()
  {
    found, all := known, false;
    for i := 0 to |section.code|
      invariant !all && FoundSoFar(found, section, i, known)
    {
      found := CheckAll(found, section, i, known);
      if found.Complete() {
        CompleteStays(found, section, i + 1, known);
        return found, true;
      }
    }
  }

  /** `found` holds what a full scan of the first s sections finds. */
  ghost predicate FoundIsScan(found: Addresses, sections: seq<Section>, s: nat)
    requires s <= |sections|
  {
    && found.restGpr14 == FoundUpTo(RestGpr, sections, s)
    && found.saveGpr14 == FoundUpTo(SaveGpr, sections, s)
    && found.restFpr14 == FoundUpTo(RestFpr, sections, s)
    && found.saveFpr14 == FoundUpTo(SaveFpr, sections, s)
    && found.restVmx14 == FoundUpTo(RestVmx14, sections, s)
    && found.saveVmx14 == FoundUpTo(SaveVmx14, sections, s)
    && found.restVmx64 == FoundUpTo(RestVmx64, sections, s)
    && found.saveVmx64 == FoundUpTo(SaveVmx64, sections, s)
  }

  /** Scans the code sections in order. */
  method DetectCrtHelpers(sections: seq<Section>) returns (found: Addresses)
    ensures found.restGpr14 == FoundUpTo(RestGpr, sections, |sections|)
    ensures found.saveGpr14 == FoundUpTo(SaveGpr, sections, |sections|)
    ensures found.restFpr14 == FoundUpTo(RestFpr, sections, |sections|)
    ensures found.saveFpr14 == FoundUpTo(SaveFpr, sections, |sections|)
    ensures found.restVmx14 == FoundUpTo(RestVmx14, sections, |sections|)
    ensures found.saveVmx14 == FoundUpTo(SaveVmx14, sections, |sections|)
    ensures found.restVmx64 == FoundUpTo(RestVmx64, sections, |sections|)
    ensures found.saveVmx64 == FoundUpTo(SaveVmx64, sections, |sections|)
  {
    found := Addresses(0, 0, 0, 0, 0, 0, 0, 0);
    for s := 0 to |sections|
      invariant FoundIsScan(found, sections, s)
    {
      if sections[s].isCode {
        var all;
        found, all := DetectIn(sections[s], found);
        if all {
          CompleteIsFinal(found, sections, s + 1);
          return;
        }
      }
    }
  }

  lemma CompleteIsFinal(found: Addresses, sections: seq<Section>, s: nat)
    requires s <= |sections| && FoundIsScan(found, sections, s) && found.Complete()
    ensures FoundIsScan(found, sections, |sections|)
  {
    FoundUpToStays(RestGpr, sections, s, |sections|);
    FoundUpToStays(SaveGpr, sections, s, |sections|);
    FoundUpToStays(RestFpr, sections, s, |sections|);
    FoundUpToStays(SaveFpr, sections, s, |sections|);
    FoundUpToStays(RestVmx14, sections, s, |sections|);
    FoundUpToStays(SaveVmx14, sections, s, |sections|);
    FoundUpToStays(RestVmx64, sections, s, |sections|);
    FoundUpToStays(SaveVmx64, sections, s, |sections|);
  }

  /** A match; one at address zero cannot be told from none. */
  ghost predicate Hit(h: Helper, section: Section, i: nat)
    requires i < |section.code|
  {
    StartsAt(h, section.code, i) && AddressAt(h, section, i) != 0
  }

  /** A found address is that of the first match in scan order; without one there is no match. */
  lemma {:induction false} FoundInIsFirst(h: Helper, section: Section, i: nat)
    requires i <= |section.code|
    ensures var found := FoundIn(h, section, i, 0);
            && (found == 0 <==> forall j :: 0 <= j < i ==> !Hit(h, section, j))
            && (found != 0 ==> exists j :: 0 <= j < i && Hit(h, section, j) && found == AddressAt(h, section, j)
                                        && forall k :: 0 <= k < j ==> !Hit(h, section, k))
  {
    if i > 0 {
      var j := i - 1;
      FoundInIsFirst(h, section, j);
      assert FoundIn(h, section, i, 0)
          == if FoundIn(h, section, j, 0) == 0 && Hit(h, section, j) then AddressAt(h, section, j) else FoundIn(h, section, j, 0);
    }
  }

  ghost predicate NoneIn(h: Helper, section: Section) {
    section.isCode ==> forall j :: 0 <= j < |section.code| ==> !Hit(h, section, j)
  }

  ghost predicate FirstIn(h: Helper, section: Section, found: nat) {
    section.isCode && exists j :: 0 <= j < |section.code| && Hit(h, section, j) && found == AddressAt(h, section, j)
                                 && forall k :: 0 <= k < j ==> !Hit(h, section, k)
  }

  lemma {:induction false} FoundIsFirst(h: Helper, sections: seq<Section>, s: nat)
    requires s <= |sections|
    ensures var found := FoundUpTo(h, sections, s);
            && (found == 0 <==> forall t :: 0 <= t < s ==> NoneIn(h, sections[t]))
            && (found != 0 ==> exists t :: 0 <= t < s && FirstIn(h, sections[t], found)
                                        && forall u :: 0 <= u < t ==> NoneIn(h, sections[u]))
  {
    if s > 0 {
      FoundIsFirst(h, sections, s - 1);
      var section := sections[s - 1];
      if FoundUpTo(h, sections, s - 1) != 0 {
        FoundInStays(h, section, 0, |section.code|, FoundUpTo(h, sections, s - 1));
      } else if section.isCode {
        FoundInIsFirst(h, section, |section.code|);
      }
    }
  }

  // ----- entries -----

  function EntryStride(h: Helper): nat { if h.IsVector() then 8 else 4 }

  /** Bytes that the recompiler adds behind the accesses. */
  function Tail(h: Helper): nat { if h.RestGpr? then 12 else if h.SaveGpr? then 8 else 4 }

  /** The function that is registered for register `reg`, given the routine's address. */
  function EntryBase(h: Helper, address: nat, reg: nat): nat
    requires h.First() <= reg
  {
    address + (reg - h.First()) * EntryStride(h)
  }

  function EntrySize(h: Helper, reg: nat): nat
    requires reg <= h.First() + h.Count()
  {
    (h.First() + h.Count() - reg) * EntryStride(h) + Tail(h)
  }

  /** The index of the first word that the entry executes, in a routine whose first access is at i. */
  function EntryWord(h: Helper, i: nat, reg: nat): int
    requires h.First() <= reg
  {
    if h.IsVector() then i - 1 + 2 * (reg - h.First()) else i + (reg - h.First())
  }

  /** A word that loads or stores register `reg`, as routine h does it. */
  predicate Serves(h: Helper, w: Word, reg: nat) {
    match h
    case RestGpr => IsLd(w, reg, 1) || IsLwz(w, reg, 1)
    case SaveGpr => IsStd(w, reg, 1) || IsStw(w, reg, 1)
    case RestFpr => IsLfd(w, reg)
    case SaveFpr => IsStfd(w, reg)
    case RestVmx14 => IsLvx(w, reg)
    case SaveVmx14 => IsStvx(w, reg)
    case RestVmx64 => IsLvx128(w, reg)
    case SaveVmx64 => IsStvx128(w, reg)
  }

  /** The entry's first word serves its register; in a vector routine that is set up first. */
  ghost predicate EntryServes(h: Helper, code: seq<Word>, w: int, reg: nat) {
    if h.IsVector() then 0 <= w < |code| - 1 && IsAddi(code[w]) && Serves(h, code[w + 1], reg)
    else 0 <= w < |code| && Serves(h, code[w], reg)
  }

  lemma GprServes(h: Helper, w: Word, reg: nat)
    requires h.RestGpr? || h.SaveGpr?
    ensures Gpr(h.Loads(), true, 1).accepts(w, reg) || Gpr(h.Loads(), false, 1).accepts(w, reg) ==> Serves(h, w, reg)
  {
  }

  lemma FprServes(h: Helper, w: Word, reg: nat, base: bv32)
    requires h.RestFpr? || h.SaveFpr?
    ensures Fpr(h.Loads(), base).accepts(w, reg) ==> Serves(h, w, reg)
  {
  }

  lemma VmxServes(h: Helper, w: Word, reg: nat)
    requires h.IsVector()
    ensures Vmx(h.Loads(), h.IsWide())(w, reg) ==> Serves(h, w, reg)
  {
  }

  lemma AcceptedAt(code: seq<Word>, i: nat, first: nat, m: Matcher, k: nat)
    requires i < |code| && RegisterRun(code, i, first, GPRS, m) && k < GPRS
    ensures i + k < |code| && m.accepts(code[i + k], first + k)
  {
    assert AccessAt(code, i, k, first, m, m.displacement(code[i]));
  }

  lemma PairedAt(code: seq<Word>, i: nat, first: nat, count: nat, accepts: (Word, nat) -> bool, k: nat)
    requires i < |code| && VectorRun(code, i, first, count, accepts) && k < count
    ensures 1 <= i + 2 * k < |code| && accepts(code[i + 2 * k], first + k) && IsAddi(code[i + 2 * k - 1])
  {
    assert PairAt(code, i, k, first, accepts, Ra(code[i]), Rb(code[i]));
  }

  lemma EntryIsServed(h: Helper, code: seq<Word>, i: nat, reg: nat)
    requires i < |code| && StartsAt(h, code, i) && h.First() <= reg < h.First() + h.Count()
    ensures EntryServes(h, code, EntryWord(h, i, reg), reg)
  {
    var k := reg - h.First();
    if h.IsVector() {
      PairedAt(code, i, h.First(), h.Count(), Vmx(h.Loads(), h.IsWide()), k);
      VmxServes(h, code[i + 2 * k], reg);
    } else if h.RestFpr? || h.SaveFpr? {
      AcceptedAt(code, i, 14, Fpr(h.Loads(), Ra(code[i])), k);
      FprServes(h, code[i + k], reg, Ra(code[i]));
    } else {
      GprIsServed(h, code, i, k);
    }
  }

  lemma GprIsServed(h: Helper, code: seq<Word>, i: nat, k: nat)
    requires (h.RestGpr? || h.SaveGpr?) && i < |code| && GprRunAt(h.Loads(), code, i) && k < GPRS
    ensures i + k < |code| && Serves(h, code[i + k], 14 + k)
  {
    AcceptedAt(code, i, 14, Gpr(h.Loads(), RegisterRun(code, i, 14, GPRS, Gpr(h.Loads(), true, 1)), 1), k);
    GprServes(h, code[i + k], 14 + k);
  }

  lemma AddressFits(h: Helper, section: Section, i: nat)
    requires i < |section.code| && section.base + 4 * |section.code| <= 0x1_0000_0000 && (h.IsVector() ==> i > 0)
    ensures AddressAt(h, section, i) == section.base + 4 * i - if h.IsVector() then 4 else 0
  {
  }

  lemma EntryLies(h: Helper, access: nat, i: nat, base: nat, reg: nat)
    requires h.First() <= reg <= h.First() + h.Count() && access == base + 4 * i && (h.IsVector() ==> i > 0)
    ensures var address := access - if h.IsVector() then 4 else 0;
            && EntryBase(h, address, reg) == base + 4 * EntryWord(h, i, reg)
            && EntryBase(h, address, reg) + EntrySize(h, reg) == base + 4 * EntryWord(h, i, h.First() + h.Count()) + Tail(h)
  {
  }

  // ----- the vector routines, word by word -----

  /** The access of register `reg` with the address registers ra and rb, as it is encoded. */
  predicate VectorWord(h: Helper, w: Word, reg: nat, ra: bv32, rb: bv32)
    requires h.IsVector()
  {
    match h
    case RestVmx14 => w == XForm(31, Bo(w), ra, rb, 103, 0) && Bo(w) as nat == reg
    case SaveVmx14 => w == XForm(31, Bo(w), ra, rb, 231, 0) && Bo(w) as nat == reg
    case RestVmx64 => w == DForm(4, Bo(w), ra, (rb << 11) | 0xC3 | (w & 0xC)) && (32 * ((w >> 2) & 3) + Bo(w)) as nat == reg
    case SaveVmx64 => w == DForm(4, Bo(w), ra, (rb << 11) | 0x1C3 | (w & 0xC)) && (32 * ((w >> 2) & 3) + Bo(w)) as nat == reg
    case _ => false
  }

  lemma LvxForm(w: Word, ra: bv32, rb: bv32)
    ensures ra < 32 && rb < 32 ==> (w == XForm(31, Bo(w), ra, rb, 103, 0)
                                    <==> w & 0xFC00_07FF == 0x7C00_00CE && Ra(w) == ra && Rb(w) == rb)
  {
  }

  lemma StvxForm(w: Word, ra: bv32, rb: bv32)
    ensures ra < 32 && rb < 32 ==> (w == XForm(31, Bo(w), ra, rb, 231, 0)
                                    <==> w & 0xFC00_07FF == 0x7C00_01CE && Ra(w) == ra && Rb(w) == rb)
  {
  }

  lemma Lvx128Form(w: Word, ra: bv32, rb: bv32)
    ensures ra < 32 && rb < 32 ==> (w == DForm(4, Bo(w), ra, (rb << 11) | 0xC3 | (w & 0xC))
                                    <==> w & 0xFC00_07F3 == 0x1000_00C3 && Ra(w) == ra && Rb(w) == rb)
  {
  }

  lemma Stvx128Form(w: Word, ra: bv32, rb: bv32)
    ensures ra < 32 && rb < 32 ==> (w == DForm(4, Bo(w), ra, (rb << 11) | 0x1C3 | (w & 0xC))
                                    <==> w & 0xFC00_07F3 == 0x1000_01C3 && Ra(w) == ra && Rb(w) == rb)
  {
  }

  lemma LvxWord(w: Word, reg: nat, ra: bv32, rb: bv32)
    requires ra < 32 && rb < 32
    ensures VectorWord(RestVmx14, w, reg, ra, rb) <==> IsLvx(w, reg) && Ra(w) == ra && Rb(w) == rb
    ensures VectorWord(SaveVmx14, w, reg, ra, rb) <==> IsStvx(w, reg) && Ra(w) == ra && Rb(w) == rb
  {
    LvxForm(w, ra, rb);
    StvxForm(w, ra, rb);
  }

  lemma Lvx128Word(w: Word, reg: nat, ra: bv32, rb: bv32)
    requires ra < 32 && rb < 32
    ensures VectorWord(RestVmx64, w, reg, ra, rb) <==> IsLvx128(w, reg) && Ra(w) == ra && Rb(w) == rb
    ensures VectorWord(SaveVmx64, w, reg, ra, rb) <==> IsStvx128(w, reg) && Ra(w) == ra && Rb(w) == rb
  {
    Lvx128Form(w, ra, rb);
    Stvx128Form(w, ra, rb);
    Vd128Field(w);
  }

  lemma RegistersFit(w: Word)
    ensures Ra(w) < 32 && Rb(w) < 32
  {
  }

  lemma VectorWordExactly(h: Helper, w: Word, reg: nat, ra: bv32, rb: bv32)
    requires h.IsVector() && ra < 32 && rb < 32
    ensures VectorWord(h, w, reg, ra, rb) <==> Vmx(h.Loads(), h.IsWide())(w, reg) && Ra(w) == ra && Rb(w) == rb
  {
    if h.IsWide() {
      Lvx128Word(w, reg, ra, rb);
    } else {
      LvxWord(w, reg, ra, rb);
    }
  }

  /** The k-th `addi` and the access behind it. */
  ghost predicate VectorPair(h: Helper, code: seq<Word>, i: nat, k: nat, first: nat, ra: bv32, rb: bv32)
    requires h.IsVector()
  {
    1 <= i + 2 * k < |code| && VectorWord(h, code[i + 2 * k], first + k, ra, rb) && code[i + 2 * k - 1] >> 26 == 14
  }

  /** The eighteen or sixty-four pairs, with the same address registers. */
  ghost predicate VectorPairs(h: Helper, code: seq<Word>, i: nat, ra: bv32, rb: bv32)
    requires h.IsVector()
  {
    && ra < 32 && rb < 32
    && if h.IsWide() then PairsFrom(h, code, i, 64, 64, ra, rb) else PairsFrom(h, code, i, 14, 18, ra, rb)
  }

  ghost predicate PairsFrom(h: Helper, code: seq<Word>, i: nat, first: nat, count: nat, ra: bv32, rb: bv32)
    requires h.IsVector()
  {
    forall k: nat :: k < count ==> VectorPair(h, code, i, k, first, ra, rb)
  }

  lemma IsAddiWord(w: Word)
    ensures IsAddi(w) <==> w >> 26 == 14
  {
  }

  lemma VectorPairExactly(h: Helper, code: seq<Word>, i: nat, k: nat, first: nat, ra: bv32, rb: bv32,
                          accepts: (Word, nat) -> bool)
    requires h.IsVector() && ra < 32 && rb < 32 && accepts == Vmx(h.Loads(), h.IsWide())
    ensures VectorPair(h, code, i, k, first, ra, rb) <==> PairAt(code, i, k, first, accepts, ra, rb)
  {
    if 1 <= i + 2 * k < |code| {
      VectorWordExactly(h, code[i + 2 * k], first + k, ra, rb);
      IsAddiWord(code[i + 2 * k - 1]);
    }
  }

  lemma PairsAreFound(h: Helper, code: seq<Word>, i: nat, first: nat, count: nat, ra: bv32, rb: bv32,
                      accepts: (Word, nat) -> bool)
    requires h.IsVector() && ra < 32 && rb < 32 && accepts == Vmx(h.Loads(), h.IsWide())
    ensures PairsFrom(h, code, i, first, count, ra, rb) <==>
            forall k: nat :: k < count ==> PairAt(code, i, k, first, accepts, ra, rb)
  {
    forall k: nat | k < count
      ensures VectorPair(h, code, i, k, first, ra, rb) <==> PairAt(code, i, k, first, accepts, ra, rb)
    {
      VectorPairExactly(h, code, i, k, first, ra, rb, accepts);
    }
  }

  lemma FirstPair(code: seq<Word>, i: nat, count: nat, first: nat, accepts: (Word, nat) -> bool, ra: bv32, rb: bv32)
    requires count > 0 && i < |code| && forall k: nat :: k < count ==> PairAt(code, i, k, first, accepts, ra, rb)
    ensures ra == Ra(code[i]) && rb == Rb(code[i])
  {
    assert PairAt(code, i, 0, first, accepts, ra, rb);
  }

  /** A vector routine is found exactly where such pairs begin. */
  lemma VectorRoutineExactly(h: Helper, code: seq<Word>, i: nat)
    requires h.IsVector() && i < |code|
    ensures StartsAt(h, code, i) <==> exists ra, rb :: VectorPairs(h, code, i, ra, rb)
  {
    var accepts := Vmx(h.Loads(), h.IsWide());
    if StartsAt(h, code, i) {
      RegistersFit(code[i]);
      PairsAreFound(h, code, i, h.First(), h.Count(), Ra(code[i]), Rb(code[i]), accepts);
      assert VectorPairs(h, code, i, Ra(code[i]), Rb(code[i]));
    }
    forall ra, rb | VectorPairs(h, code, i, ra, rb)
      ensures StartsAt(h, code, i)
    {
      PairsAreFound(h, code, i, h.First(), h.Count(), ra, rb, accepts);
      FirstPair(code, i, h.Count(), h.First(), accepts, ra, rb);
    }
  }

  /** Where the last entry ends: behind all registers, and what restores or saves LR and returns. */
  function EndOf(h: Helper, i: nat): nat {
    match h
    case RestGpr => 4 * (i + 18 + 3)
    case SaveGpr => 4 * (i + 18 + 2)
    case RestFpr | SaveFpr => 4 * (i + 18 + 1)
    case RestVmx14 | SaveVmx14 => 4 * (i + 36)
    case RestVmx64 | SaveVmx64 => 4 * (i + 128)
  }

  /**
   The registered entries of a routine that was found at i: each begins with the word that serves its
   register, and they overlap and all end at one address, behind the last register and the tail.
   */
  lemma EntriesEndTogether(h: Helper, section: Section, i: nat, reg: nat)
    requires i < |section.code| && StartsAt(h, section.code, i)
    requires if h.IsWide() then 64 <= reg < 128 else 14 <= reg < 32
    requires section.base + 4 * |section.code| <= 0x1_0000_0000
    ensures var address := AddressAt(h, section, i);
            && EntryServes(h, section.code, EntryWord(h, i, reg), reg)
            && EntryBase(h, address, reg) == section.base + 4 * EntryWord(h, i, reg)
            && EntryBase(h, address, reg) + EntrySize(h, reg) == section.base + EndOf(h, i)
  {
    EntryIsServed(h, section.code, i, reg);
    EntryIsServed(h, section.code, i, h.First());
    AddressFits(h, section, i);
    EntryLies(h, section.base + 4 * i, i, section.base, reg);
  }
}
