/**
 The emitted statements do what the guest does: every guest step is matched by host steps that end
 at the statements of the next guest instruction, over whole runs and up to the return.
 */
module Simulation {
  import opened PpcWord
  import opened BranchDecoding
  import opened Translator
  import opened LabelClosure
  import opened Fpscr
  import opened HostRuns
  import opened GuestRuns

  // ----- where the statements of an instruction are -----

  ghost function Labels(e: Env): set<int>
    requires e.Count() <= |e.code|
  {
    LabelsUpTo(e, e.Count())
  }

  /** What the emitter carries just before instruction k. */
  ghost function CarryAt(e: Env, k: nat): Carry
    requires k < e.Count() <= |e.code|
  {
    CarryBefore(e, Labels(e), k)
  }

  ghost function Text(e: Env, k: nat): seq<Stmt>
    requires k < e.Count() <= |e.code|
  {
    InsnStmts(e, e.Addr(k), e.code[k], CarryAt(e, k))
  }

  /** The statements in front of instruction k, with its label. */
  ghost function Before(e: Env, k: nat): seq<Stmt>
    requires k <= e.Count() <= |e.code|
  {
    EmitUpTo(e, Labels(e), k).stmts + if k < e.Count() then LabelStmts(Labels(e), e.Addr(k)) else []
  }

  ghost function Entry(e: Env, k: nat): nat
    requires k <= e.Count() <= |e.code|
  {
    |Before(e, k)|
  }

  lemma ChunkUnfolds(e: Env, k: nat)
    requires k < e.Count() <= |e.code|
    ensures EmitUpTo(e, Labels(e), k + 1).stmts == Before(e, k) + Text(e, k)
  {
  }

  ghost predicate IsPrefix(e: Env, j: nat, k: nat)
    requires j <= e.Count() <= |e.code| && k <= e.Count()
  {
    EmitUpTo(e, Labels(e), j).stmts <= EmitUpTo(e, Labels(e), k).stmts
  }

  lemma PrefixGrows(e: Env, j: nat, k: nat, next: nat)
    requires j <= k < e.Count() <= |e.code| && next == k + 1 && IsPrefix(e, j, k)
    ensures IsPrefix(e, j, next)
  {
    ChunkUnfolds(e, k);
  }

  lemma PrefixOfItself(e: Env, j: nat, k: nat)
    requires j == k <= e.Count() <= |e.code|
    ensures IsPrefix(e, j, k)
  {
  }

  lemma {:induction false} EmittedIsPrefix(e: Env, j: nat, k: nat)
    requires j <= k <= e.Count() <= |e.code|
    ensures IsPrefix(e, j, k)
    decreases k
  {
    if j == k {
      PrefixOfItself(e, j, k);
    } else {
      var i := k - 1;
      EmittedIsPrefix(e, j, i);
      PrefixGrows(e, j, i, k);
    }
  }

  ghost predicate HasAt(stmts: seq<Stmt>, p: nat, text: seq<Stmt>) {
    p + |text| <= |stmts| && stmts[p..p + |text|] == text
  }

  lemma ChunkIsEmitted(e: Env, k: nat)
    requires k < e.Count() <= |e.code|
    ensures Before(e, k) <= Emitted(e).stmts && HasAt(Emitted(e).stmts, Entry(e, k), Text(e, k))
    ensures Entry(e, k) + |Text(e, k)| == |EmitUpTo(e, Labels(e), k + 1).stmts| <= |Emitted(e).stmts|
  {
    ChunkUnfolds(e, k);
    EmittedIsPrefix(e, k + 1, e.Count());
    PrefixHas(Before(e, k), Text(e, k), Emitted(e).stmts);
  }

  lemma PrefixHas(x: seq<Stmt>, y: seq<Stmt>, stmts: seq<Stmt>)
    requires x + y <= stmts
    ensures x <= stmts && HasAt(stmts, |x|, y)
  {
    assert stmts[..|x + y|] == x + y;
    assert stmts[|x|..|x| + |y|] == (x + y)[|x|..];
  }

  // ----- running the statements of one instruction -----

  /** What the translator cannot know and takes for granted when instruction `insn` runs. */
  predicate Supported(e: Env, c: Carry, insn: Insn, ctx: Ctx) {
    match insn
    case Jump(t) => e.InRange(t) || CalleeOf(e, t).Function?
    case Call(t) => CalleeOf(e, t).Function?
    case JumpIf(test, t) => e.InRange(t) || (!test.Decrements() && CalleeOf(e, t).Function?)
    case JumpCtr => (match c.table case Some(table) => FollowsTable(e, table, ctx) case None => LeavesByCtr(e, ctx))
    case JumpCtrIf(test) => test.Holds(ctx.ctr, ctx.cr) ==> LeavesByCtr(e, ctx)
    case ReturnIf(_) => true
    case CallCtr => true
    case Plain => true
    case _ => false
  }

  /** CTR holds the table's entry for the index register: what recovering the table promises. */
  predicate FollowsTable(e: Env, table: Table, ctx: Ctx) {
    var index := ctx.Gpr(table.index);
    index < |table.labels| && table.labels[index] == LowWord(ctx.ctr) && e.InRange(LowWord(ctx.ctr))
  }

  predicate LeavesByCtr(e: Env, ctx: Ctx) { !e.InRange(LowWord(ctx.ctr)) }

  ghost predicate FellThrough(end: nat, a: nat, g: Guest, r: Run)
    requires g.At?
  {
    g.address == a + 4 && r.Running? && r.pc == end && r.host.ctx == g.ctx
  }

  ghost predicate Jumped(stmts: seq<Stmt>, text: seq<Stmt>, g: Guest, r: Run)
    requires g.At?
  {
    JumpsTo(text, g.address) && exists h: Host :: h.ctx == g.ctx && r == JumpTo(stmts, g.address, h)
  }

  /** The host has done what the guest did, and is behind the text or jumps where the guest went. */
  ghost predicate Outcome(stmts: seq<Stmt>, p: nat, text: seq<Stmt>, a: nat, g: Guest, r: Run) {
    if g.Returned? then r.Done? && r.host.ctx == g.ctx
    else FellThrough(p + |text|, a, g, r) || Jumped(stmts, text, g, r)
  }

  lemma RunOne(w: World, stmts: seq<Stmt>, r: Run)
    ensures HostRun(w, stmts, r, 1) == HostStep(w, stmts, r)
  {
    assert HostRun(w, stmts, r, 0) == r;
  }

  lemma RunTwo(w: World, stmts: seq<Stmt>, r: Run)
    ensures HostRun(w, stmts, r, 2) == HostStep(w, stmts, HostStep(w, stmts, r))
  {
    RunOne(w, stmts, r);
  }

  lemma HasAtIndex(stmts: seq<Stmt>, p: nat, text: seq<Stmt>, i: nat)
    requires HasAt(stmts, p, text) && i < |text|
    ensures p + i < |stmts| && stmts[p + i] == text[i]
  {
    assert stmts[p..p + |text|][i] == stmts[p + i];
  }

  /** A text of two statements, the first of which does not branch. */
  lemma RunPair(w: World, stmts: seq<Stmt>, p: nat, text: seq<Stmt>, h: Host)
    requires HasAt(stmts, p, text) && |text| == 2
    ensures p + 2 <= |stmts| && stmts[p] == text[0] && stmts[p + 1] == text[1]
    ensures var r := Exec(w, stmts, p, h);
            r.Running? && r.pc == p + 1 ==> HostRun(w, stmts, Running(p, h), 2) == Exec(w, stmts, p + 1, r.host)
  {
    HasAtIndex(stmts, p, text, 0);
    HasAtIndex(stmts, p, text, 1);
    RunTwo(w, stmts, Running(p, h));
  }

  lemma RunSingle(w: World, stmts: seq<Stmt>, p: nat, text: seq<Stmt>, h: Host)
    requires HasAt(stmts, p, text) && |text| == 1
    ensures p + 1 <= |stmts| && stmts[p] == text[0]
    ensures HostRun(w, stmts, Running(p, h), 1) == Exec(w, stmts, p, h)
  {
    HasAtIndex(stmts, p, text, 0);
    RunOne(w, stmts, Running(p, h));
  }

  ghost predicate TextDoes(e: Env, w: World, a: nat, word: Word, insn: Insn, c: Carry, stmts: seq<Stmt>, p: nat, h: Host) {
    var text := StmtsFor(e, a, word, insn, c);
    && |text| > 0
    && Outcome(stmts, p, text, a, InsnStep(e, w, a, word, insn, h.ctx), HostRun(w, stmts, Running(p, h), |text|))
  }

  lemma SwitchedPlainRuns(e: Env, w: World, a: nat, word: Word, c: Carry, stmts: seq<Stmt>, p: nat, h: Host)
    requires HasAt(stmts, p, StmtsFor(e, a, word, Plain, c)) && |StmtsFor(e, a, word, Plain, c)| == 2
    requires w.need == e.need && InMode(w.arch, Live(c.csr), h.csr)
    ensures TextDoes(e, w, a, word, Plain, c, stmts, p, h)
  {
    var text := StmtsFor(e, a, word, Plain, c);
    RunPair(w, stmts, p, text, h);
    SwitchFlushSwitches(w.arch, h.csr, text[0].enable, text[0].unconditional);
  }

  lemma DoRuns(w: World, stmts: seq<Stmt>, p: nat, a: nat, word: Word, h: Host, g: Guest)
    requires HasAt(stmts, p, [Do(word)]) && g == At(a + 4, Performed(w, word, h).ctx)
    ensures Outcome(stmts, p, [Do(word)], a, g, HostRun(w, stmts, Running(p, h), 1))
  {
    RunSingle(w, stmts, p, [Do(word)], h);
  }

  lemma BarePlainRuns(e: Env, w: World, a: nat, word: Word, c: Carry, stmts: seq<Stmt>, p: nat, h: Host)
    requires HasAt(stmts, p, StmtsFor(e, a, word, Plain, c)) && |StmtsFor(e, a, word, Plain, c)| == 1
    requires w.need == e.need && InMode(w.arch, Live(c.csr), h.csr)
    ensures TextDoes(e, w, a, word, Plain, c, stmts, p, h)
  {
    assert StmtsFor(e, a, word, Plain, c) == [Do(word)];
    DoRuns(w, stmts, p, a, word, h, InsnStep(e, w, a, word, Plain, h.ctx));
  }

  lemma PlainRuns(e: Env, w: World, a: nat, word: Word, c: Carry, stmts: seq<Stmt>, p: nat, h: Host)
    requires HasAt(stmts, p, StmtsFor(e, a, word, Plain, c))
    requires w.need == e.need && InMode(w.arch, Live(c.csr), h.csr)
    ensures TextDoes(e, w, a, word, Plain, c, stmts, p, h)
  {
    if |StmtsFor(e, a, word, Plain, c)| == 1 {
      BarePlainRuns(e, w, a, word, c, stmts, p, h);
    } else {
      SwitchedPlainRuns(e, w, a, word, c, stmts, p, h);
    }
  }

  lemma CallRuns(e: Env, w: World, a: nat, word: Word, insn: Insn, c: Carry, stmts: seq<Stmt>, p: nat, h: Host)
    requires HasAt(stmts, p, StmtsFor(e, a, word, insn, c))
    requires (insn.Call? || insn.CallCtr?) && Supported(e, c, insn, h.ctx)
    ensures TextDoes(e, w, a, word, insn, c, stmts, p, h)
  {
    var text := StmtsFor(e, a, word, insn, c);
    if e.skipLr {
      RunSingle(w, stmts, p, text, h);
    } else {
      RunPair(w, stmts, p, text, h);
    }
  }

  lemma JumpRuns(e: Env, w: World, a: nat, word: Word, t: nat, c: Carry, stmts: seq<Stmt>, p: nat, h: Host)
    requires HasAt(stmts, p, StmtsFor(e, a, word, Jump(t), c))
    requires Supported(e, c, Jump(t), h.ctx)
    ensures TextDoes(e, w, a, word, Jump(t), c, stmts, p, h)
  {
    var text := StmtsFor(e, a, word, Jump(t), c);
    if e.InRange(t) {
      RunSingle(w, stmts, p, text, h);
      assert t in Targets(text[0]);
    } else {
      RunPair(w, stmts, p, text, h);
    }
  }

  lemma JumpIfRuns(e: Env, w: World, a: nat, word: Word, insn: Insn, c: Carry, stmts: seq<Stmt>, p: nat, h: Host)
    requires HasAt(stmts, p, StmtsFor(e, a, word, insn, c))
    requires insn.JumpIf? && Supported(e, c, insn, h.ctx)
    ensures TextDoes(e, w, a, word, insn, c, stmts, p, h)
  {
    var text := StmtsFor(e, a, word, insn, c);
    if insn.test.Decrements() {
      RunPair(w, stmts, p, text, h);
      assert insn.target in Targets(text[1]);
    } else {
      RunSingle(w, stmts, p, text, h);
      assert e.InRange(insn.target) ==> insn.target in Targets(text[0]);
    }
  }

  lemma ReturnIfRuns(e: Env, w: World, a: nat, word: Word, insn: Insn, c: Carry, stmts: seq<Stmt>, p: nat, h: Host)
    requires HasAt(stmts, p, StmtsFor(e, a, word, insn, c))
    requires insn.ReturnIf? || insn.JumpCtrIf?
    requires Supported(e, c, insn, h.ctx)
    ensures TextDoes(e, w, a, word, insn, c, stmts, p, h)
  {
    var text := StmtsFor(e, a, word, insn, c);
    if |text| == 2 {
      RunPair(w, stmts, p, text, h);
    } else {
      RunSingle(w, stmts, p, text, h);
    }
  }

  lemma JumpCtrRuns(e: Env, w: World, a: nat, word: Word, c: Carry, stmts: seq<Stmt>, p: nat, h: Host)
    requires HasAt(stmts, p, StmtsFor(e, a, word, JumpCtr, c))
    requires Supported(e, c, JumpCtr, h.ctx)
    ensures TextDoes(e, w, a, word, JumpCtr, c, stmts, p, h)
  {
    var text := StmtsFor(e, a, word, JumpCtr, c);
    match c.table {
      case Some(table) =>
        RunSingle(w, stmts, p, text, h);
        var cases, index := CasesOf(e, table), h.ctx.Gpr(table.index);
        assert cases[index] == GotoCase(LowWord(h.ctx.ctr));
        assert LowWord(h.ctx.ctr) in Targets(text[0]);
      case None =>
        RunPair(w, stmts, p, text, h);
    }
  }

  /** The statements of one instruction do what the instruction does, in as many steps as there are statements. */
  lemma TextRuns(e: Env, w: World, a: nat, word: Word, insn: Insn, c: Carry, stmts: seq<Stmt>, p: nat, h: Host)
    requires HasAt(stmts, p, StmtsFor(e, a, word, insn, c)) && Supported(e, c, insn, h.ctx)
    requires w.need == e.need && InMode(w.arch, Live(c.csr), h.csr)
    ensures TextDoes(e, w, a, word, insn, c, stmts, p, h)
  {
    match insn {
      case Jump(t) => JumpRuns(e, w, a, word, t, c, stmts, p, h);
      case Call(_) => CallRuns(e, w, a, word, insn, c, stmts, p, h);
      case CallCtr => CallRuns(e, w, a, word, insn, c, stmts, p, h);
      case JumpIf(_, _) => JumpIfRuns(e, w, a, word, insn, c, stmts, p, h);
      case ReturnIf(_) => ReturnIfRuns(e, w, a, word, insn, c, stmts, p, h);
      case JumpCtrIf(_) => ReturnIfRuns(e, w, a, word, insn, c, stmts, p, h);
      case JumpCtr => JumpCtrRuns(e, w, a, word, c, stmts, p, h);
      case Plain => PlainRuns(e, w, a, word, c, stmts, p, h);
    }
  }

  /**
   What happens outside of that. blrl stops the run; other words without an emitter case do nothing; a jump or call
   to an address that no function symbol names is dropped, and the jump returns.
   */
  lemma UnsupportedRuns(e: Env, w: World, a: nat, word: Word, insn: Insn, c: Carry, stmts: seq<Stmt>, p: nat, h: Host)
    requires HasAt(stmts, p, StmtsFor(e, a, word, insn, c))
    ensures insn.Trap? ==> HostRun(w, stmts, Running(p, h), 1) == Stuck
    ensures insn.Unhandled? || insn.Undecodable? ==> HasAt(stmts, p, []) && StmtsFor(e, a, word, insn, c) == []
    ensures insn.Jump? && !e.InRange(insn.target) && CalleeOf(e, insn.target).Missing? ==>
              HostRun(w, stmts, Running(p, h), 2) == Done(h)
    ensures insn.Call? && CalleeOf(e, insn.target).Missing? && e.skipLr ==>
              HostRun(w, stmts, Running(p, h), 1) == Running(p + 1, h)
  {
    var text := StmtsFor(e, a, word, insn, c);
    if |text| == 1 {
      RunSingle(w, stmts, p, text, h);
    } else if |text| == 2 {
      RunPair(w, stmts, p, text, h);
    }
  }

  // ----- from one instruction to the next -----

  lemma {:induction false} CountedLabel(stmts: seq<Stmt>, t: int, j: nat)
    requires j < |stmts| && stmts[j] == Label(t)
    ensures LabelCount(stmts, t) > 0
    decreases |stmts|
  {
    if j < |stmts| - 1 {
      CountedLabel(stmts[..|stmts| - 1], t, j);
    }
  }

  lemma FirstLabelIsUnique(stmts: seq<Stmt>, t: int, i: nat, h: Host)
    requires IsFirstLabel(stmts, t, i)
    ensures JumpTo(stmts, t, h) == Running(i + 1, h)
  {
    forall j: nat | IsFirstLabel(stmts, t, j)
      ensures j == i
    {
    }
  }

  lemma LabelIsFirst(e: Env, k: nat)
    requires e.Valid() && k < e.Count() && e.Addr(k) as int in Labels(e)
    ensures Entry(e, k) > 0 && IsFirstLabel(Emitted(e).stmts, e.Addr(k), Entry(e, k) - 1)
  {
    var o, before, all := EmitUpTo(e, Labels(e), k), Before(e, k), Emitted(e).stmts;
    var p := |o.stmts|;
    ChunkIsEmitted(e, k);
    LabelsEmitted(e, Labels(e), k, e.Addr(k));
    assert LabelCount(o.stmts, e.Addr(k)) == 0;
    assert before[p] == Label(e.Addr(k)) && all[p] == before[p];
    forall j | 0 <= j < p
      ensures all[j] != Label(e.Addr(k))
    {
      assert all[j] == before[j] == o.stmts[j];
      if o.stmts[j] == Label(e.Addr(k)) {
        CountedLabel(o.stmts, e.Addr(k), j);
      }
    }
  }

  /** A goto to a scanned instruction arrives at its statements. */
  lemma JumpArrives(e: Env, k: nat, h: Host)
    requires e.Valid() && k < e.Count() && e.Addr(k) as int in Labels(e)
    ensures JumpTo(Emitted(e).stmts, e.Addr(k), h) == Running(Entry(e, k), h)
  {
    LabelIsFirst(e, k);
    FirstLabelIsUnique(Emitted(e).stmts, e.Addr(k), Entry(e, k) - 1, h);
  }

  lemma InsnAt(e: Env, t: int) returns (k: nat)
    requires WellPlaced(e) && e.InRange(t) && t % 4 == 0
    ensures k < e.Count() && e.Addr(k) == t
  {
    k := (t - e.base) / 4;
  }

  /** The emitter's mode and the text's agree at the entry, wherever a run can be. */
  lemma EntryMode(e: Env, k: nat, arch: Arch, c: Csr)
    requires e.Valid() && k < e.Count()
    requires Entry(e, k) <= |Emitted(e).stmts| && InMode(arch, ModeAt(Emitted(e).stmts, Entry(e, k)), c)
    ensures InMode(arch, Live(CarryAt(e, k).csr), c)
  {
    var o, all := EmitUpTo(e, Labels(e), k), Emitted(e).stmts;
    ChunkIsEmitted(e, k);
    assert all[..Entry(e, k)] == Before(e, k);
    EmittedKeepsMode(e, Labels(e), k);
    assert KeepsMode(e.need, o);
    ModeAfterSum(o.stmts, LabelStmts(Labels(e), e.Addr(k)), Live(Unknown));
    LabelKeepsMode(e.need, Labels(e), e.Addr(k), o.carry.csr, ModeAfter(o.stmts, Live(Unknown)));
  }

  /** Guest and host are at the same instruction, or both gone, with the same guest state. */
  ghost predicate Matches(e: Env, g: Guest, r: Run)
    requires e.Valid()
  {
    match g
    case Returned(ctx) => r.Done? && r.host.ctx == ctx
    case At(a, ctx) => r.Running? && r.host.ctx == ctx && exists k: nat :: AtEntry(e, k, a, r.pc)
  }

  ghost predicate AtEntry(e: Env, k: nat, a: int, pc: nat)
    requires e.Valid()
  {
    k <= e.Count() && a == e.Addr(k) && pc == Entry(e, k)
  }

  /** The host gets to where the guest is, in `least` steps or more. */
  ghost predicate Reaches(e: Env, w: World, g: Guest, r: Run, least: nat)
    requires e.Valid()
  {
    exists n: nat :: n >= least && Matches(e, g, HostRun(w, Emitted(e).stmts, r, n))
  }

  lemma MatchReaches(e: Env, w: World, k: nat, a: int, h: Host)
    requires e.Valid() && k <= e.Count() && a == e.Addr(k)
    ensures Matches(e, At(a, h.ctx), Running(Entry(e, k), h))
    ensures Reaches(e, w, At(a, h.ctx), Running(Entry(e, k), h), 0)
  {
    assert AtEntry(e, k, a, Entry(e, k));
    var r := Running(Entry(e, k), h);
    assert HostRun(w, Emitted(e).stmts, r, 0) == r;
  }

  lemma StepsReach(e: Env, w: World, g: Guest, r: Run, n: nat, s: Run)
    requires e.Valid() && HostRun(w, Emitted(e).stmts, r, n) == s && Matches(e, g, s)
    ensures Reaches(e, w, g, r, 0)
  {
  }

  lemma LabelSteps(w: World, stmts: seq<Stmt>, i: nat, t: int, h: Host)
    requires i < |stmts| && stmts[i] == Label(t)
    ensures HostRun(w, stmts, Running(i, h), 1) == Running(i + 1, h)
  {
    RunOne(w, stmts, Running(i, h));
  }

  lemma LabelPassed(e: Env, w: World, k: nat, h: Host)
    requires e.Valid() && k < e.Count() && e.Addr(k) as int in Labels(e)
    ensures Entry(e, k) > 0
    ensures HostRun(w, Emitted(e).stmts, Running(Entry(e, k) - 1, h), 1) == Running(Entry(e, k), h)
  {
    LabelIsFirst(e, k);
    LabelSteps(w, Emitted(e).stmts, Entry(e, k) - 1, e.Addr(k), h);
  }

  lemma LabelReaches(e: Env, w: World, k: nat, h: Host)
    requires e.Valid() && k < e.Count() && e.Addr(k) as int in Labels(e)
    ensures Entry(e, k) > 0 && Reaches(e, w, At(e.Addr(k), h.ctx), Running(Entry(e, k) - 1, h), 0)
  {
    LabelPassed(e, w, k, h);
    MatchReaches(e, w, k, e.Addr(k), h);
    StepsReach(e, w, At(e.Addr(k), h.ctx), Running(Entry(e, k) - 1, h), 1, Running(Entry(e, k), h));
  }

  lemma LabelLength(e: Env, k: nat)
    requires e.Valid() && k <= e.Count()
    ensures Entry(e, k) == |EmitUpTo(e, Labels(e), k).stmts| + if k < e.Count() && e.Addr(k) as int in Labels(e) then 1 else 0
  {
  }

  /** Falling into an instruction passes its label. */
  lemma FallsThrough(e: Env, w: World, k: nat, h: Host)
    requires e.Valid() && k <= e.Count()
    ensures Reaches(e, w, At(e.Addr(k), h.ctx), Running(|EmitUpTo(e, Labels(e), k).stmts|, h), 0)
  {
    LabelLength(e, k);
    if k < e.Count() && e.Addr(k) as int in Labels(e) {
      LabelReaches(e, w, k, h);
    } else {
      MatchReaches(e, w, k, e.Addr(k), h);
    }
  }

  lemma JumpIsScanned(e: Env, k: nat, b: int)
    requires e.Valid() && e.Disassembled() && k < e.Count() && e.InRange(b)
    requires JumpsTo(Text(e, k), b)
    ensures b in Labels(e)
  {
    InsnTargetWasScanned(e, Labels(e), k, b);
    ScanGrows(e, k + 1, e.Count());
  }

  lemma JumpReaches(e: Env, w: World, b: int, h: Host)
    requires WellPlaced(e) && e.InRange(b) && b % 4 == 0 && b in Labels(e)
    ensures Reaches(e, w, At(b, h.ctx), JumpTo(Emitted(e).stmts, b, h), 0)
  {
    var m := InsnAt(e, b);
    JumpArrives(e, m, h);
    MatchReaches(e, w, m, b, h);
  }

  lemma FellThroughReaches(e: Env, w: World, k: nat, g: Guest, r: Run)
    requires e.Valid() && k < e.Count() && g.At?
    requires FellThrough(Entry(e, k) + |Text(e, k)|, e.Addr(k), g, r)
    ensures Reaches(e, w, g, r, 0)
  {
    ChunkIsEmitted(e, k);
    FallsThrough(e, w, k + 1, r.host);
    assert g == At(e.Addr(k + 1), r.host.ctx);
    assert r == Running(|EmitUpTo(e, Labels(e), k + 1).stmts|, r.host);
  }

  lemma JumpedReaches(e: Env, w: World, k: nat, g: Guest, r: Run)
    requires WellPlaced(e) && k < e.Count() && CounterStaysInside(e, k) && g.At?
    requires Jumped(Emitted(e).stmts, Text(e, k), g, r)
    ensures Reaches(e, w, g, r, 0)
  {
    var h: Host :| h.ctx == g.ctx && r == JumpTo(Emitted(e).stmts, g.address, h);
    InsnJumpsInside(e, Labels(e), k, g.address);
    JumpIsScanned(e, k, g.address);
    JumpReaches(e, w, g.address, h);
    assert g == At(g.address, h.ctx);
  }

  /** After an outcome the host arrives in at most one more step. */
  lemma OutcomeReaches(e: Env, w: World, k: nat, g: Guest, r: Run)
    requires WellPlaced(e) && k < e.Count() && CounterStaysInside(e, k)
    requires Outcome(Emitted(e).stmts, Entry(e, k), Text(e, k), e.Addr(k), g, r)
    ensures Reaches(e, w, g, r, 0)
  {
    if g.Returned? {
      assert HostRun(w, Emitted(e).stmts, r, 0) == r;
    } else if FellThrough(Entry(e, k) + |Text(e, k)|, e.Addr(k), g, r) {
      FellThroughReaches(e, w, k, g, r);
    } else {
      JumpedReaches(e, w, k, g, r);
    }
  }

  // ----- steps and runs -----

  ghost function Index(e: Env, a: int): nat
    requires IsInsn(e, e.Count(), a)
  {
    (a - e.base) / 4
  }

  ghost function GuestStep(e: Env, w: World, g: Guest): Guest
    requires e.Valid()
  {
    if g.At? && IsInsn(e, e.Count(), g.address) then
      IsaStep(e, w, g.address, e.code[Index(e, g.address)].word, g.ctx)
    else g
  }

  ghost function GuestRun(e: Env, w: World, g: Guest, n: nat): Guest
    requires e.Valid()
  {
    if n == 0 then g else GuestStep(e, w, GuestRun(e, w, g, n - 1))
  }

  /** The guest is at an instruction of the function that the translator supports, or has returned. */
  ghost predicate Proceeds(e: Env, g: Guest)
    requires e.Valid()
  {
    g.At? ==>
      && IsInsn(e, e.Count(), g.address)
      && Supported(e, CarryAt(e, Index(e, g.address)), e.code[Index(e, g.address)].insn, g.ctx)
  }

  lemma SupportedIsRecognised(e: Env, k: nat, ctx: Ctx)
    requires e.Valid() && k < e.Count() && Supported(e, CarryAt(e, k), e.code[k].insn, ctx)
    ensures Recognised(e.code[k].insn) && CounterStaysInside(e, k)
  {
  }

  lemma EntryOf(e: Env, g: Guest, r: Run) returns (k: nat)
    requires e.Valid() && g.At? && Proceeds(e, g) && Matches(e, g, r)
    ensures k < e.Count() && g.address == e.Addr(k) && k == Index(e, g.address) && r.pc == Entry(e, k)
  {
    k :| AtEntry(e, k, g.address, r.pc);
  }

  lemma StepEnds(e: Env, w: World, k: nat, g: Guest, r: Run)
    requires WellPlaced(e) && w.need == e.need && k < e.Count() && r.Running? && g == At(e.Addr(k), r.host.ctx)
    requires Supported(e, CarryAt(e, k), e.code[k].insn, g.ctx)
    requires r == Running(Entry(e, k), r.host) && RunInMode(w.arch, Emitted(e).stmts, r)
    ensures |Text(e, k)| > 0
    ensures Outcome(Emitted(e).stmts, Entry(e, k), Text(e, k), e.Addr(k),
                    IsaStep(e, w, e.Addr(k), e.code[k].word, g.ctx), HostRun(w, Emitted(e).stmts, r, |Text(e, k)|))
  {
    var a, f := e.Addr(k), e.code[k];
    SupportedIsRecognised(e, k, g.ctx);
    DecodedIsIsa(e, w, a, f.word, g.ctx);
    ChunkIsEmitted(e, k);
    EntryMode(e, k, w.arch, r.host.csr);
    TextRuns(e, w, a, f.word, f.insn, CarryAt(e, k), Emitted(e).stmts, r.pc, r.host);
  }

  lemma StepsCompose(e: Env, w: World, g: Guest, r: Run, n: nat)
    requires e.Valid() && n > 0 && Reaches(e, w, g, HostRun(w, Emitted(e).stmts, r, n), 0)
    ensures exists m: nat :: m > 0 && Matches(e, g, HostRun(w, Emitted(e).stmts, r, m))
  {
    var stmts := Emitted(e).stmts;
    var m: nat :| Matches(e, g, HostRun(w, stmts, HostRun(w, stmts, r, n), m));
    HostRunJoin(w, stmts, r, n, m, n + m);
  }

  /** Each guest step is matched by one or more host steps. */
  lemma StepIsSimulated(e: Env, w: World, g: Guest, r: Run)
    requires WellPlaced(e) && w.need == e.need && g.At? && Proceeds(e, g)
    requires Matches(e, g, r) && RunInMode(w.arch, Emitted(e).stmts, r)
    ensures exists n: nat :: n > 0 && Matches(e, GuestStep(e, w, g), HostRun(w, Emitted(e).stmts, r, n))
  {
    var k := EntryOf(e, g, r);
    SupportedIsRecognised(e, k, g.ctx);
    StepEnds(e, w, k, g, r);
    OutcomeReaches(e, w, k, GuestStep(e, w, g), HostRun(w, Emitted(e).stmts, r, |Text(e, k)|));
    StepsCompose(e, w, GuestStep(e, w, g), r, |Text(e, k)|);
  }

  lemma ReturnedStays(e: Env, w: World, g: Guest, r: Run, m: nat)
    requires e.Valid() && g.Returned? && Reaches(e, w, g, r, m)
    ensures Reaches(e, w, g, r, m + 1)
  {
    var stmts := Emitted(e).stmts;
    var n: nat :| n >= m && Matches(e, g, HostRun(w, stmts, r, n));
    assert HostRun(w, stmts, r, n + 1) == HostStep(w, stmts, HostRun(w, stmts, r, n));
  }

  lemma StepReaches(e: Env, w: World, g: Guest, r: Run, m: nat)
    requires WellPlaced(e) && w.need == e.need && Proceeds(e, g)
    requires RunInMode(w.arch, Emitted(e).stmts, r) && Reaches(e, w, g, r, m)
    ensures Reaches(e, w, GuestStep(e, w, g), r, m + 1)
  {
    var stmts := Emitted(e).stmts;
    if g.At? {
      var n: nat :| n >= m && Matches(e, g, HostRun(w, stmts, r, n));
      var s := HostRun(w, stmts, r, n);
      EveryRunInMode(w, stmts, r, n);
      StepIsSimulated(e, w, g, s);
      var l: nat :| l > 0 && Matches(e, GuestStep(e, w, g), HostRun(w, stmts, s, l));
      HostRunJoin(w, stmts, r, n, l, n + l);
      assert n + l >= m + 1;
    } else {
      ReturnedStays(e, w, g, r, m);
    }
  }

  /** The guest can go on through the first m steps. */
  ghost predicate ProceedsFor(e: Env, w: World, g: Guest, m: nat)
    requires e.Valid()
  {
    forall i: nat :: i < m ==> Proceeds(e, GuestRun(e, w, g, i))
  }

  lemma StartReaches(e: Env, w: World, g: Guest, r: Run, m: nat)
    requires e.Valid() && Matches(e, g, r) && m == 0
    ensures ReachesAfter(e, w, g, r, m)
  {
    assert HostRun(w, Emitted(e).stmts, r, 0) == r;
  }

  /** After m guest steps the host gets to the same place. */
  ghost predicate ReachesAfter(e: Env, w: World, g: Guest, r: Run, m: nat)
    requires e.Valid()
  {
    Reaches(e, w, GuestRun(e, w, g, m), r, m)
  }

  /**
   Simulation over whole runs: whatever the guest does in m steps, the emitted statements do in at
   least as many.
   */
  lemma {:induction false} RunIsSimulated(e: Env, w: World, g: Guest, r: Run, m: nat)
    requires WellPlaced(e) && w.need == e.need
    requires Matches(e, g, r) && RunInMode(w.arch, Emitted(e).stmts, r)
    requires ProceedsFor(e, w, g, m)
    ensures ReachesAfter(e, w, g, r, m)
  {
    if m == 0 {
      StartReaches(e, w, g, r, m);
    } else {
      var k := m - 1;
      RunIsSimulated(e, w, g, r, k);
      NextReaches(e, w, g, r, k, m);
    }
  }

  lemma NextReaches(e: Env, w: World, g: Guest, r: Run, k: nat, m: nat)
    requires WellPlaced(e) && w.need == e.need && m == k + 1 && ProceedsFor(e, w, g, m)
    requires RunInMode(w.arch, Emitted(e).stmts, r) && ReachesAfter(e, w, g, r, k)
    ensures ReachesAfter(e, w, g, r, m)
  {
    assert Proceeds(e, GuestRun(e, w, g, k));
    StepReaches(e, w, GuestRun(e, w, g, k), r, k);
  }

  // ----- from the entry to the return -----

  /** The guest is behind the last instruction, where the next function begins. */
  ghost predicate AtEnd(e: Env, g: Guest) { g.At? && g.address == e.Addr(e.Count()) }

  /** Every state of the guest has an instruction that the translator supports, or is behind the last one. */
  ghost predicate AlwaysSupported(e: Env, w: World, g: Guest)
    requires e.Valid()
  {
    forall i: nat :: Proceeds(e, GuestRun(e, w, g, i)) || AtEnd(e, GuestRun(e, w, g, i))
  }

  ghost predicate AlwaysProceeds(e: Env, w: World, g: Guest)
    requires e.Valid()
  {
    forall i: nat :: Proceeds(e, GuestRun(e, w, g, i))
  }

  /** Neither a return nor the end of the function has a step. */
  ghost predicate Halted(e: Env, g: Guest) { g.Returned? || AtEnd(e, g) }

  lemma {:induction false} HaltedStays(e: Env, w: World, g: Guest, k: nat, m: nat)
    requires e.Valid() && k <= m && Halted(e, GuestRun(e, w, g, k))
    ensures GuestRun(e, w, g, m) == GuestRun(e, w, g, k)
    decreases m
  {
    if k < m {
      HaltedStays(e, w, g, k, m - 1);
    }
  }

  /** If the guest ever gets behind the last instruction, it goes on normally until it first does. */
  lemma {:induction false} FirstEnd(e: Env, w: World, g: Guest, m: nat) returns (k: nat)
    requires e.Valid() && AlwaysSupported(e, w, g) && AtEnd(e, GuestRun(e, w, g, m))
    ensures k <= m && ProceedsFor(e, w, g, k) && GuestRun(e, w, g, k) == GuestRun(e, w, g, m)
  {
    if j: nat :| j < m && AtEnd(e, GuestRun(e, w, g, j)) {
      HaltedStays(e, w, g, j, m);
      k := FirstEnd(e, w, g, j);
    } else {
      k := m;
    }
  }

  lemma NoEndBeforeReturn(e: Env, w: World, g: Guest, m: nat)
    requires e.Valid() && AlwaysSupported(e, w, g) && GuestRun(e, w, g, m).Returned?
    ensures ProceedsFor(e, w, g, m)
  {
    forall i: nat | i < m
      ensures Proceeds(e, GuestRun(e, w, g, i))
    {
      if AtEnd(e, GuestRun(e, w, g, i)) {
        HaltedStays(e, w, g, i, m);
      }
    }
  }

  /** The host enters the function and passes the first label, if there is one. */
  lemma EntryReached(e: Env, w: World, h: Host)
    requires e.Valid() && e.Count() > 0
    ensures Reaches(e, w, At(e.base, h.ctx), Running(0, h), 0)
  {
    FallsThrough(e, w, 0, h);
  }

  lemma RunReached(e: Env, w: World, g: Guest, r: Run, m: nat)
    requires WellPlaced(e) && w.need == e.need && Reaches(e, w, g, r, 0)
    requires RunInMode(w.arch, Emitted(e).stmts, r) && ProceedsFor(e, w, g, m)
    ensures Reaches(e, w, GuestRun(e, w, g, m), r, m)
  {
    var stmts := Emitted(e).stmts;
    var n: nat :| Matches(e, g, HostRun(w, stmts, r, n));
    var s := HostRun(w, stmts, r, n);
    EveryRunInMode(w, stmts, r, n);
    RunIsSimulated(e, w, g, s, m);
    var l: nat :| l >= m && Matches(e, GuestRun(e, w, g, m), HostRun(w, stmts, s, l));
    HostRunJoin(w, stmts, r, n, l, n + l);
  }

  lemma {:induction false} DoneStays(w: World, stmts: seq<Stmt>, r: Run, m: nat, n: nat)
    requires m <= n && HostRun(w, stmts, r, m).Done?
    ensures HostRun(w, stmts, r, n) == HostRun(w, stmts, r, m)
    decreases n
  {
    if m < n {
      DoneStays(w, stmts, r, m, n - 1);
    }
  }

  ghost predicate HostReturnsAfter(e: Env, w: World, r: Run, ctx: Ctx, n: nat)
    requires e.Valid()
  {
    var s := HostRun(w, Emitted(e).stmts, r, n); s.Done? && s.host.ctx == ctx
  }

  ghost predicate HostReturns(e: Env, w: World, r: Run, ctx: Ctx)
    requires e.Valid()
  {
    exists n: nat :: HostReturnsAfter(e, w, r, ctx, n)
  }

  lemma HostReturnsOnce(e: Env, w: World, r: Run, x: Ctx, y: Ctx, m: nat, n: nat)
    requires e.Valid() && HostReturnsAfter(e, w, r, x, m) && HostReturnsAfter(e, w, r, y, n)
    ensures x == y
  {
    DoneStays(w, Emitted(e).stmts, r, if m <= n then m else n, if m <= n then n else m);
  }

  /** Behind the last instruction the emitted function is at its closing brace. */
  lemma EndIsBrace(e: Env, w: World, ctx: Ctx, s: Run)
    requires e.Valid() && Matches(e, At(e.Addr(e.Count()), ctx), s)
    ensures HostStep(w, Emitted(e).stmts, s) == Done(s.host) && s.host.ctx == ctx
  {
    var k: nat :| AtEntry(e, k, e.Addr(e.Count()), s.pc);
    assert k == e.Count();
    LabelLength(e, k);
  }

  lemma EndReturns(e: Env, w: World, g: Guest, r: Run, ctx: Ctx, m: nat)
    requires e.Valid() && Reaches(e, w, GuestRun(e, w, g, m), r, m)
    requires GuestRun(e, w, g, m) == At(e.Addr(e.Count()), ctx)
    ensures HostReturns(e, w, r, ctx)
  {
    var stmts := Emitted(e).stmts;
    var n: nat :| Matches(e, At(e.Addr(e.Count()), ctx), HostRun(w, stmts, r, n));
    EndIsBrace(e, w, ctx, HostRun(w, stmts, r, n));
    HostRunUnfolds(w, stmts, r, n, n + 1);
    assert HostReturnsAfter(e, w, r, ctx, n + 1);
  }

  ghost predicate GuestReturns(e: Env, w: World, g: Guest, ctx: Ctx)
    requires e.Valid()
  {
    exists m: nat :: GuestRun(e, w, g, m) == Returned(ctx)
  }

  /** The guest leaves the function behind its last instruction, and goes on in whatever follows it. */
  ghost predicate GuestFallsOff(e: Env, w: World, g: Guest, ctx: Ctx)
    requires e.Valid()
  {
    exists m: nat :: GuestRun(e, w, g, m) == At(e.Addr(e.Count()), ctx)
  }

  lemma GuestReturnIsHostReturn(e: Env, w: World, g: Guest, r: Run, ctx: Ctx)
    requires WellPlaced(e) && w.need == e.need && Reaches(e, w, g, r, 0)
    requires RunInMode(w.arch, Emitted(e).stmts, r) && AlwaysSupported(e, w, g)
    requires GuestReturns(e, w, g, ctx)
    ensures HostReturns(e, w, r, ctx)
  {
    var m: nat :| GuestRun(e, w, g, m) == Returned(ctx);
    NoEndBeforeReturn(e, w, g, m);
    RunReached(e, w, g, r, m);
    ReturnReached(e, w, r, ctx, m);
  }

  lemma ReturnReached(e: Env, w: World, r: Run, ctx: Ctx, m: nat)
    requires e.Valid() && Reaches(e, w, Returned(ctx), r, m)
    ensures HostReturns(e, w, r, ctx)
  {
    var n: nat :| n >= m && Matches(e, Returned(ctx), HostRun(w, Emitted(e).stmts, r, n));
    ReturnMatches(e, ctx, HostRun(w, Emitted(e).stmts, r, n));
    assert HostReturnsAfter(e, w, r, ctx, n);
  }

  lemma ReturnMatches(e: Env, ctx: Ctx, s: Run)
    requires e.Valid() && Matches(e, Returned(ctx), s)
    ensures s.Done? && s.host.ctx == ctx
  {
  }

  lemma FallingOffIsHostReturn(e: Env, w: World, g: Guest, r: Run, ctx: Ctx)
    requires WellPlaced(e) && w.need == e.need && Reaches(e, w, g, r, 0)
    requires RunInMode(w.arch, Emitted(e).stmts, r) && AlwaysSupported(e, w, g)
    requires GuestFallsOff(e, w, g, ctx)
    ensures HostReturns(e, w, r, ctx)
  {
    var m: nat :| GuestRun(e, w, g, m) == At(e.Addr(e.Count()), ctx);
    var k := FirstEnd(e, w, g, m);
    RunReached(e, w, g, r, k);
    EndReturns(e, w, g, r, ctx, k);
  }

  /** A guest that goes on for as long as the host ran has returned with it. */
  lemma HostReturnIsGuestReturn(e: Env, w: World, g: Guest, r: Run, ctx: Ctx, n: nat)
    requires WellPlaced(e) && w.need == e.need && Reaches(e, w, g, r, 0)
    requires RunInMode(w.arch, Emitted(e).stmts, r) && ProceedsFor(e, w, g, n)
    requires HostReturnsAfter(e, w, r, ctx, n)
    ensures GuestRun(e, w, g, n) == Returned(ctx)
  {
    RunReached(e, w, g, r, n);
    var l: nat :| l >= n && Matches(e, GuestRun(e, w, g, n), HostRun(w, Emitted(e).stmts, r, l));
    DoneStays(w, Emitted(e).stmts, r, n, l);
  }

  lemma HostReturnIsGuestExit(e: Env, w: World, g: Guest, r: Run, ctx: Ctx)
    requires WellPlaced(e) && w.need == e.need && Reaches(e, w, g, r, 0)
    requires RunInMode(w.arch, Emitted(e).stmts, r) && AlwaysSupported(e, w, g)
    requires HostReturns(e, w, r, ctx)
    ensures GuestReturns(e, w, g, ctx) || GuestFallsOff(e, w, g, ctx)
  {
    var n: nat :| HostReturnsAfter(e, w, r, ctx, n);
    if i: nat :| i < n && AtEnd(e, GuestRun(e, w, g, i)) {
      var last := GuestRun(e, w, g, i).ctx;
      FallingOffIsHostReturn(e, w, g, r, last);
      var m: nat :| HostReturnsAfter(e, w, r, last, m);
      HostReturnsOnce(e, w, r, ctx, last, n, m);
    } else {
      HostReturnIsGuestReturn(e, w, g, r, ctx, n);
    }
  }

  /**
   The main result on the translator: called in any state, the emitted function returns with exactly
   the guest states with which the guest function returns or falls off its end, as the closing brace
   returns too. It runs on if the guest runs on inside the function.
   */
  lemma ReturnsExactly(e: Env, w: World, h: Host, ctx: Ctx)
    requires WellPlaced(e) && e.Count() > 0 && w.need == e.need && h.csr.Coherent()
    requires AlwaysSupported(e, w, At(e.base, h.ctx))
    ensures HostReturns(e, w, Running(0, h), ctx) <==>
            GuestReturns(e, w, At(e.base, h.ctx), ctx) || GuestFallsOff(e, w, At(e.base, h.ctx), ctx)
  {
    var g, r := At(e.base, h.ctx), Running(0, h);
    assert Emitted(e).stmts[..0] == [];
    EntryReached(e, w, h);
    if HostReturns(e, w, r, ctx) {
      HostReturnIsGuestExit(e, w, g, r, ctx);
    }
    if GuestReturns(e, w, g, ctx) {
      GuestReturnIsHostReturn(e, w, g, r, ctx);
    }
    if GuestFallsOff(e, w, g, ctx) {
      FallingOffIsHostReturn(e, w, g, r, ctx);
    }
  }

  lemma EndIsNoInsn(e: Env)
    requires e.Valid()
    ensures !IsInsn(e, e.Count(), e.Addr(e.Count()))
  {
  }

  /** A guest that never gets behind the last instruction returns if and only if the emitted function does. */
  lemma ReturnsAgree(e: Env, w: World, h: Host, ctx: Ctx)
    requires WellPlaced(e) && e.Count() > 0 && w.need == e.need && h.csr.Coherent()
    requires AlwaysProceeds(e, w, At(e.base, h.ctx))
    ensures GuestReturns(e, w, At(e.base, h.ctx), ctx) <==> HostReturns(e, w, Running(0, h), ctx)
  {
    EndIsNoInsn(e);
    ReturnsExactly(e, w, h, ctx);
  }
}
